/** Byte order of 16- and 32-bit values: native loads, `from_be`, IPv4 addresses as numbers. */
module ByteOrder {
  import opened BinaryNumbers
  import opened MachineWords
  import opened FieldNumbers

  type i32 = x: int | -0x8000_0000 <= x < 0x8000_0000

  /** `std::net::Ipv4Addr`: four octets in the order in which they are written. */
  datatype Ipv4Addr = Ipv4Addr(a: u8, b: u8, c: u8, d: u8)

  /** Positional value in base 256, most significant digit first. */
  function Base256(a: nat, b: nat, c: nat, d: nat): nat {
    0x100_0000 * a + 0x1_0000 * b + 0x100 * c + d
  }

  function ToU32(addr: Ipv4Addr): u32 {
    Base256(addr.a, addr.b, addr.c, addr.d)
  }

  function FromU32(x: u32): Ipv4Addr {
    Ipv4Addr(x / 0x100_0000, x / 0x1_0000 % 0x100, x / 0x100 % 0x100, x % 0x100)
  }

  /** The `k` low bytes of a number, lowest first. */
  function LittleBytes(x: nat, k: nat): (s: seq<u8>)
    ensures |s| == k
  {
    if k == 0 then [] else [x % 0x100] + LittleBytes(x / 0x100, k - 1)
  }

  lemma {:induction false} LittleBytesOfNumber(s: seq<u8>)
    ensures LittleBytes(LittleEndian(s), |s|) == s
  {
    if s != [] {
      LittleBytesOfNumber(s[1..]);
      SplitLowByte(LittleEndian(s[1..]), s[0]);
    }
  }

  /** `swap_bytes`: the low bytes of a number, read from the other end. */
  function SwapBytes16(x: u16): (y: u16)
  {
    NumberOf2(LittleBytes(x, 2));
    BigEndian(LittleBytes(x, 2))
  }

  function SwapBytes32(x: u32): (y: u32)
  {
    NumberOf4(LittleBytes(x, 4));
    BigEndian(LittleBytes(x, 4))
  }

  /** `u16::from_be` and `u16::to_be`. */
  function FromBe16(bigEndian: bool, x: u16): u16 {
    if bigEndian then x else SwapBytes16(x)
  }

  /** `u32::from_be`. */
  function FromBe32(bigEndian: bool, x: u32): u32 {
    if bigEndian then x else SwapBytes32(x)
  }

  lemma NumberOf2(s: seq<u8>)
    requires |s| == 2
    ensures LittleEndian(s) == Base256(0, 0, s[1], s[0])
    ensures BigEndian(s) == Base256(0, 0, s[0], s[1])
  {
    assert s[1..][1..] == [] && s[..1][..0] == [];
    assert LittleEndian([]) == 0 && BigEndian([]) == 0;
  }

  lemma NumberOf4(s: seq<u8>)
    requires |s| == 4
    ensures LittleEndian(s) == Base256(s[3], s[2], s[1], s[0])
    ensures BigEndian(s) == Base256(s[0], s[1], s[2], s[3])
  {
    NumberOf2(s[2..]);
    NumberOf2(s[..2]);
    assert s[1..][1..] == s[2..];
    assert s[..3][..2] == s[..2];
  }

  /** A native load of a field of the given bytes. */
  function Native16(bigEndian: bool, s: seq<u8>): (x: u16)
    requires |s| == 2
    ensures x == if bigEndian then Base256(0, 0, s[0], s[1]) else Base256(0, 0, s[1], s[0])
  {
    NumberOf2(s);
    Number(bigEndian, s)
  }

  function Native32(bigEndian: bool, s: seq<u8>): (x: u32)
    requires |s| == 4
    ensures x == if bigEndian then Base256(s[0], s[1], s[2], s[3]) else Base256(s[3], s[2], s[1], s[0])
  {
    NumberOf4(s);
    Number(bigEndian, s)
  }

  lemma SplitLowByte(q: nat, r: u8)
    ensures (0x100 * q + r) / 0x100 == q && (0x100 * q + r) % 0x100 == r
  {}

  /** `from_be` of a native load is the big-endian value of the bytes, whatever the target. */
  lemma FromBeOfLoad16(bigEndian: bool, s: seq<u8>)
    requires |s| == 2
    ensures FromBe16(bigEndian, Native16(bigEndian, s)) == 0x100 * (s[0] as nat) + s[1] as nat
  {
    NumberOf2(s);
    LittleBytesOfNumber(s);
  }

  lemma ShiftBytes(x: nat)
    ensures x / 0x1_0000 == x / 0x100 / 0x100
    ensures x / 0x100_0000 == x / 0x100 / 0x100 / 0x100
  {}

  /** The digits of a number in base 256. */
  lemma Base256Digits(a: u8, b: u8, c: u8, d: u8)
    ensures var x := Base256(a, b, c, d);
            && x % 0x100 == d && x / 0x100 % 0x100 == c && x / 0x1_0000 % 0x100 == b && x / 0x100_0000 == a
  {
    var x := Base256(a, b, c, d);
    var top: nat := 0x100 * (a as nat) + b;
    var upper: nat := 0x100 * top + c;
    assert x == 0x100 * upper + d;
    SplitLowByte(upper, d);
    SplitLowByte(top, c);
    SplitLowByte(a, b);
    ShiftBytes(x);
  }

  /** `u32::from_be` of a native load of four octets is their value in network order, on either target. */
  lemma FromBeOfLoad32(bigEndian: bool, s: seq<u8>)
    requires |s| == 4
    ensures FromBe32(bigEndian, Native32(bigEndian, s)) == Base256(s[0], s[1], s[2], s[3])
    ensures Base256(s[0], s[1], s[2], s[3])
         == 0x100_0000 * (s[0] as nat) + 0x1_0000 * (s[1] as nat) + 0x100 * (s[2] as nat) + s[3] as nat
  {
    NumberOf4(s);
    LittleBytesOfNumber(s);
  }

  /** An address as a map key is its octets in network order. */
  lemma AddrOnWire(a: u8, b: u8, c: u8, d: u8)
    ensures ToU32(Ipv4Addr(a, b, c, d))
         == 0x100_0000 * (a as nat) + 0x1_0000 * (b as nat) + 0x100 * (c as nat) + d as nat
    ensures FromU32(ToU32(Ipv4Addr(a, b, c, d))) == Ipv4Addr(a, b, c, d)
  {
    AddrRoundTrip(Ipv4Addr(a, b, c, d));
  }

  lemma AddrRoundTrip(addr: Ipv4Addr)
    ensures FromU32(ToU32(addr)) == addr
  {
    Base256Digits(addr.a, addr.b, addr.c, addr.d);
  }

  lemma ToU32Injective(addr: Ipv4Addr, addr': Ipv4Addr)
    requires ToU32(addr) == ToU32(addr')
    ensures addr == addr'
  {
    AddrRoundTrip(addr);
    AddrRoundTrip(addr');
  }

  function NativeBytes(bigEndian: bool, x: nat, k: nat): (s: seq<u8>)
    ensures |s| == k
  {
    if bigEndian then Reverse(LittleBytes(x, k)) else LittleBytes(x, k)
  }

  lemma {:induction false} LittleBytesRoundTrip(x: nat, k: nat)
    requires x < Pow2(8 * k)
    ensures LittleEndian(LittleBytes(x, k)) == x
  {
    if k != 0 {
      Pow2Byte();
      Pow2Add(8, 8 * (k - 1));
      LittleBytesRoundTrip(x / 0x100, k - 1);
      assert LittleBytes(x, k)[1..] == LittleBytes(x / 0x100, k - 1);
    }
  }

  /** A native load undoes a native store. */
  lemma NativeRoundTrip(bigEndian: bool, x: u32)
    ensures Native32(bigEndian, NativeBytes(bigEndian, x, 4)) == x
  {
    Pow2Half();
    LittleBytesRoundTrip(x, 4);
    BigEndianReverse(Reverse(LittleBytes(x, 4)));
    ReverseInvolutive(LittleBytes(x, 4));
  }
}
