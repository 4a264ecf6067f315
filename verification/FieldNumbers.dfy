/** Bitfield access as arithmetic on the one number that a buffer holds in the target's byte order. */
module FieldNumbers {
  import opened BinaryNumbers
  import opened MachineWords
  import opened StorageBits
  import opened Fields
  import opened FieldLaws

  /** The number a buffer holds with its first byte the least significant. */
  function LittleEndian(s: seq<u8>): nat {
    if s == [] then 0 else s[0] + 0x100 * LittleEndian(s[1..])
  }

  /** The number a buffer holds with its first byte the most significant. */
  function BigEndian(s: seq<u8>): nat {
    if s == [] then 0 else 0x100 * BigEndian(s[..|s| - 1]) + s[|s| - 1]
  }

  lemma {:induction false} BigEndianReverse(s: seq<u8>)
    ensures BigEndian(s) == LittleEndian(Reverse(s))
  {
    if s != [] {
      BigEndianReverse(s[..|s| - 1]);
      assert Reverse(s)[1..] == Reverse(s[..|s| - 1]);
    }
  }

  lemma ByteBits(b: u8)
    ensures FromBits(Bits(b, 8)) == b
  {
    FromBitsOfBits(b, 8);
    Pow2Byte();
  }

  lemma ViewFirstByte(s: seq<u8>)
    requires s != []
    ensures View(false, s) == Bits(s[0], 8) + View(false, s[1..])
  {
    forall i | 0 <= i < 8 * |s| ensures View(false, s)[i] == (Bits(s[0], 8) + View(false, s[1..]))[i] {
      if i < 8 {
        BitsAt(s[0], 8, i);
      } else {
        assert i / 8 - 1 == (i - 8) / 8 && i % 8 == (i - 8) % 8;
      }
    }
  }

  lemma {:induction false} LittleViewIsNumber(s: seq<u8>)
    ensures FromBits(View(false, s)) == LittleEndian(s)
  {
    if s != [] {
      LittleViewIsNumber(s[1..]);
      ViewFirstByte(s);
      ByteBits(s[0]);
      Pow2Byte();
      FromBitsConcat(Bits(s[0], 8), View(false, s[1..]));
    }
  }

  /** The number a buffer holds on the target. */
  function Number(bigEndian: bool, s: seq<u8>): nat {
    if bigEndian then BigEndian(s) else LittleEndian(s)
  }

  /** Where the lowest digit of a field is in that number. */
  function LowDigit(bigEndian: bool, bitCount: nat, off: nat, w: nat): nat
    requires off + w <= bitCount
  {
    if bigEndian then bitCount - off - w else off
  }

  /** The bits of a buffer, in order of significance, are the binary expansion of its number. */
  lemma ViewIsNumber(bigEndian: bool, s: seq<u8>)
    ensures FromBits(Orient(bigEndian, View(bigEndian, s))) == Number(bigEndian, s)
  {
    if bigEndian {
      ViewDuality(s);
      ReverseInvolutive(View(false, Reverse(s)));
      LittleViewIsNumber(Reverse(s));
      BigEndianReverse(s);
    } else {
      LittleViewIsNumber(s);
    }
  }

  lemma SpliceParts(bits: seq<bool>, off: nat, w: nat, f: seq<bool>)
    requires |f| == w && off + w <= |bits|
    ensures bits == bits[..off] + Slice(bits, off, w) + bits[off + w..]
    ensures Splice(bits, off, f) == bits[..off] + f + bits[off + w..]
  {}

  lemma OrientParts(bigEndian: bool, bits: seq<bool>, off: nat, w: nat, low: nat)
    requires off + w <= |bits| && low == LowDigit(bigEndian, |bits|, off, w)
    ensures var g := Orient(bigEndian, bits);
            g == g[..low] + Orient(bigEndian, Slice(bits, off, w)) + g[low + w..]
  {
    var g := Orient(bigEndian, bits);
    if bigEndian {
      SliceReversed(bits, off, w);
    }
    SpliceParts(g, low, w, Slice(g, low, w));
  }

  lemma OrientSplice(bigEndian: bool, bits: seq<bool>, off: nat, w: nat, low: nat, g': seq<bool>)
    requires off + w <= |bits| && low == LowDigit(bigEndian, |bits|, off, w) && |g'| == w
    ensures var g := Orient(bigEndian, bits);
            Orient(bigEndian, Splice(bits, off, Orient(bigEndian, g'))) == g[..low] + g' + g[low + w..]
  {
    if bigEndian {
      SpliceReversed(bits, off, w, Reverse(g'));
      ReverseInvolutive(g');
    }
    SpliceParts(Orient(bigEndian, bits), low, w, g');
  }

  /** `get` returns digits of the number: `(N / 2^low) mod 2^w`, where `low` is the offset on a
      little-endian target and what is left after the field on a big-endian one. */
  lemma GetIsDigits(bigEndian: bool, s: seq<u8>, off: nat, w: nat)
    requires off + w <= 8 * |s| && w <= 64
    ensures GetField(bigEndian, s, off, w)
         == (Number(bigEndian, s) / Pow2(LowDigit(bigEndian, 8 * |s|, off, w))) % Pow2(w)
  {
    var low := LowDigit(bigEndian, 8 * |s|, off, w);
    var g, g' := Orient(bigEndian, View(bigEndian, s)), Orient(bigEndian, Slice(View(bigEndian, s), off, w));
    ViewIsNumber(bigEndian, s);
    WordOfNarrow(g');
    OrientParts(bigEndian, View(bigEndian, s), off, w, low);
    FromBitsMiddle(g[..low], g', g[low + w..]);
  }

  /** The same with the two powers given as numbers. */
  lemma GetIsDigitsBy(bigEndian: bool, s: seq<u8>, off: nat, w: nat, p: nat, q: nat)
    requires off + w <= 8 * |s| && w <= 64
    requires p == Pow2(LowDigit(bigEndian, 8 * |s|, off, w)) && q == Pow2(w)
    ensures GetField(bigEndian, s, off, w) == (Number(bigEndian, s) / p) % q
  {
    GetIsDigits(bigEndian, s, off, w);
  }

  lemma SetReplacesValue(bigEndian: bool, s: seq<u8>, off: nat, w: nat, val: nat)
    requires off + w <= 8 * |s| && w <= 64
    ensures Number(bigEndian, SetField(bigEndian, s, off, w, val))
         == Number(bigEndian, s)
            - GetField(bigEndian, s, off, w) * Pow2(LowDigit(bigEndian, 8 * |s|, off, w))
            + FromBits(Bits(val, w)) * Pow2(LowDigit(bigEndian, 8 * |s|, off, w))
  {
    var low := LowDigit(bigEndian, 8 * |s|, off, w);
    var bits := View(bigEndian, s);
    var g, was, now := Orient(bigEndian, bits), Orient(bigEndian, Slice(bits, off, w)), Bits(val, w);
    ViewIsNumber(bigEndian, s);
    ViewIsNumber(bigEndian, SetField(bigEndian, s, off, w, val));
    ViewOfSetField(bigEndian, s, off, w, val);
    WordBitsNarrow(val, w);
    WordOfNarrow(was);
    OrientParts(bigEndian, bits, off, w, low);
    OrientSplice(bigEndian, bits, off, w, low, now);
    FromBitsReplace(g[..low], was, now, g[low + w..]);
  }

  /** `set` takes the old digits out of the number and puts the new ones in, however many bytes the
      field straddles. */
  lemma SetReplacesDigits(bigEndian: bool, s: seq<u8>, off: nat, w: nat, val: nat)
    requires off + w <= 8 * |s| && w <= 64
    ensures Number(bigEndian, SetField(bigEndian, s, off, w, val))
         == Number(bigEndian, s)
            - ((Number(bigEndian, s) / Pow2(LowDigit(bigEndian, 8 * |s|, off, w))) % Pow2(w))
              * Pow2(LowDigit(bigEndian, 8 * |s|, off, w))
            + (val % Pow2(w)) * Pow2(LowDigit(bigEndian, 8 * |s|, off, w))
  {
    SetReplacesValue(bigEndian, s, off, w, val);
    GetIsDigits(bigEndian, s, off, w);
    FromBitsOfBits(val, w);
  }
}
