/** The IPv4 header struct of the generated bindings: its two nibble accessors and its layout. */
module IpHeader {
  import opened BinaryNumbers
  import opened MachineWords
  import opened Fields
  import opened FieldLaws
  import opened FieldNumbers
  import opened FieldRuns
  import opened Options
  import opened BitfieldUnits

  /** What `ihl()` and `version()` read from the first byte of a header. */
  function IhlOf(bigEndian: bool, s: seq<u8>): u8
    requires |s| == 1
  {
    GetField(bigEndian, s, 0, 4) % 0x100
  }

  function VersionOf(bigEndian: bool, s: seq<u8>): u8
    requires |s| == 1
  {
    GetField(bigEndian, s, 4, 4) % 0x100
  }

  /** The byte with the given high and low nibble. */
  function Nibbles(high: nat, low: nat): u8 {
    16 * (high % 16) + low % 16
  }

  /** The first header byte that the target's bit numbering gives to a pair of nibbles. */
  function HeaderByte(bigEndian: bool, ihl: nat, version: nat): u8 {
    if bigEndian then Nibbles(ihl, version) else Nibbles(version, ihl)
  }

  const NIBBLES: seq<Field> := [Field(0, 4), Field(4, 4)]

  lemma NumberOfByte(bigEndian: bool, b: u8)
    ensures Number(bigEndian, [b]) == b
  {
    if bigEndian {
      assert [b][..0] == [] && BigEndian([]) == 0;
    } else {
      assert [b][1..] == [] && LittleEndian([]) == 0;
    }
  }

  lemma Pow2Nibble()
    ensures Pow2(0) == 1 && Pow2(4) == 16
  {}

  /** The field in the low nibble of a byte, and the one in its high nibble. */
  lemma FieldIsNibble(bigEndian: bool, b: u8)
    ensures GetField(bigEndian, [b], if bigEndian then 4 else 0, 4) == b % 16
    ensures GetField(bigEndian, [b], if bigEndian then 0 else 4, 4) == b / 16
  {
    NumberOfByte(bigEndian, b);
    Pow2Nibble();
    GetIsDigitsBy(bigEndian, [b], if bigEndian then 4 else 0, 4, 1, 16);
    GetIsDigitsBy(bigEndian, [b], if bigEndian then 0 else 4, 4, 16, 16);
  }

  /** `ihl()` is the low nibble of the byte on a little-endian target and the high one on a
      big-endian target; `version()` is the other one. */
  lemma AccessorsReadNibbles(bigEndian: bool, b: u8)
    ensures IhlOf(bigEndian, [b]) == if bigEndian then b / 16 else b % 16
    ensures VersionOf(bigEndian, [b]) == if bigEndian then b % 16 else b / 16
  {
    FieldIsNibble(bigEndian, b);
  }

  /** Section 3.1 of RFC 791 puts the version in the high nibble and the header length in the low one.
      The accessors agree with it exactly on the little-endian targets the bindings were made for, and
      on bytes whose nibbles happen to be equal. */
  lemma AccessorsMatchWire(bigEndian: bool, b: u8)
    ensures IhlOf(bigEndian, [b]) == b % 16 && VersionOf(bigEndian, [b]) == b / 16
       <==> !bigEndian || b / 16 == b % 16
  {
    AccessorsReadNibbles(bigEndian, b);
  }

  lemma ByteFromAccessors(bigEndian: bool, s: seq<u8>)
    requires |s| == 1
    ensures s == [HeaderByte(bigEndian, IhlOf(bigEndian, s), VersionOf(bigEndian, s))]
  {
    AccessorsReadNibbles(bigEndian, s[0]);
    NibblesOfByte(s[0]);
    assert s == [s[0]];
  }

  lemma NibblesOfByte(b: u8)
    ensures Nibbles(b / 16, b % 16) == b
  {}

  lemma ByteFromNibbles(bigEndian: bool, s: seq<u8>, ihl: nat, version: nat)
    requires |s| == 1 && IhlOf(bigEndian, s) == ihl % 16 && VersionOf(bigEndian, s) == version % 16
    ensures s == [HeaderByte(bigEndian, ihl, version)]
  {
    ByteFromAccessors(bigEndian, s);
    NibblesMod(version, ihl);
    NibblesMod(ihl, version);
  }

  lemma NibblesMod(high: nat, low: nat)
    ensures Nibbles(high % 16, low % 16) == Nibbles(high, low)
  {}

  /** A call of one of the two setters. */
  datatype Setter = IhlSetter(val: u8) | VersionSetter(val: u8)

  function WriteOf(call: Setter): Write {
    match call
    case IhlSetter(val) => Write(0, val)
    case VersionSetter(val) => Write(1, val)
  }

  /** The writes of `new_bitfield_1`, in order, followed by those of the setters. */
  function HeaderWrites(ihl: u8, version: u8, calls: seq<Setter>): (writes: seq<Write>)
    ensures WritesInRange(NIBBLES, writes, 8)
  {
    if calls == [] then [Write(0, ihl), Write(1, version)]
    else HeaderWrites(ihl, version, calls[..|calls| - 1]) + [WriteOf(calls[|calls| - 1])]
  }

  /** The byte after `new_bitfield_1` and a run of setters. */
  function HeaderAfter(bigEndian: bool, ihl: u8, version: u8, calls: seq<Setter>): (s: seq<u8>)
    ensures |s| == 1
  {
    RunWrites(bigEndian, Zeros(1), NIBBLES, HeaderWrites(ihl, version, calls))
  }

  /** The last header length set, or the one at the start. */
  function LastIhl(calls: seq<Setter>, ihl: u8): u8 {
    if calls == [] then ihl
    else
      match calls[|calls| - 1]
      case IhlSetter(val) => val
      case VersionSetter(_) => LastIhl(calls[..|calls| - 1], ihl)
  }

  /** The last version set, or the one at the start. */
  function LastVersion(calls: seq<Setter>, version: u8): u8 {
    if calls == [] then version
    else
      match calls[|calls| - 1]
      case IhlSetter(_) => LastVersion(calls[..|calls| - 1], version)
      case VersionSetter(val) => val
  }

  lemma {:induction false} LastHeaderWrite(ihl: u8, version: u8, calls: seq<Setter>)
    ensures LastWrite(HeaderWrites(ihl, version, calls), 0) == Some(LastIhl(calls, ihl))
    ensures LastWrite(HeaderWrites(ihl, version, calls), 1) == Some(LastVersion(calls, version))
  {
    var all := HeaderWrites(ihl, version, calls);
    if calls == [] {
      assert all[..1] == [Write(0, ihl)];
    } else {
      LastHeaderWrite(ihl, version, calls[..|calls| - 1]);
      assert all[..|all| - 1] == HeaderWrites(ihl, version, calls[..|calls| - 1]);
    }
  }

  lemma NibbleInByte(field: nat, val: nat)
    requires field == val % 16
    ensures field % 0x100 == val % 16
  {}

  lemma NibbleAfterRun(bigEndian: bool, ihl: u8, version: u8, calls: seq<Setter>, k: nat, last: u64)
    requires k < 2 && LastWrite(HeaderWrites(ihl, version, calls), k) == Some(last)
    ensures GetField(bigEndian, HeaderAfter(bigEndian, ihl, version, calls), 4 * k, 4) == last % 16
  {
    assert NIBBLES[k] == Field(4 * k, 4);
    Pow2Nibble();
    RunFromZeros(bigEndian, 1, NIBBLES, HeaderWrites(ihl, version, calls), k);
  }

  /** After `new_bitfield_1` and any run of setters, each accessor returns the last value of its own
      nibble modulo 16. */
  lemma AccessorsAfterRun(bigEndian: bool, ihl: u8, version: u8, calls: seq<Setter>)
    ensures IhlOf(bigEndian, HeaderAfter(bigEndian, ihl, version, calls)) == LastIhl(calls, ihl) % 16
    ensures VersionOf(bigEndian, HeaderAfter(bigEndian, ihl, version, calls)) == LastVersion(calls, version) % 16
  {
    var s := HeaderAfter(bigEndian, ihl, version, calls);
    LastHeaderWrite(ihl, version, calls);
    NibbleAfterRun(bigEndian, ihl, version, calls, 0, LastIhl(calls, ihl));
    NibbleAfterRun(bigEndian, ihl, version, calls, 1, LastVersion(calls, version));
    NibbleInByte(GetField(bigEndian, s, 0, 4), LastIhl(calls, ihl));
    NibbleInByte(GetField(bigEndian, s, 4, 4), LastVersion(calls, version));
  }

  /** And the byte is the two nibbles side by side: on a little-endian target `16 * version + ihl`. */
  lemma ByteAfterRun(bigEndian: bool, ihl: u8, version: u8, calls: seq<Setter>)
    ensures HeaderAfter(bigEndian, ihl, version, calls)
         == [HeaderByte(bigEndian, LastIhl(calls, ihl), LastVersion(calls, version))]
  {
    AccessorsAfterRun(bigEndian, ihl, version, calls);
    ByteFromNibbles(bigEndian, HeaderAfter(bigEndian, ihl, version, calls),
                    LastIhl(calls, ihl), LastVersion(calls, version));
  }

  /** One more call of a setter is one more write of its nibble. */
  lemma HeaderStep(bigEndian: bool, ihl: u8, version: u8, calls: seq<Setter>, i: nat)
    requires i < |calls|
    ensures HeaderAfter(bigEndian, ihl, version, calls[..i + 1])
         == SetField(bigEndian, HeaderAfter(bigEndian, ihl, version, calls[..i]),
                     if calls[i].IhlSetter? then 0 else 4, 4, calls[i].val)
  {
    var all := HeaderWrites(ihl, version, calls[..i]);
    assert calls[..i + 1][..i] == calls[..i];
    assert (all + [WriteOf(calls[i])])[..|all|] == all;
  }

  lemma NewBitfieldByte(bigEndian: bool, ihl: u8, version: u8)
    ensures SetField(bigEndian, SetField(bigEndian, Zeros(1), 0, 4, ihl), 4, 4, version)
         == [HeaderByte(bigEndian, ihl, version)]
  {
    var writes := HeaderWrites(ihl, version, []);
    ByteAfterRun(bigEndian, ihl, version, []);
    assert writes[..1] == [Write(0, ihl)];
    assert RunWrites(bigEndian, Zeros(1), NIBBLES, writes[..1])
        == SetField(bigEndian, Zeros(1), 0, 4, ihl);
  }

  /** `new_bitfield_1` on what the accessors return gives the byte back. */
  lemma HeaderByteRebuild(bigEndian: bool, s: seq<u8>)
    requires |s| == 1
    ensures SetField(bigEndian, SetField(bigEndian, Zeros(1), 0, 4, IhlOf(bigEndian, s)), 4, 4, VersionOf(bigEndian, s)) == s
  {
    NewBitfieldByte(bigEndian, IhlOf(bigEndian, s), VersionOf(bigEndian, s));
    ByteFromAccessors(bigEndian, s);
  }

  /** Each setter stores its argument modulo 16 and leaves the other nibble alone. */
  lemma SettersIndependent(bigEndian: bool, s: seq<u8>, val: u8)
    requires |s| == 1
    ensures IhlOf(bigEndian, SetField(bigEndian, s, 0, 4, val)) == val % 16
    ensures VersionOf(bigEndian, SetField(bigEndian, s, 0, 4, val)) == VersionOf(bigEndian, s)
    ensures VersionOf(bigEndian, SetField(bigEndian, s, 4, 4, val)) == val % 16
    ensures IhlOf(bigEndian, SetField(bigEndian, s, 4, 4, val)) == IhlOf(bigEndian, s)
  {
    Pow2Nibble();
    GetAfterSet(bigEndian, s, 0, 4, val);
    GetAfterSet(bigEndian, s, 4, 4, val);
    SetFrame(bigEndian, s, 0, 4, val, 4, 4);
    SetFrame(bigEndian, s, 4, 4, val, 0, 4);
  }

  class Iphdr {
    const bitfield1: BitfieldUnit

    /** The bitfield is stored in `[u8; 1]`. */
    predicate Valid() {
      bitfield1.storage.Length == 1
    }

    constructor (bitfield1: BitfieldUnit)
      requires bitfield1.storage.Length == 1
      ensures Valid() && this.bitfield1 == bitfield1
    {
      this.bitfield1 := bitfield1;
    }

    method Ihl() returns (r: Outcome<u8>)
      requires Valid()
      ensures r == Returned(IhlOf(bitfield1.bigEndian, bitfield1.storage[..]))
    {
      var field := bitfield1.Get(0, 4);
      if field.Panicked? {
        return Panicked;
      }
      return Returned(field.value % 0x100);
    }

    method Version() returns (r: Outcome<u8>)
      requires Valid()
      ensures r == Returned(VersionOf(bitfield1.bigEndian, bitfield1.storage[..]))
    {
      var field := bitfield1.Get(4, 4);
      if field.Panicked? {
        return Panicked;
      }
      return Returned(field.value % 0x100);
    }

    method SetIhl(val: u8) returns (r: Outcome<()>)
      requires Valid()
      modifies bitfield1.storage
      ensures r.Returned?
      ensures bitfield1.storage[..] == SetField(bitfield1.bigEndian, old(bitfield1.storage[..]), 0, 4, val)
      ensures IhlOf(bitfield1.bigEndian, bitfield1.storage[..]) == val % 16
      ensures VersionOf(bitfield1.bigEndian, bitfield1.storage[..])
           == old(VersionOf(bitfield1.bigEndian, bitfield1.storage[..]))
    {
      r := bitfield1.Set(0, 4, val);
      SettersIndependent(bitfield1.bigEndian, old(bitfield1.storage[..]), val);
    }

    method SetVersion(val: u8) returns (r: Outcome<()>)
      requires Valid()
      modifies bitfield1.storage
      ensures r.Returned?
      ensures bitfield1.storage[..] == SetField(bitfield1.bigEndian, old(bitfield1.storage[..]), 4, 4, val)
      ensures VersionOf(bitfield1.bigEndian, bitfield1.storage[..]) == val % 16
      ensures IhlOf(bitfield1.bigEndian, bitfield1.storage[..])
           == old(IhlOf(bitfield1.bigEndian, bitfield1.storage[..]))
    {
      r := bitfield1.Set(4, 4, val);
      SettersIndependent(bitfield1.bigEndian, old(bitfield1.storage[..]), val);
    }

    static method NewBitfield1(ihl: u8, version: u8, bigEndian: bool, debugAssertions: bool)
      returns (unit: BitfieldUnit)
      ensures fresh(unit) && fresh(unit.storage)
      ensures unit.bigEndian == bigEndian && unit.debugAssertions == debugAssertions
      ensures unit.storage[..] == [HeaderByte(bigEndian, ihl, version)]
    {
      var storage := new u8[1](_ => 0);
      unit := new BitfieldUnit(storage, bigEndian, debugAssertions);
      assert storage[..] == Zeros(1);
      var r := unit.Set(0, 4, ihl);
      var r' := unit.Set(4, 4, version);
      NewBitfieldByte(bigEndian, ihl, version);
    }
  }

  /** A header made by `new_bitfield_1` and changed by any calls of its setters. */
  method RunSetters(ihl: u8, version: u8, calls: seq<Setter>, bigEndian: bool, debugAssertions: bool)
    returns (header: Iphdr)
    ensures fresh(header) && header.Valid() && header.bitfield1.bigEndian == bigEndian
    ensures header.bitfield1.storage[..] == HeaderAfter(bigEndian, ihl, version, calls)
  {
    var unit := Iphdr.NewBitfield1(ihl, version, bigEndian, debugAssertions);
    header := new Iphdr(unit);
    ByteAfterRun(bigEndian, ihl, version, []);
    for i := 0 to |calls|
      invariant unit.storage[..] == HeaderAfter(bigEndian, ihl, version, calls[..i])
    {
      HeaderStep(bigEndian, ihl, version, calls, i);
      match calls[i]
      case IhlSetter(val) => var r := header.SetIhl(val);
      case VersionSetter(val) => var r := header.SetVersion(val);
    }
    assert calls[..|calls|] == calls;
  }

  /** Reading such a header gives the last value of each nibble, and its byte is the two side by side. */
  method SettersThenRead(ihl: u8, version: u8, calls: seq<Setter>, bigEndian: bool, debugAssertions: bool)
    returns (finalIhl: Outcome<u8>, finalVersion: Outcome<u8>, byte: u8)
    ensures finalIhl == Returned(LastIhl(calls, ihl) % 16)
    ensures finalVersion == Returned(LastVersion(calls, version) % 16)
    ensures byte == if bigEndian
                    then 16 * (LastIhl(calls, ihl) % 16) + LastVersion(calls, version) % 16
                    else 16 * (LastVersion(calls, version) % 16) + LastIhl(calls, ihl) % 16
  {
    var header := RunSetters(ihl, version, calls, bigEndian, debugAssertions);
    AccessorsAfterRun(bigEndian, ihl, version, calls);
    ByteAfterRun(bigEndian, ihl, version, calls);
    finalIhl := header.Ihl();
    finalVersion := header.Version();
    byte := header.bitfield1.storage[0];
    assert byte == header.bitfield1.storage[..][0];
  }

  /** The size and the alignment of a struct field. */
  datatype FieldType = FieldType(size: nat, align: nat)

  const U8 := FieldType(1, 1)
  const U16 := FieldType(2, 2)
  const U32 := FieldType(4, 4)

  /** The fields of the `#[repr(C)]` struct, in order. */
  const IPHDR: seq<FieldType> := [FieldType(0, 1), U8, U8, U16, U16, U16, U8, U8, U16, U32, U32]
  const FRAG_OFF := 5
  const PROTOCOL := 7
  const SADDR := 9
  const DADDR := 10

  /** Where field `k` starts: after the field before it, rounded up to its alignment. */
  function OffsetOf(fields: seq<FieldType>, k: nat): nat
    requires k < |fields| && forall i :: 0 <= i <= k ==> fields[i].align > 0
  {
    if k == 0 then 0
    else
      var end := OffsetOf(fields, k - 1) + fields[k - 1].size;
      end + (fields[k].align - end % fields[k].align) % fields[k].align
  }

  /** The struct has the layout of section 3.1 of RFC 791. */
  lemma IphdrOffsets()
    ensures OffsetOf(IPHDR, FRAG_OFF) == 6 && OffsetOf(IPHDR, PROTOCOL) == 9
    ensures OffsetOf(IPHDR, SADDR) == 12 && OffsetOf(IPHDR, DADDR) == 16
  {
    assert OffsetOf(IPHDR, 0) == 0;
    assert OffsetOf(IPHDR, 1) == 0;
    assert OffsetOf(IPHDR, 2) == 1;
    assert OffsetOf(IPHDR, 3) == 2;
    assert OffsetOf(IPHDR, 4) == 4;
    assert OffsetOf(IPHDR, 5) == 6;
    assert OffsetOf(IPHDR, 6) == 8;
    assert OffsetOf(IPHDR, 7) == 9;
    assert OffsetOf(IPHDR, 8) == 10;
    assert OffsetOf(IPHDR, 9) == 12;
    assert OffsetOf(IPHDR, 10) == 16;
  }
}
