/** The bitfield storage unit that bindgen generates: a byte buffer whose bits are read and written
    one at a time, with the bit numbering of the target.

    A Rust panic is an outcome here, so the operations take every argument that their Rust types
    admit. `debugAssertions` says which build is meant: it turns the `debug_assert!` lines on. */
module BitfieldUnits {
  import opened BinaryNumbers
  import opened MachineWords
  import opened StorageBits
  import opened Fields

  datatype Outcome<T> = Returned(value: T) | Panicked

  /** The bit offset, inside its field, of word digit `i`; it is its own inverse. */
  function Position(bigEndian: bool, w: nat, i: nat): (p: nat)
    requires i < w
    ensures p < w
  {
    if bigEndian then w - 1 - i else i
  }

  /** The three `debug_assert!` lines that `get` and `set` share. */
  predicate DebugChecks(len: nat, off: nat, w: nat) {
    w <= 64 && off / 8 < len && (off + w) / 8 <= len
  }

  /** Exactly when `get` and `set` return instead of panicking. */
  predicate Defined(debugAssertions: bool, len: nat, off: nat, w: nat) {
    InRange(8 * len, off, w) && (debugAssertions ==> w <= 64 && off / 8 < len)
  }

  /** The assertions round the end of the field down to a byte. So they admit everything that is in the
      exact domain, and besides that exactly the fields that end in the first 7 bits past the buffer. */
  lemma ChecksMissExactly(len: nat, off: nat, w: nat)
    ensures Defined(true, len, off, w) ==> DebugChecks(len, off, w)
    ensures DebugChecks(len, off, w) && !Defined(true, len, off, w)
       <==> 0 < w <= 64 && off < 8 * len < off + w < 8 * len + 8
  {
    assert (off + w) / 8 <= len <==> off + w < 8 * len + 8;
    assert off / 8 < len <==> off < 8 * len;
  }

  /** What a `set` that panics leaves in the buffer. A failed `debug_assert!` comes before any write.
      A panic in the loop comes after the writes before it: none on a big-endian target, which starts
      at the far end of the field, and all the bits that exist on a little-endian one. */
  function Leftover(bigEndian: bool, debugAssertions: bool, s: seq<u8>, off: nat, w: nat, val: nat): seq<u8> {
    if bigEndian || off >= 8 * |s| || (debugAssertions && !DebugChecks(|s|, off, w)) then s
    else SetField(false, s, off, 8 * |s| - off, val)
  }

  /** Whether the first `i` rounds of a loop stay inside a buffer of `bitCount` bits. */
  predicate Reached(bigEndian: bool, bitCount: nat, off: nat, w: nat, i: nat) {
    i <= w && (i == 0 || off + (if bigEndian then w else i) <= bitCount)
  }

  /** The word that `get` has built from the first `i` bits of a field. */
  ghost function Gathered(bigEndian: bool, bits: seq<bool>, off: nat, w: nat, i: nat): u64
    requires i <= w && InRange(|bits|, off, i)
  {
    if i == 0 then 0
    else
      var before := Gathered(bigEndian, bits, off, w, i - 1);
      var p := Position(bigEndian, w, i - 1);
      SetWordMaskBound(before, p);
      if bits[off + i - 1] then Or(before, Shift64(p)) else before
  }

  lemma GatherStep(bigEndian: bool, bits: seq<bool>, off: nat, w: nat, i: nat, val: u64, val': u64)
    requires i < w && off + i < |bits|
    requires val == Gathered(bigEndian, bits, off, w, i)
    requires val' == if bits[off + i] then Or(val, Shift64(Position(bigEndian, w, i))) else val
    ensures val' == Gathered(bigEndian, bits, off, w, i + 1)
  {}

  /** The bits after `set` has written the first `i` digits of `val`. */
  ghost function Written(bigEndian: bool, bits: seq<bool>, off: nat, w: nat, val: nat, i: nat): (r: seq<bool>)
    requires Reached(bigEndian, |bits|, off, w, i)
    ensures |r| == |bits|
  {
    if i == 0 then bits
    else
      var before := Written(bigEndian, bits, off, w, val, i - 1);
      before[off + Position(bigEndian, w, i - 1) := Bit(val, (i - 1) % 64)]
  }

  lemma WriteStep(bigEndian: bool, bits: seq<bool>, off: nat, w: nat, val: nat, i: nat, r: seq<bool>, r': seq<bool>)
    requires i < w && off + Position(bigEndian, w, i) < |bits| && Reached(bigEndian, |bits|, off, w, i)
    requires r == Written(bigEndian, bits, off, w, val, i)
    requires r' == r[off + Position(bigEndian, w, i) := Bit(val, i % 64)]
    ensures Reached(bigEndian, |bits|, off, w, i + 1)
    ensures r' == Written(bigEndian, bits, off, w, val, i + 1)
  {}

  class BitfieldUnit {
    const bigEndian: bool
    const debugAssertions: bool
    const storage: array<u8>

    constructor (storage: array<u8>, bigEndian: bool, debugAssertions: bool)
      ensures this.storage == storage && this.bigEndian == bigEndian
      ensures this.debugAssertions == debugAssertions
    {
      this.storage := storage;
      this.bigEndian := bigEndian;
      this.debugAssertions := debugAssertions;
    }

    function GetBit(index: nat): (r: Outcome<bool>)
      reads storage
      ensures r == if index < 8 * storage.Length then Returned(View(bigEndian, storage[..])[index]) else Panicked
    {
      var byteIndex := index / 8;
      if byteIndex >= storage.Length then Panicked
      else
        var byte := storage[byteIndex];
        var bitIndex := if bigEndian then 7 - index % 8 else index % 8;
        var mask := Shift8(bitIndex);
        MaskTest(byte, bitIndex);
        Returned(And(byte, mask) == mask)
    }

    method SetBit(index: nat, val: bool) returns (r: Outcome<()>)
      modifies storage
      ensures r.Panicked? <==> index >= 8 * storage.Length
      ensures r.Panicked? ==> storage[..] == old(storage[..])
      ensures r.Returned? ==>
                View(bigEndian, storage[..]) == old(View(bigEndian, storage[..]))[index := val]
    {
      var byteIndex := index / 8;
      if byteIndex >= storage.Length {
        return Panicked;
      }
      var byte := storage[byteIndex];
      var bitIndex := if bigEndian then 7 - index % 8 else index % 8;
      var mask := Shift8(bitIndex);
      forall j | 0 <= j < 8
        ensures Bit(Or(byte, mask), j) == (j == bitIndex || Bit(byte, j))
        ensures Bit(And(byte, Not8(mask)), j) == (j != bitIndex && Bit(byte, j))
      {
        SetMask(byte, bitIndex, j);
        ClearMask(byte, bitIndex, j);
      }
      SetMask(byte, bitIndex, 0);
      ClearMask(byte, bitIndex, 0);
      if val {
        storage[byteIndex] := Or(byte, mask);
      } else {
        storage[byteIndex] := And(byte, Not8(mask));
      }
      ViewOfByteUpdate(bigEndian, old(storage[..]), index, storage[byteIndex], val);
      assert storage[..] == old(storage[..])[byteIndex := storage[byteIndex]];
      return Returned(());
    }

    method Get(bitOffset: nat, bitWidth: u8) returns (r: Outcome<u64>)
      ensures r.Returned? <==> Defined(debugAssertions, storage.Length, bitOffset, bitWidth)
      ensures r.Returned? ==> r.value == GetField(bigEndian, storage[..], bitOffset, bitWidth)
    {
      if debugAssertions && !DebugChecks(storage.Length, bitOffset, bitWidth) {
        return Panicked;
      }
      ghost var bits := View(bigEndian, storage[..]);
      var val: u64 := 0;
      for i := 0 to bitWidth
        invariant InRange(|bits|, bitOffset, i)
        invariant val == Gathered(bigEndian, bits, bitOffset, bitWidth, i)
      {
        var bit := GetBit(i + bitOffset);
        if bit.Panicked? {
          return Panicked;
        }
        assert bit.value == bits[bitOffset + i];
        ghost var before := val;
        if bit.value {
          var index := if bigEndian then bitWidth - 1 - i else i;
          assert debugAssertions ==> index < 64;
          SetWordMaskBound(val, index);
          val := Or(val, Shift64(index));
        }
        GatherStep(bigEndian, bits, bitOffset, bitWidth, i, before, val);
      }
      GetFinished(bigEndian, storage[..], bitOffset, bitWidth);
      return Returned(val);
    }

    method Set(bitOffset: nat, bitWidth: u8, val: u64) returns (r: Outcome<()>)
      modifies storage
      ensures r.Returned? <==> Defined(debugAssertions, storage.Length, bitOffset, bitWidth)
      ensures r.Returned? ==>
                storage[..] == SetField(bigEndian, old(storage[..]), bitOffset, bitWidth, val)
      ensures r.Panicked? ==>
                storage[..] == Leftover(bigEndian, debugAssertions, old(storage[..]), bitOffset, bitWidth, val)
    {
      if debugAssertions && !DebugChecks(storage.Length, bitOffset, bitWidth) {
        ChecksRefuse(bigEndian, storage[..], bitOffset, bitWidth, val);
        return Panicked;
      }
      ghost var bits := View(bigEndian, storage[..]);
      for i := 0 to bitWidth
        invariant Reached(bigEndian, |bits|, bitOffset, bitWidth, i)
        invariant View(bigEndian, storage[..]) == Written(bigEndian, bits, bitOffset, bitWidth, val, i)
      {
        var mask := Shift64(i);
        var valBitIsSet := And(val, mask) == mask;
        assert valBitIsSet == Bit(val, i % 64) by { MaskTest(val, i % 64); }
        var index := if bigEndian then bitWidth - 1 - i else i;
        ghost var before := View(bigEndian, storage[..]);
        var bit := SetBit(index + bitOffset, valBitIsSet);
        if bit.Panicked? {
          SetStopped(bigEndian, debugAssertions, old(storage[..]), storage[..], bitOffset, bitWidth, val, i);
          return Panicked;
        }
        WriteStep(bigEndian, bits, bitOffset, bitWidth, val, i, before, View(bigEndian, storage[..]));
      }
      SetFinished(bigEndian, old(storage[..]), storage[..], bitOffset, bitWidth, val);
      return Returned(());
    }
  }

  /** Digit `k` of the word under construction: some bit seen so far has its position wrap to `k`. */
  lemma {:induction false} GatheredBits(bigEndian: bool, bits: seq<bool>, off: nat, w: nat, i: nat, k: nat)
    requires i <= w && InRange(|bits|, off, i) && k < 64
    ensures Bit(Gathered(bigEndian, bits, off, w, i), k)
       <==> exists j :: 0 <= j < i && Position(bigEndian, w, j) % 64 == k && bits[off + j]
  {
    if i == 0 {
      BitOfZero(k);
    } else {
      GatheredBits(bigEndian, bits, off, w, i - 1, k);
      SetWordMask(Gathered(bigEndian, bits, off, w, i - 1), Position(bigEndian, w, i - 1), k);
      assert bits[off + i - 1] && Position(bigEndian, w, i - 1) % 64 == k ==>
          exists j :: 0 <= j < i && Position(bigEndian, w, j) % 64 == k && bits[off + j];
    }
  }

  lemma GatheredWrap(bigEndian: bool, bits: seq<bool>, off: nat, w: nat, k: nat)
    requires InRange(|bits|, off, w) && k < 64
    ensures Bit(Gathered(bigEndian, bits, off, w, w), k)
         == Wrap(Orient(bigEndian, Slice(bits, off, w)))[k]
  {
    GatheredBits(bigEndian, bits, off, w, w, k);
    var g := Orient(bigEndian, Slice(bits, off, w));
    forall j | 0 <= j < w ensures bits[off + j] == g[Position(bigEndian, w, j)] {}
    if Wrap(g)[k] {
      var p :| 0 <= p < w && p % 64 == k && g[p];
      var j := Position(bigEndian, w, p);
      assert Position(bigEndian, w, j) == p;
    }
  }

  /** The word gathered from all the bits of a field is the field. */
  lemma GetFinished(bigEndian: bool, s: seq<u8>, off: nat, w: nat)
    requires InRange(8 * |s|, off, w)
    ensures Gathered(bigEndian, View(bigEndian, s), off, w, w) == GetField(bigEndian, s, off, w)
  {
    var val := Gathered(bigEndian, View(bigEndian, s), off, w, w);
    var r := Wrap(Orient(bigEndian, Slice(View(bigEndian, s), off, w)));
    forall k | 0 <= k < 64 ensures Bits(val, 64)[k] == r[k] {
      BitsAt(val, 64, k);
      GatheredWrap(bigEndian, View(bigEndian, s), off, w, k);
    }
    assert Bits(val, 64) == r;
    FromBitsOfBits(val, 64);
    Pow2Word();
    DivModUnique(val, Pow2(64), 0);
  }

  lemma {:induction false} WrittenBits(bigEndian: bool, bits: seq<bool>, off: nat, w: nat, val: nat, i: nat, x: nat)
    requires Reached(bigEndian, |bits|, off, w, i) && x < |bits|
    ensures Written(bigEndian, bits, off, w, val, i)[x]
         == if off <= x < off + w && Position(bigEndian, w, x - off) < i
            then Bit(val, Position(bigEndian, w, x - off) % 64)
            else bits[x]
  {
    if i != 0 {
      WrittenBits(bigEndian, bits, off, w, val, i - 1, x);
    }
  }

  lemma SetFinished(bigEndian: bool, s: seq<u8>, t: seq<u8>, off: nat, w: nat, val: nat)
    requires Reached(bigEndian, 8 * |s|, off, w, w)
    requires View(bigEndian, t) == Written(bigEndian, View(bigEndian, s), off, w, val, w)
    ensures t == SetField(bigEndian, s, off, w, val)
  {
    var bits := View(bigEndian, s);
    var expected := Splice(bits, off, Orient(bigEndian, WordBits(val, w)));
    forall x | 0 <= x < |bits| ensures Written(bigEndian, bits, off, w, val, w)[x] == expected[x] {
      WrittenBits(bigEndian, bits, off, w, val, w, x);
    }
    assert View(bigEndian, t) == expected;
    ViewOfSetField(bigEndian, s, off, w, val);
    ViewInjective(bigEndian, t, SetField(bigEndian, s, off, w, val));
  }

  /** A `set` that a debug assertion refuses is outside the exact domain, and leaves the buffer as it was. */
  lemma ChecksRefuse(bigEndian: bool, s: seq<u8>, off: nat, w: nat, val: nat)
    requires !DebugChecks(|s|, off, w)
    ensures !Defined(true, |s|, off, w) && Leftover(bigEndian, true, s, off, w, val) == s
  {}

  /** The state in which the loop of `set` runs off the end of the buffer at digit `i`. */
  lemma SetStopped(bigEndian: bool, debugAssertions: bool, s: seq<u8>, t: seq<u8>, off: nat, w: nat, val: nat, i: nat)
    requires i < w && off + Position(bigEndian, w, i) >= 8 * |s|
    requires Reached(bigEndian, 8 * |s|, off, w, i)
    requires View(bigEndian, t) == Written(bigEndian, View(bigEndian, s), off, w, val, i)
    requires debugAssertions ==> DebugChecks(|s|, off, w)
    ensures !Defined(debugAssertions, |s|, off, w)
    ensures t == Leftover(bigEndian, debugAssertions, s, off, w, val)
  {
    if bigEndian || off >= 8 * |s| {
      ViewInjective(bigEndian, t, s);
    } else {
      WrittenNarrower(View(false, s), off, w, i, val, i);
      SetFinished(false, s, t, off, i, val);
    }
  }

  lemma {:induction false} WrittenNarrower(bits: seq<bool>, off: nat, w: nat, w': nat, val: nat, i: nat)
    requires Reached(false, |bits|, off, w, i) && i <= w'
    ensures Written(false, bits, off, w, val, i) == Written(false, bits, off, w', val, i)
  {
    if i != 0 {
      WrittenNarrower(bits, off, w, w', val, i - 1);
    }
  }
}
