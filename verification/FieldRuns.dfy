/** Whole runs of field accesses: a buffer with a layout of disjoint fields behaves as a map from
    fields to values, and copying a buffer field by field copies it. */
module FieldRuns {
  import opened BinaryNumbers
  import opened MachineWords
  import opened StorageBits
  import opened Fields
  import opened FieldLaws
  import opened Options

  /** A place in a buffer; widths are bytes. */
  datatype Field = Field(off: nat, w: u8)

  datatype Write = Write(field: nat, val: u64)

  ghost predicate PairwiseDisjoint(layout: seq<Field>) {
    forall j, k :: 0 <= j < k < |layout| ==>
      Disjoint(layout[j].off, layout[j].w, layout[k].off, layout[k].w)
  }

  predicate FieldInRange(layout: seq<Field>, k: nat, bitCount: nat) {
    k < |layout| && InRange(bitCount, layout[k].off, layout[k].w)
  }

  /** Every write goes to a field of the layout, inside the buffer. */
  ghost predicate WritesInRange(layout: seq<Field>, writes: seq<Write>, bitCount: nat) {
    forall i :: 0 <= i < |writes| ==> FieldInRange(layout, writes[i].field, bitCount)
  }

  /** The buffer after a run of writes. */
  function RunWrites(bigEndian: bool, s: seq<u8>, layout: seq<Field>, writes: seq<Write>): (t: seq<u8>)
    requires WritesInRange(layout, writes, 8 * |s|)
    ensures |t| == |s|
  {
    if writes == [] then s
    else
      var last := writes[|writes| - 1];
      var before := RunWrites(bigEndian, s, layout, writes[..|writes| - 1]);
      assert FieldInRange(layout, last.field, 8 * |s|);
      SetField(bigEndian, before, layout[last.field].off, layout[last.field].w, last.val)
  }

  predicate Covers(f: Field, x: nat) {
    f.off <= x < f.off + f.w
  }

  /** The last write to a field that covers bit `x`. */
  ghost function LastCover(layout: seq<Field>, writes: seq<Write>, x: nat): (r: Option<Write>)
    requires forall i :: 0 <= i < |writes| ==> writes[i].field < |layout|
    ensures r.Some? ==> r.value.field < |layout| && Covers(layout[r.value.field], x)
  {
    if writes == [] then None
    else
      var last := writes[|writes| - 1];
      if Covers(layout[last.field], x) then Some(last)
      else LastCover(layout, writes[..|writes| - 1], x)
  }

  /** Which digit of the word the field keeps in bit `x`. */
  function DigitAt(bigEndian: bool, f: Field, x: nat): nat
    requires Covers(f, x)
  {
    (if bigEndian then f.w - 1 - (x - f.off) else x - f.off) % 64
  }

  /** After any run of writes, to fields that may overlap and be of any width, each bit is the digit of
      the last write that covers it, and a bit never covered is as it was. */
  lemma {:induction false} BitAfterRun(bigEndian: bool, s: seq<u8>, layout: seq<Field>, writes: seq<Write>, x: nat)
    requires WritesInRange(layout, writes, 8 * |s|) && x < 8 * |s|
    ensures View(bigEndian, RunWrites(bigEndian, s, layout, writes))[x]
         == match LastCover(layout, writes, x)
            case Some(last) => Bit(last.val, DigitAt(bigEndian, layout[last.field], x))
            case None => View(bigEndian, s)[x]
  {
    if writes != [] {
      var last, earlier := writes[|writes| - 1], writes[..|writes| - 1];
      assert FieldInRange(layout, last.field, 8 * |s|);
      BitAfterRun(bigEndian, s, layout, earlier, x);
      BitAfterSet(bigEndian, RunWrites(bigEndian, s, layout, earlier), layout[last.field], last.val, x);
    }
  }

  lemma BitAfterSet(bigEndian: bool, s: seq<u8>, f: Field, val: nat, x: nat)
    requires InRange(8 * |s|, f.off, f.w) && x < 8 * |s|
    ensures View(bigEndian, SetField(bigEndian, s, f.off, f.w, val))[x]
         == if Covers(f, x) then Bit(val, DigitAt(bigEndian, f, x)) else View(bigEndian, s)[x]
  {
    ViewOfSetField(bigEndian, s, f.off, f.w, val);
    var g := WordBits(val, f.w);
    if Covers(f, x) {
      SpliceAt(View(bigEndian, s), f.off, Orient(bigEndian, g), x);
      assert Orient(bigEndian, g)[x - f.off] == g[if bigEndian then f.w - 1 - (x - f.off) else x - f.off];
    }
  }

  lemma SpliceAt(bits: seq<bool>, off: nat, f: seq<bool>, x: nat)
    requires InRange(|bits|, off, |f|) && off <= x < off + |f|
    ensures Splice(bits, off, f)[x] == f[x - off]
  {}

  /** The value last written to field `k`. */
  function LastWrite(writes: seq<Write>, k: nat): Option<u64> {
    if writes == [] then None
    else if writes[|writes| - 1].field == k then Some(writes[|writes| - 1].val)
    else LastWrite(writes[..|writes| - 1], k)
  }

  /** The value that a field should hold after a run. */
  function Held(bigEndian: bool, s: seq<u8>, layout: seq<Field>, writes: seq<Write>, k: nat): nat
    requires FieldInRange(layout, k, 8 * |s|)
  {
    match LastWrite(writes, k)
    case Some(val) => LowPart(val, layout[k].w)
    case None => GetField(bigEndian, s, layout[k].off, layout[k].w)
  }

  /** After any run of writes to disjoint fields each holds the value last written to it, modulo `2^w`,
      and a field never written still holds what it held at the start. */
  lemma {:induction false} RunRefinesMap(bigEndian: bool, s: seq<u8>, layout: seq<Field>, writes: seq<Write>, k: nat)
    requires PairwiseDisjoint(layout) && WritesInRange(layout, writes, 8 * |s|)
    requires FieldInRange(layout, k, 8 * |s|)
    ensures GetField(bigEndian, RunWrites(bigEndian, s, layout, writes), layout[k].off, layout[k].w)
         == Held(bigEndian, s, layout, writes, k)
  {
    if writes != [] {
      var last, earlier := writes[|writes| - 1], writes[..|writes| - 1];
      var before := RunWrites(bigEndian, s, layout, earlier);
      assert FieldInRange(layout, last.field, 8 * |s|);
      var written := layout[last.field];
      if last.field == k {
        GetAfterSet(bigEndian, before, written.off, written.w, last.val);
      } else {
        RunRefinesMap(bigEndian, s, layout, earlier, k);
        SetFrame(bigEndian, before, written.off, written.w, last.val, layout[k].off, layout[k].w);
      }
    }
  }

  function Zeros(n: nat): (s: seq<u8>)
    ensures |s| == n
  {
    seq(n, i => 0)
  }

  lemma GetOfZeros(bigEndian: bool, n: nat, off: nat, w: nat)
    requires InRange(8 * n, off, w)
    ensures GetField(bigEndian, Zeros(n), off, w) == 0
  {
    var g := Orient(bigEndian, Slice(View(bigEndian, Zeros(n)), off, w));
    forall i | 0 <= i < 8 * n ensures !View(bigEndian, Zeros(n))[i] {
      BitOfZero(BitIndex(bigEndian, i));
    }
    forall k | 0 <= k < 64 ensures !Wrap(g)[k] {}
    FromBitsPadded([], Wrap(g));
    assert [] + Wrap(g) == Wrap(g);
  }

  /** From zeroed storage a field never written reads as zero. */
  lemma RunFromZeros(bigEndian: bool, n: nat, layout: seq<Field>, writes: seq<Write>, k: nat)
    requires PairwiseDisjoint(layout) && WritesInRange(layout, writes, 8 * n)
    requires FieldInRange(layout, k, 8 * n)
    ensures GetField(bigEndian, RunWrites(bigEndian, Zeros(n), layout, writes), layout[k].off, layout[k].w)
         == match LastWrite(writes, k)
            case Some(val) => val % Pow2(layout[k].w)
            case None => 0
  {
    RunRefinesMap(bigEndian, Zeros(n), layout, writes, k);
    GetOfZeros(bigEndian, n, layout[k].off, layout[k].w);
  }

  lemma {:induction false} NeverCovered(layout: seq<Field>, writes: seq<Write>, x: nat)
    requires forall i :: 0 <= i < |writes| ==> writes[i].field < |layout| && !Covers(layout[writes[i].field], x)
    ensures LastCover(layout, writes, x) == None
  {
    if writes != [] {
      NeverCovered(layout, writes[..|writes| - 1], x);
    }
  }

  /** A run disturbs nothing outside the fields it writes. */
  lemma RunFrame(bigEndian: bool, s: seq<u8>, layout: seq<Field>, writes: seq<Write>, off: nat, w: nat)
    requires WritesInRange(layout, writes, 8 * |s|) && InRange(8 * |s|, off, w)
    requires forall i :: 0 <= i < |writes| ==>
               writes[i].field < |layout| && Disjoint(layout[writes[i].field].off, layout[writes[i].field].w, off, w)
    ensures Slice(View(bigEndian, RunWrites(bigEndian, s, layout, writes)), off, w) == Slice(View(bigEndian, s), off, w)
    ensures GetField(bigEndian, RunWrites(bigEndian, s, layout, writes), off, w) == GetField(bigEndian, s, off, w)
  {
    var t := RunWrites(bigEndian, s, layout, writes);
    forall x | off <= x < off + w ensures View(bigEndian, t)[x] == View(bigEndian, s)[x] {
      NeverCovered(layout, writes, x);
      BitAfterRun(bigEndian, s, layout, writes, x);
    }
    SameSlice(View(bigEndian, t), View(bigEndian, s), off, w);
  }

  lemma SameSlice(bits: seq<bool>, bits': seq<bool>, off: nat, w: nat)
    requires |bits| == |bits'| && InRange(|bits|, off, w)
    requires forall x :: off <= x < off + w ==> bits[x] == bits'[x]
    ensures Slice(bits, off, w) == Slice(bits', off, w)
  {}

  /** A field no wider than a word is determined by its value. */
  lemma FieldDeterminesBits(bigEndian: bool, s: seq<u8>, t: seq<u8>, off: nat, w: nat)
    requires |s| == |t| && InRange(8 * |s|, off, w) && w <= 64
    requires GetField(bigEndian, s, off, w) == GetField(bigEndian, t, off, w)
    ensures Slice(View(bigEndian, s), off, w) == Slice(View(bigEndian, t), off, w)
  {
    var f, f' := Slice(View(bigEndian, s), off, w), Slice(View(bigEndian, t), off, w);
    WordBitsOfWord(Orient(bigEndian, f));
    WordBitsOfWord(Orient(bigEndian, f'));
    OrientInvolutive(bigEndian, f);
    OrientInvolutive(bigEndian, f');
  }

  lemma SameBit(bigEndian: bool, s: seq<u8>, t: seq<u8>, off: nat, w: nat, x: nat)
    requires |s| == |t| && off <= x < off + w <= 8 * |s| && w <= 64
    requires GetField(bigEndian, s, off, w) == GetField(bigEndian, t, off, w)
    ensures View(bigEndian, s)[x] == View(bigEndian, t)[x]
  {
    FieldDeterminesBits(bigEndian, s, t, off, w);
    assert Slice(View(bigEndian, s), off, w)[x - off] == Slice(View(bigEndian, t), off, w)[x - off];
  }

  /** The map is all there is: two runs, in whatever order and number of writes, end in the same bytes
      exactly when they leave the same value in every field. */
  lemma RunsEqualExactly(bigEndian: bool, s: seq<u8>, layout: seq<Field>, writes: seq<Write>, writes': seq<Write>)
    requires PairwiseDisjoint(layout)
    requires WritesInRange(layout, writes, 8 * |s|) && WritesInRange(layout, writes', 8 * |s|)
    requires forall k :: 0 <= k < |layout| ==> FieldInRange(layout, k, 8 * |s|) && layout[k].w <= 64
    ensures RunWrites(bigEndian, s, layout, writes) == RunWrites(bigEndian, s, layout, writes')
       <==> forall k :: 0 <= k < |layout| ==>
              Held(bigEndian, s, layout, writes, k) == Held(bigEndian, s, layout, writes', k)
  {
    var t, t' := RunWrites(bigEndian, s, layout, writes), RunWrites(bigEndian, s, layout, writes');
    forall k | 0 <= k < |layout|
      ensures GetField(bigEndian, t, layout[k].off, layout[k].w) == Held(bigEndian, s, layout, writes, k)
      ensures GetField(bigEndian, t', layout[k].off, layout[k].w) == Held(bigEndian, s, layout, writes', k)
    {
      RunRefinesMap(bigEndian, s, layout, writes, k);
      RunRefinesMap(bigEndian, s, layout, writes', k);
    }
    if forall k :: 0 <= k < |layout| ==> Held(bigEndian, s, layout, writes, k) == Held(bigEndian, s, layout, writes', k) {
      forall x | 0 <= x < 8 * |s| ensures View(bigEndian, t)[x] == View(bigEndian, t')[x] {
        if k :| 0 <= k < |layout| && Covers(layout[k], x) {
          SameBit(bigEndian, t, t', layout[k].off, layout[k].w, x);
        } else {
          assert forall k :: 0 <= k < |layout| ==> !Covers(layout[k], x);
          NeverCovered(layout, writes, x);
          NeverCovered(layout, writes', x);
          BitAfterRun(bigEndian, s, layout, writes, x);
          BitAfterRun(bigEndian, s, layout, writes', x);
        }
      }
      assert View(bigEndian, t) == View(bigEndian, t');
      ViewInjective(bigEndian, t, t');
    }
  }

  function Sum(widths: seq<u8>): nat {
    if widths == [] then 0 else Sum(widths[..|widths| - 1]) + widths[|widths| - 1]
  }

  /** Copies consecutive fields of the given widths, from bit 0 on, from `src` to `dst`. */
  function CopyFields(bigEndian: bool, src: seq<u8>, dst: seq<u8>, widths: seq<u8>): (t: seq<u8>)
    requires |dst| == |src| && Sum(widths) <= 8 * |src|
    ensures |t| == |src|
  {
    if widths == [] then dst
    else
      var earlier, w := widths[..|widths| - 1], widths[|widths| - 1];
      var before := CopyFields(bigEndian, src, dst, earlier);
      SetField(bigEndian, before, Sum(earlier), w, GetField(bigEndian, src, Sum(earlier), w))
  }

  lemma CopyOneField(bigEndian: bool, src: seq<u8>, dst: seq<u8>, off: nat, w: nat, end: nat)
    requires |dst| == |src| && end == off + w <= 8 * |src| && w <= 64
    requires View(bigEndian, dst)[..off] == View(bigEndian, src)[..off]
    ensures View(bigEndian, SetField(bigEndian, dst, off, w, GetField(bigEndian, src, off, w)))[..end]
         == View(bigEndian, src)[..end]
  {
    var f := Slice(View(bigEndian, src), off, w);
    WordBitsOfWord(Orient(bigEndian, f));
    OrientInvolutive(bigEndian, f);
    ViewOfSetField(bigEndian, dst, off, w, GetField(bigEndian, src, off, w));
    SplicePrefix(View(bigEndian, src), View(bigEndian, dst), off, w);
  }

  lemma SplicePrefix(from: seq<bool>, to: seq<bool>, off: nat, w: nat)
    requires |from| == |to| && off + w <= |from| && from[..off] == to[..off]
    ensures Splice(to, off, Slice(from, off, w))[..off + w] == from[..off + w]
  {
    forall x | 0 <= x < off ensures to[x] == from[x] {
      assert to[..off][x] == from[..off][x];
    }
  }

  /** The part copied so far is the same in both buffers. */
  lemma {:induction false} CopyPrefix(bigEndian: bool, src: seq<u8>, dst: seq<u8>, widths: seq<u8>)
    requires |dst| == |src| && Sum(widths) <= 8 * |src|
    requires forall i :: 0 <= i < |widths| ==> widths[i] <= 64
    ensures View(bigEndian, CopyFields(bigEndian, src, dst, widths))[..Sum(widths)]
         == View(bigEndian, src)[..Sum(widths)]
  {
    if widths != [] {
      var earlier, w := widths[..|widths| - 1], widths[|widths| - 1];
      CopyPrefix(bigEndian, src, dst, earlier);
      CopyOneField(bigEndian, src, CopyFields(bigEndian, src, dst, earlier), Sum(earlier), w, Sum(widths));
    }
  }

  lemma SameView(bigEndian: bool, s: seq<u8>, t: seq<u8>)
    requires |s| == |t|
    requires View(bigEndian, s)[..8 * |s|] == View(bigEndian, t)[..8 * |s|]
    ensures s == t
  {
    assert View(bigEndian, s)[..8 * |s|] == View(bigEndian, s);
    assert View(bigEndian, t)[..8 * |s|] == View(bigEndian, t);
    ViewInjective(bigEndian, s, t);
  }

  /** Reading every field of a buffer and writing it into other storage rebuilds the buffer byte for
      byte, however the bits are cut into fields of at most 64. */
  lemma RebuildRoundTrip(bigEndian: bool, src: seq<u8>, dst: seq<u8>, widths: seq<u8>)
    requires |dst| == |src| && Sum(widths) == 8 * |src|
    requires forall i :: 0 <= i < |widths| ==> widths[i] <= 64
    ensures CopyFields(bigEndian, src, dst, widths) == src
  {
    CopyPrefix(bigEndian, src, dst, widths);
    SameView(bigEndian, CopyFields(bigEndian, src, dst, widths), src);
  }
}
