/** Whole runs of calls on bitfield units: what the laws of field access say of a program that makes
    the calls, panics included. */
module UnitRuns {
  import opened MachineWords
  import opened Fields
  import opened BitfieldUnits
  import opened FieldRuns

  /** Whether the write does not panic on a buffer of `len` bytes. */
  predicate WriteDefined(debugAssertions: bool, len: nat, layout: seq<Field>, write: Write) {
    write.field < |layout| && Defined(debugAssertions, len, layout[write.field].off, layout[write.field].w)
  }

  ghost predicate AllDefined(debugAssertions: bool, len: nat, layout: seq<Field>, writes: seq<Write>) {
    forall i :: 0 <= i < |writes| ==> WriteDefined(debugAssertions, len, layout, writes[i])
  }

  lemma DefinedInRange(debugAssertions: bool, len: nat, layout: seq<Field>, writes: seq<Write>)
    requires AllDefined(debugAssertions, len, layout, writes)
    ensures WritesInRange(layout, writes, 8 * len)
  {
    forall i | 0 <= i < |writes| ensures FieldInRange(layout, writes[i].field, 8 * len) {
      assert WriteDefined(debugAssertions, len, layout, writes[i]);
    }
  }

  /** A run that panicked at write `i` has made the writes before it, and of that one what a panicking
      `set` leaves. */
  ghost predicate StoppedAt(bigEndian: bool, debugAssertions: bool, s: seq<u8>, t: seq<u8>,
                            layout: seq<Field>, writes: seq<Write>, i: nat) {
    && i < |writes| && writes[i].field < |layout|
    && AllDefined(debugAssertions, |s|, layout, writes[..i])
    && !WriteDefined(debugAssertions, |s|, layout, writes[i])
    && WritesInRange(layout, writes[..i], 8 * |s|)
    && var f := layout[writes[i].field];
       t == Leftover(bigEndian, debugAssertions, RunWrites(bigEndian, s, layout, writes[..i]), f.off, f.w, writes[i].val)
  }

  /** A run of `set` calls on a unit returns exactly when every call is in its exact domain. */
  method RunSets(unit: BitfieldUnit, layout: seq<Field>, writes: seq<Write>) returns (r: Outcome<()>)
    requires forall i :: 0 <= i < |writes| ==> writes[i].field < |layout|
    modifies unit.storage
    ensures r.Returned? <==> AllDefined(unit.debugAssertions, unit.storage.Length, layout, writes)
    ensures r.Returned? ==> WritesInRange(layout, writes, 8 * unit.storage.Length)
    ensures r.Returned? ==>
              unit.storage[..] == RunWrites(unit.bigEndian, old(unit.storage[..]), layout, writes)
    ensures r.Panicked? ==>
              exists i :: StoppedAt(unit.bigEndian, unit.debugAssertions, old(unit.storage[..]), unit.storage[..], layout, writes, i)
  {
    ghost var s := unit.storage[..];
    for i := 0 to |writes|
      invariant AllDefined(unit.debugAssertions, unit.storage.Length, layout, writes[..i])
      invariant WritesInRange(layout, writes[..i], 8 * |s|)
      invariant unit.storage[..] == RunWrites(unit.bigEndian, s, layout, writes[..i])
    {
      var write := writes[i];
      ghost var before := unit.storage[..];
      var call := unit.Set(layout[write.field].off, layout[write.field].w, write.val);
      if call.Panicked? {
        assert !WriteDefined(unit.debugAssertions, |s|, layout, writes[i]);
        assert StoppedAt(unit.bigEndian, unit.debugAssertions, s, unit.storage[..], layout, writes, i);
        return Panicked;
      }
      RunStep(unit.bigEndian, unit.debugAssertions, s, layout, writes, i);
    }
    assert writes[..|writes|] == writes;
    return Returned(());
  }

  lemma RunStep(bigEndian: bool, debugAssertions: bool, s: seq<u8>, layout: seq<Field>, writes: seq<Write>, i: nat)
    requires i < |writes| && AllDefined(debugAssertions, |s|, layout, writes[..i])
    requires WriteDefined(debugAssertions, |s|, layout, writes[i])
    ensures AllDefined(debugAssertions, |s|, layout, writes[..i + 1])
    ensures WritesInRange(layout, writes[..i], 8 * |s|) && WritesInRange(layout, writes[..i + 1], 8 * |s|)
    ensures RunWrites(bigEndian, s, layout, writes[..i + 1])
         == SetField(bigEndian, RunWrites(bigEndian, s, layout, writes[..i]),
                     layout[writes[i].field].off, layout[writes[i].field].w, writes[i].val)
  {
    assert writes[..i + 1] == writes[..i] + [writes[i]];
    assert writes[..i + 1][..i] == writes[..i];
    DefinedInRange(debugAssertions, |s|, layout, writes[..i]);
    DefinedInRange(debugAssertions, |s|, layout, writes[..i + 1]);
  }

  /** A unit is a map from disjoint fields to values: after any run of `set` calls, `get` returns what
      was last written to the field, modulo `2^w`, or what the field held before the run. */
  method SetsThenGet(unit: BitfieldUnit, layout: seq<Field>, writes: seq<Write>, k: nat) returns (r: Outcome<u64>)
    requires PairwiseDisjoint(layout) && k < |layout|
    requires forall i :: 0 <= i < |writes| ==> writes[i].field < |layout|
    modifies unit.storage
    ensures r.Returned?
       <==> && AllDefined(unit.debugAssertions, unit.storage.Length, layout, writes)
            && Defined(unit.debugAssertions, unit.storage.Length, layout[k].off, layout[k].w)
    ensures r.Returned? ==> FieldInRange(layout, k, 8 * unit.storage.Length)
    ensures r.Returned? ==> r.value == Held(unit.bigEndian, old(unit.storage[..]), layout, writes, k)
  {
    ghost var s := unit.storage[..];
    var run := RunSets(unit, layout, writes);
    if run.Panicked? {
      return Panicked;
    }
    r := unit.Get(layout[k].off, layout[k].w);
    if r.Returned? {
      RunRefinesMap(unit.bigEndian, s, layout, writes, k);
    }
  }

  /** Whether reading and writing field `i` of consecutive ones does not panic. */
  predicate PieceDefined(debugAssertions: bool, len: nat, widths: seq<u8>, i: nat)
    requires i < |widths|
  {
    Defined(debugAssertions, len, Sum(widths[..i]), widths[i])
  }

  ghost predicate CopyDefined(debugAssertions: bool, len: nat, widths: seq<u8>) {
    PiecesDefined(debugAssertions, len, widths, |widths|)
  }

  ghost predicate PiecesDefined(debugAssertions: bool, len: nat, widths: seq<u8>, n: nat)
    requires n <= |widths|
  {
    forall i :: 0 <= i < n ==> PieceDefined(debugAssertions, len, widths, i)
  }

  lemma OneMorePiece(debugAssertions: bool, len: nat, widths: seq<u8>, n: nat)
    requires n < |widths| && PiecesDefined(debugAssertions, len, widths, n)
    requires PieceDefined(debugAssertions, len, widths, n)
    ensures PiecesDefined(debugAssertions, len, widths, n + 1)
  {}

  lemma {:induction false} SumOfPrefix(widths: seq<u8>, i: nat)
    requires i < |widths|
    ensures Sum(widths[..i]) + widths[i] <= Sum(widths)
  {
    var n := |widths| - 1;
    if i < n {
      assert widths[..n][..i] == widths[..i];
      SumOfPrefix(widths[..n], i);
    }
  }

  /** Fields of 1 to 64 bits that fit into the buffer can be copied in every build. */
  lemma FieldsCopy(debugAssertions: bool, len: nat, widths: seq<u8>)
    requires Sum(widths) <= 8 * len
    requires forall i :: 0 <= i < |widths| ==> 1 <= widths[i] <= 64
    ensures CopyDefined(debugAssertions, len, widths)
  {
    forall i | 0 <= i < |widths| ensures PieceDefined(debugAssertions, len, widths, i) {
      SumOfPrefix(widths, i);
    }
  }

  /** Reads consecutive fields from one unit with `get` and writes them to another with `set`. With
      fields of 1 to 64 bits that cover the buffer the copy returns, in every build, and is exact. */
  method CopyUnit(src: BitfieldUnit, dst: BitfieldUnit, widths: seq<u8>) returns (r: Outcome<()>)
    requires src.storage != dst.storage && src.storage.Length == dst.storage.Length
    requires src.bigEndian == dst.bigEndian && src.debugAssertions == dst.debugAssertions
    modifies dst.storage
    ensures r.Returned? <==> CopyDefined(src.debugAssertions, src.storage.Length, widths)
    ensures r.Returned? ==> Sum(widths) <= 8 * src.storage.Length
    ensures r.Returned? ==>
              dst.storage[..] == CopyFields(src.bigEndian, src.storage[..], old(dst.storage[..]), widths)
    ensures Sum(widths) == 8 * src.storage.Length && (forall i :: 0 <= i < |widths| ==> 1 <= widths[i] <= 64) ==>
              r.Returned? && dst.storage[..] == src.storage[..]
  {
    ghost var len, s, t := src.storage.Length, src.storage[..], dst.storage[..];
    var off: nat := 0;
    for i := 0 to |widths|
      invariant off == Sum(widths[..i]) <= 8 * len
      invariant src.storage[..] == s
      invariant PiecesDefined(src.debugAssertions, len, widths, i)
      invariant dst.storage[..] == CopyFields(src.bigEndian, s, t, widths[..i])
    {
      var field := src.Get(off, widths[i]);
      if field.Panicked? {
        CopyStopped(src.debugAssertions, len, widths, i);
        return Panicked;
      }
      OneMorePiece(src.debugAssertions, len, widths, i);
      CopyStep(src.bigEndian, s, t, widths, i);
      var call := dst.Set(off, widths[i], field.value);
      off := off + widths[i];
    }
    assert widths[..|widths|] == widths;
    CopyFinished(src.bigEndian, s, t, widths);
    return Returned(());
  }

  lemma CopyStep(bigEndian: bool, s: seq<u8>, t: seq<u8>, widths: seq<u8>, i: nat)
    requires i < |widths| && |t| == |s| && Sum(widths[..i]) <= 8 * |s|
    requires InRange(8 * |s|, Sum(widths[..i]), widths[i])
    ensures Sum(widths[..i + 1]) == Sum(widths[..i]) + widths[i] <= 8 * |s|
    ensures CopyFields(bigEndian, s, t, widths[..i + 1])
         == SetField(bigEndian, CopyFields(bigEndian, s, t, widths[..i]), Sum(widths[..i]), widths[i],
                     GetField(bigEndian, s, Sum(widths[..i]), widths[i]))
  {
    assert widths[..i + 1][..i] == widths[..i];
  }

  lemma CopyStopped(debugAssertions: bool, len: nat, widths: seq<u8>, i: nat)
    requires i < |widths| && !PieceDefined(debugAssertions, len, widths, i)
    ensures !CopyDefined(debugAssertions, len, widths)
    ensures !(Sum(widths) == 8 * len && forall j :: 0 <= j < |widths| ==> 1 <= widths[j] <= 64)
  {
    if Sum(widths) == 8 * len && forall j :: 0 <= j < |widths| ==> 1 <= widths[j] <= 64 {
      FieldsCopy(debugAssertions, len, widths);
    }
  }

  lemma CopyFinished(bigEndian: bool, s: seq<u8>, t: seq<u8>, widths: seq<u8>)
    requires |t| == |s| && Sum(widths) <= 8 * |s|
    ensures Sum(widths) == 8 * |s| && (forall i :: 0 <= i < |widths| ==> widths[i] <= 64) ==>
              CopyFields(bigEndian, s, t, widths) == s
  {
    if Sum(widths) == 8 * |s| && forall i :: 0 <= i < |widths| ==> widths[i] <= 64 {
      RebuildRoundTrip(bigEndian, s, t, widths);
    }
  }
}
