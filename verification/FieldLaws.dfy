/** Laws of bitfield access that hold for every buffer, offset and width, on both kinds of target. */
module FieldLaws {
  import opened BinaryNumbers
  import opened MachineWords
  import opened StorageBits
  import opened Fields

  predicate Disjoint(off: nat, w: nat, off': nat, w': nat) {
    w == 0 || w' == 0 || off + w <= off' || off' + w' <= off
  }

  lemma SliceOfSplice(bits: seq<bool>, off: nat, f: seq<bool>)
    requires InRange(|bits|, off, |f|)
    ensures Slice(Splice(bits, off, f), off, |f|) == f
  {}

  lemma SliceBesideSplice(bits: seq<bool>, off: nat, f: seq<bool>, off': nat, w': nat)
    requires InRange(|bits|, off, |f|) && InRange(|bits|, off', w')
    requires Disjoint(off, |f|, off', w')
    ensures Slice(Splice(bits, off, f), off', w') == Slice(bits, off', w')
  {}

  lemma SpliceOfSlice(bits: seq<bool>, off: nat, w: nat)
    requires InRange(|bits|, off, w)
    ensures Splice(bits, off, Slice(bits, off, w)) == bits
  {}

  lemma SliceConcat(bits: seq<bool>, off: nat, w: nat, w': nat)
    requires off + w + w' <= |bits|
    ensures Slice(bits, off, w + w') == Slice(bits, off, w) + Slice(bits, off + w, w')
  {}

  lemma SpliceConcat(bits: seq<bool>, off: nat, w: nat, w': nat, f: seq<bool>, f': seq<bool>)
    requires |f| == w && |f'| == w' && off + w + w' <= |bits|
    ensures Splice(bits, off, f + f') == Splice(Splice(bits, off, f), off + w, f')
  {
    var r, r' := Splice(bits, off, f + f'), Splice(Splice(bits, off, f), off + w, f');
    forall x | 0 <= x < |bits| ensures r[x] == r'[x] {
      if off <= x < off + w {
        assert r[x] == f[x - off];
      }
    }
  }

  lemma SpliceCommutes(bits: seq<bool>, off: nat, f: seq<bool>, off': nat, f': seq<bool>)
    requires InRange(|bits|, off, |f|) && InRange(|bits|, off', |f'|) && Disjoint(off, |f|, off', |f'|)
    ensures Splice(Splice(bits, off, f), off', f') == Splice(Splice(bits, off', f'), off, f)
  {
    var r, r' := Splice(Splice(bits, off, f), off', f'), Splice(Splice(bits, off', f'), off, f);
    forall x | 0 <= x < |bits| ensures r[x] == r'[x] {}
  }

  lemma SliceReversed(bits: seq<bool>, off: nat, w: nat)
    requires off + w <= |bits|
    ensures Reverse(Slice(bits, off, w)) == Slice(Reverse(bits), |bits| - off - w, w)
  {
    var f, f' := Slice(bits, off, w), Slice(Reverse(bits), |bits| - off - w, w);
    forall x | 0 <= x < w ensures Reverse(f)[x] == f'[x] {
      assert f[w - 1 - x] == bits[off + w - 1 - x];
    }
  }

  lemma SpliceReversed(bits: seq<bool>, off: nat, w: nat, f: seq<bool>)
    requires |f| == w && off + w <= |bits|
    ensures Reverse(Splice(bits, off, f)) == Splice(Reverse(bits), |bits| - off - w, Reverse(f))
  {
    var n := |bits|;
    var r, r' := Reverse(Splice(bits, off, f)), Splice(Reverse(bits), n - off - w, Reverse(f));
    forall x | 0 <= x < n ensures r[x] == r'[x] {
      assert r[x] == Splice(bits, off, f)[n - 1 - x];
    }
  }

  lemma ReverseConcat(f: seq<bool>, f': seq<bool>)
    ensures Reverse(f + f') == Reverse(f') + Reverse(f)
  {
    forall x | 0 <= x < |f| + |f'| ensures Reverse(f + f')[x] == (Reverse(f') + Reverse(f))[x] {
      assert Reverse(f + f')[x] == (f + f')[|f| + |f'| - 1 - x];
    }
  }

  /** The digits written for `val` make up `val` modulo `2^w`, also when the field is wider than the
      word and its digits repeat. */
  lemma WordOfWordBits(val: u64, w: nat)
    ensures WordOf(WordBits(val, w)) == val % Pow2(w)
  {
    if w <= 64 {
      WordOfNarrow(WordBits(val, w));
      WordBitsNarrow(val, w);
      FromBitsOfBits(val, w);
    } else {
      WrapOfWideBits(val, w);
      FromBitsOfBits(val, 64);
      Pow2Word();
      Pow2Monotonic(64, w);
      DivModUnique(val, Pow2(64), 0);
      DivModUnique(val, Pow2(w), 0);
    }
  }

  lemma WrapOfWideBits(val: u64, w: nat)
    requires w > 64
    ensures Wrap(WordBits(val, w)) == Bits(val, 64)
  {
    forall k | 0 <= k < 64 ensures Wrap(WordBits(val, w))[k] == Bits(val, 64)[k] {
      BitsAt(val, 64, k);
      assert k % 64 == k && WordBits(val, w)[k] == Bit(val, k);
    }
  }

  lemma WordBitsOfWord(g: seq<bool>)
    requires |g| <= 64
    ensures WordBits(WordOf(g), |g|) == g
  {
    WordOfNarrow(g);
    WordBitsNarrow(FromBits(g), |g|);
    BitsOfFromBits(g);
  }

  /** Reading a field just written gives the value modulo `2^w`. */
  lemma GetAfterSet(bigEndian: bool, s: seq<u8>, off: nat, w: nat, val: u64)
    requires InRange(8 * |s|, off, w)
    ensures GetField(bigEndian, SetField(bigEndian, s, off, w, val), off, w) == val % Pow2(w)
  {
    var f := Orient(bigEndian, WordBits(val, w));
    ViewOfSetField(bigEndian, s, off, w, val);
    SliceOfSplice(View(bigEndian, s), off, f);
    OrientInvolutive(bigEndian, WordBits(val, w));
    WordOfWordBits(val, w);
  }

  /** Writing back what was read leaves every byte as it was. */
  lemma SetAfterGet(bigEndian: bool, s: seq<u8>, off: nat, w: nat)
    requires InRange(8 * |s|, off, w) && w <= 64
    ensures SetField(bigEndian, s, off, w, GetField(bigEndian, s, off, w)) == s
  {
    var f := Slice(View(bigEndian, s), off, w);
    WordBitsOfWord(Orient(bigEndian, f));
    OrientInvolutive(bigEndian, f);
    SpliceOfSlice(View(bigEndian, s), off, w);
    PackOfView(bigEndian, s);
  }

  /** A wider field loses data on the way through a 64-bit word: a lone set bit at its low end comes
      back a second time 64 digits up. */
  lemma WideWriteBackFails(bigEndian: bool, n: nat, off: nat, w: nat) returns (s: seq<u8>)
    requires InRange(8 * n, off, w) && w > 64
    ensures |s| == n && SetField(bigEndian, s, off, w, GetField(bigEndian, s, off, w)) != s
  {
    var lone := off + (if bigEndian then w - 1 else 0);
    var echo := off + (if bigEndian then w - 65 else 64);
    var bits := seq(8 * n, x => x == lone);
    s := Pack(bigEndian, bits);
    ViewOfPack(bigEndian, bits);
    var g := Orient(bigEndian, Slice(bits, off, w));
    assert g[0];
    assert 0 % 64 == 0 && Wrap(g)[0];
    var val := GetField(bigEndian, s, off, w);
    BitsOfFromBits(Wrap(g));
    BitsAt(val, 64, 0);
    assert WordBits(val, w)[64] == Bit(val, 0);
    ViewOfSetField(bigEndian, s, off, w, val);
    assert View(bigEndian, SetField(bigEndian, s, off, w, val))[echo];
    assert !bits[echo];
  }

  predicate WriteBackKeeps(bigEndian: bool, s: seq<u8>, off: nat, w: nat)
    requires InRange(8 * |s|, off, w)
  {
    SetField(bigEndian, s, off, w, GetField(bigEndian, s, off, w)) == s
  }

  /** Writing back is harmless on every buffer exactly at the widths that the `bit_width <= 64`
      assertion admits. */
  lemma WriteBackExact(bigEndian: bool, n: nat, off: nat, w: nat)
    requires InRange(8 * n, off, w)
    ensures (forall s: seq<u8> :: |s| == n ==> WriteBackKeeps(bigEndian, s, off, w)) <==> w <= 64
  {
    if w <= 64 {
      forall s: seq<u8> | |s| == n ensures WriteBackKeeps(bigEndian, s, off, w) {
        SetAfterGet(bigEndian, s, off, w);
      }
    } else {
      var s := WideWriteBackFails(bigEndian, n, off, w);
      assert !WriteBackKeeps(bigEndian, s, off, w);
    }
  }

  /** Of two writes to the same field the second alone counts. */
  lemma SetAfterSet(bigEndian: bool, s: seq<u8>, off: nat, w: nat, val: nat, val': nat)
    requires InRange(8 * |s|, off, w)
    ensures SetField(bigEndian, SetField(bigEndian, s, off, w, val), off, w, val')
         == SetField(bigEndian, s, off, w, val')
  {
    var f, f' := Orient(bigEndian, WordBits(val, w)), Orient(bigEndian, WordBits(val', w));
    ViewOfSetField(bigEndian, s, off, w, val);
    assert Splice(Splice(View(bigEndian, s), off, f), off, f') == Splice(View(bigEndian, s), off, f');
  }

  /** A write does not disturb any field beside it, even in a shared byte. */
  lemma SetFrame(bigEndian: bool, s: seq<u8>, off: nat, w: nat, val: nat, off': nat, w': nat)
    requires InRange(8 * |s|, off, w) && InRange(8 * |s|, off', w') && Disjoint(off, w, off', w')
    ensures GetField(bigEndian, SetField(bigEndian, s, off, w, val), off', w')
         == GetField(bigEndian, s, off', w')
  {
    ViewOfSetField(bigEndian, s, off, w, val);
    SliceBesideSplice(View(bigEndian, s), off, Orient(bigEndian, WordBits(val, w)), off', w');
  }

  /** Writes to disjoint fields may be made in either order. */
  lemma SetCommutes(bigEndian: bool, s: seq<u8>, off: nat, w: nat, val: nat, off': nat, w': nat, val': nat)
    requires InRange(8 * |s|, off, w) && InRange(8 * |s|, off', w') && Disjoint(off, w, off', w')
    ensures SetField(bigEndian, SetField(bigEndian, s, off, w, val), off', w', val')
         == SetField(bigEndian, SetField(bigEndian, s, off', w', val'), off, w, val)
  {
    var bits := View(bigEndian, s);
    var f, f' := Orient(bigEndian, WordBits(val, w)), Orient(bigEndian, WordBits(val', w'));
    ViewOfSetField(bigEndian, s, off, w, val);
    ViewOfSetField(bigEndian, s, off', w', val');
    SpliceCommutes(bits, off, f, off', f');
  }

  /** Reading on a big-endian target is reading the byte-reversed buffer on a little-endian one, from
      the mirrored offset. */
  lemma GetDuality(s: seq<u8>, off: nat, w: nat)
    requires off + w <= 8 * |s|
    ensures GetField(true, s, off, w) == GetField(false, Reverse(s), 8 * |s| - off - w, w)
  {
    ViewDuality(s);
    ReverseInvolutive(View(false, Reverse(s)));
    SliceReversed(View(true, s), off, w);
  }

  /** Writing on a big-endian target is the mirror image of writing on a little-endian one. */
  lemma SetDuality(s: seq<u8>, off: nat, w: nat, val: nat)
    requires off + w <= 8 * |s|
    ensures SetField(true, s, off, w, val)
         == Reverse(SetField(false, Reverse(s), 8 * |s| - off - w, w, val))
  {
    var mirror := 8 * |s| - off - w;
    var t := SetField(false, Reverse(s), mirror, w, val);
    ViewOfSetField(true, s, off, w, val);
    ViewOfSetField(false, Reverse(s), mirror, w, val);
    ViewDuality(s);
    SpliceReversed(View(false, Reverse(s)), mirror, w, WordBits(val, w));
    ViewDuality(Reverse(t));
    ReverseInvolutive(t);
    ViewInjective(true, SetField(true, s, off, w, val), Reverse(t));
  }

  /** Two adjacent fields read as one: on a little-endian target the first holds the low digits. */
  lemma GetConcatLittle(s: seq<u8>, off: nat, w: nat, w': nat)
    requires off + w + w' <= 8 * |s| && w + w' <= 64
    ensures GetField(false, s, off, w + w')
         == GetField(false, s, off, w) + Pow2(w) * GetField(false, s, off + w, w')
  {
    var bits := View(false, s);
    SliceConcat(bits, off, w, w');
    WordOfConcat(Slice(bits, off, w), Slice(bits, off + w, w'));
  }

  /** On a big-endian target the first holds the high digits. */
  lemma GetConcatBig(s: seq<u8>, off: nat, w: nat, w': nat)
    requires off + w + w' <= 8 * |s| && w + w' <= 64
    ensures GetField(true, s, off, w + w')
         == GetField(true, s, off + w, w') + Pow2(w') * GetField(true, s, off, w)
  {
    var bits := View(true, s);
    SliceConcat(bits, off, w, w');
    ReverseConcat(Slice(bits, off, w), Slice(bits, off + w, w'));
    WordOfConcat(Reverse(Slice(bits, off + w, w')), Reverse(Slice(bits, off, w)));
  }

  lemma WordOfConcat(low: seq<bool>, high: seq<bool>)
    requires |low| + |high| <= 64
    ensures WordOf(low + high) == WordOf(low) + Pow2(|low|) * WordOf(high)
  {
    WordOfNarrow(low);
    WordOfNarrow(high);
    WordOfNarrow(low + high);
    FromBitsConcat(low, high);
  }

  /** Digits `w` and up of a number are the digits of its high part. */
  lemma BitsSplit(val: nat, w: nat, w': nat)
    ensures Bits(val, w + w') == Bits(LowPart(val, w), w) + Bits(HighPart(val, w), w')
  {
    BitsPrefix(val, w, w');
    BitsOfMod(val, w);
    BitsSuffix(val, w, w');
    assert Bits(val, w + w') == Bits(val, w + w')[..w] + Bits(val, w + w')[w..];
  }

  lemma BitsPrefix(val: nat, w: nat, w': nat)
    ensures Bits(val, w + w')[..w] == Bits(val, w)
  {
    forall k | 0 <= k < w ensures Bits(val, w + w')[k] == Bits(val, w)[k] {
      BitsAt(val, w + w', k);
      BitsAt(val, w, k);
    }
  }

  lemma {:induction false} BitsSuffix(val: nat, w: nat, w': nat)
    ensures Bits(val, w + w')[w..] == Bits(HighPart(val, w), w')
  {
    if w != 0 {
      BitsSuffix(val / 2, w - 1, w');
      HighPartStep(val, w);
      assert Bits(val, w + w')[1..] == Bits(val / 2, w - 1 + w');
      assert Bits(val, w + w')[w..] == Bits(val, w + w')[1..][w - 1..];
    }
  }

  lemma WordBitsSplit(val: nat, w: nat, w': nat)
    requires w + w' <= 64
    ensures WordBits(val, w + w') == WordBits(LowPart(val, w), w) + WordBits(HighPart(val, w), w')
  {
    WordBitsNarrow(val, w + w');
    WordBitsNarrow(LowPart(val, w), w);
    WordBitsNarrow(HighPart(val, w), w');
    BitsSplit(val, w, w');
  }

  lemma SetInPartsLittle(s: seq<u8>, off: nat, w: nat, w': nat, val: nat, low: nat, high: nat)
    requires off + w + w' <= 8 * |s|
    requires WordBits(val, w + w') == WordBits(low, w) + WordBits(high, w')
    ensures SetField(false, s, off, w + w', val)
         == SetField(false, SetField(false, s, off, w, low), off + w, w', high)
  {
    SpliceConcat(View(false, s), off, w, w', WordBits(low, w), WordBits(high, w'));
    ViewOfSetField(false, s, off, w, low);
  }

  lemma SetInPartsBig(s: seq<u8>, off: nat, w: nat, w': nat, val: nat, low: nat, high: nat)
    requires off + w + w' <= 8 * |s|
    requires WordBits(val, w + w') == WordBits(low, w') + WordBits(high, w)
    ensures SetField(true, s, off, w + w', val)
         == SetField(true, SetField(true, s, off + w, w', low), off, w, high)
  {
    var f, f' := Reverse(WordBits(high, w)), Reverse(WordBits(low, w'));
    ReverseConcat(WordBits(low, w'), WordBits(high, w));
    assert Orient(true, WordBits(val, w + w')) == f + f';
    SpliceConcat(View(true, s), off, w, w', f, f');
    SetCommutes(true, s, off, w, high, off + w, w', low);
    ViewOfSetField(true, s, off, w, high);
  }

  /** One write across two adjacent fields is a write of the low digits to the first field and of the
      high digits to the second, on a little-endian target. */
  lemma SetConcatLittle(s: seq<u8>, off: nat, w: nat, w': nat, val: u64)
    requires off + w + w' <= 8 * |s| && w + w' <= 64
    ensures SetField(false, s, off, w + w', val)
         == SetField(false, SetField(false, s, off, w, LowPart(val, w)), off + w, w', HighPart(val, w))
  {
    WordBitsSplit(val, w, w');
    SetInPartsLittle(s, off, w, w', val, LowPart(val, w), HighPart(val, w));
  }

  /** The mirror image, on a big-endian target. */
  lemma SetConcatBig(s: seq<u8>, off: nat, w: nat, w': nat, val: u64)
    requires off + w + w' <= 8 * |s| && w + w' <= 64
    ensures SetField(true, s, off, w + w', val)
         == SetField(true, SetField(true, s, off + w, w', LowPart(val, w')), off, w, HighPart(val, w'))
  {
    WordBitsSplit(val, w', w);
    SetInPartsBig(s, off, w, w', val, LowPart(val, w'), HighPart(val, w'));
  }
}
