/** What reading and writing a bitfield means, stated on the bit view of a buffer.

    A field is a run of `w` consecutive bits. Reading it gives the word whose digits those bits are,
    in the significance order of the target; writing it replaces exactly those bits. Word digits are
    taken modulo 64, which matters only for widths above 64 in builds without debug assertions. */
module Fields {
  import opened BinaryNumbers
  import opened MachineWords
  import opened StorageBits

  /** An empty field is in range everywhere: none of its bits is ever reached. */
  predicate InRange(bitCount: nat, off: nat, w: nat) {
    w == 0 || off + w <= bitCount
  }

  function Slice(bits: seq<bool>, off: nat, w: nat): (f: seq<bool>)
    requires InRange(|bits|, off, w)
    ensures |f| == w
  {
    if w == 0 then [] else bits[off..off + w]
  }

  function Splice(bits: seq<bool>, off: nat, f: seq<bool>): (r: seq<bool>)
    requires InRange(|bits|, off, |f|)
    ensures |r| == |bits|
  {
    if f == [] then bits else bits[..off] + f + bits[off + |f|..]
  }

  function WordBits(val: nat, w: nat): (g: seq<bool>)
    ensures |g| == w
  {
    seq(w, i requires 0 <= i < w => Bit(val, i % 64))
  }

  /** Digit `k` collects every bit whose position wraps to `k`. */
  function Wrap(g: seq<bool>): (r: seq<bool>)
    ensures |r| == 64
  {
    seq(64, k requires 0 <= k < 64 => exists j :: 0 <= j < |g| && j % 64 == k && g[j])
  }

  function WordOf(g: seq<bool>): u64 {
    FromBitsBound(Wrap(g));
    Pow2Word();
    FromBits(Wrap(g))
  }

  function GetField(bigEndian: bool, s: seq<u8>, off: nat, w: nat): u64
    requires InRange(8 * |s|, off, w)
  {
    WordOf(Orient(bigEndian, Slice(View(bigEndian, s), off, w)))
  }

  function SetField(bigEndian: bool, s: seq<u8>, off: nat, w: nat, val: nat): (t: seq<u8>)
    requires InRange(8 * |s|, off, w)
    ensures |t| == |s|
  {
    Pack(bigEndian, Splice(View(bigEndian, s), off, Orient(bigEndian, WordBits(val, w))))
  }

  lemma WrapNarrow(g: seq<bool>, zeros: seq<bool>)
    requires |g| + |zeros| == 64
    requires forall i :: 0 <= i < |zeros| ==> !zeros[i]
    ensures Wrap(g) == g + zeros
  {
    forall k | 0 <= k < 64 ensures Wrap(g)[k] == (k < |g| && g[k]) {
      if k < |g| && g[k] {
        assert k % 64 == k;
      }
    }
  }

  /** For widths up to 64 the words are plain: no digit wraps. */
  lemma WordOfNarrow(g: seq<bool>)
    requires |g| <= 64
    ensures WordOf(g) == FromBits(g)
  {
    var zeros := seq(64 - |g|, i => false);
    WrapNarrow(g, zeros);
    FromBitsPadded(g, zeros);
  }

  lemma WordBitsNarrow(val: nat, w: nat)
    requires w <= 64
    ensures WordBits(val, w) == Bits(val, w)
  {
    forall i | 0 <= i < w ensures WordBits(val, w)[i] == Bits(val, w)[i] {
      BitsAt(val, w, i);
      assert i % 64 == i;
    }
  }

  lemma ViewOfSetField(bigEndian: bool, s: seq<u8>, off: nat, w: nat, val: nat)
    requires InRange(8 * |s|, off, w)
    ensures View(bigEndian, SetField(bigEndian, s, off, w, val))
         == Splice(View(bigEndian, s), off, Orient(bigEndian, WordBits(val, w)))
  {
    ViewOfPack(bigEndian, Splice(View(bigEndian, s), off, Orient(bigEndian, WordBits(val, w))));
  }
}
