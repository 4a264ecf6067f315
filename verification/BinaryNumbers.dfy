/** Natural numbers and their binary digits.

    A digit sequence is written least significant digit first, so `FromBits` is the number that a
    run of bits denotes and `Bits(n, w)` is the run of the `w` low digits of `n`. */
module BinaryNumbers {

  function Pow2(k: nat): (p: nat)
    ensures p > 0
  {
    if k == 0 then 1 else 2 * Pow2(k - 1)
  }

  /** Digit `k` of `n`. */
  predicate Bit(n: nat, k: nat) {
    if k == 0 then n % 2 == 1 else Bit(n / 2, k - 1)
  }

  function Digit(b: bool): nat {
    if b then 1 else 0
  }

  function Bits(n: nat, w: nat): (bs: seq<bool>)
    ensures |bs| == w
  {
    if w == 0 then [] else [n % 2 == 1] + Bits(n / 2, w - 1)
  }

  function FromBits(bs: seq<bool>): nat {
    if bs == [] then 0 else Digit(bs[0]) + 2 * FromBits(bs[1..])
  }

  function Reverse<T>(s: seq<T>): (r: seq<T>)
    ensures |r| == |s|
  {
    seq(|s|, i requires 0 <= i < |s| => s[|s| - 1 - i])
  }

  lemma ReverseInvolutive<T>(s: seq<T>)
    ensures Reverse(Reverse(s)) == s
  {}

  lemma {:induction false} Pow2Add(a: nat, b: nat)
    ensures Pow2(a + b) == Pow2(a) * Pow2(b)
  {
    if a == 0 {
    } else {
      Pow2Add(a - 1, b);
      assert Pow2(a + b) == 2 * Pow2(a - 1 + b);
      assert 2 * (Pow2(a - 1) * Pow2(b)) == (2 * Pow2(a - 1)) * Pow2(b);
    }
  }

  lemma {:induction false} Pow2Monotonic(a: nat, b: nat)
    requires a <= b
    ensures Pow2(a) <= Pow2(b)
  {
    if a != b {
      Pow2Monotonic(a, b - 1);
    }
  }

  lemma Pow2Byte()
    ensures Pow2(8) == 0x100
  {}

  lemma Pow2Half()
    ensures Pow2(32) == 0x1_0000_0000
  {
    Pow2Add(8, 8);
    Pow2Add(16, 16);
  }

  lemma Pow2Word()
    ensures Pow2(64) == 0x1_0000_0000_0000_0000
  {
    Pow2Half();
    Pow2Add(32, 32);
  }

  lemma {:induction false} BitsAt(n: nat, w: nat, k: nat)
    requires k < w
    ensures Bits(n, w)[k] == Bit(n, k)
  {
    if k != 0 {
      BitsAt(n / 2, w - 1, k - 1);
    }
  }

  lemma {:induction false} FromBitsBound(bs: seq<bool>)
    ensures FromBits(bs) < Pow2(|bs|)
  {
    if bs != [] {
      FromBitsBound(bs[1..]);
    }
  }

  lemma {:induction false} FromBitsConcat(a: seq<bool>, b: seq<bool>)
    ensures FromBits(a + b) == FromBits(a) + Pow2(|a|) * FromBits(b)
  {
    if a == [] {
      assert a + b == b;
    } else {
      FromBitsConcat(a[1..], b);
      assert (a + b)[1..] == a[1..] + b;
      assert 2 * (Pow2(|a| - 1) * FromBits(b)) == (2 * Pow2(|a| - 1)) * FromBits(b);
    }
  }

  lemma {:induction false} FromBitsPadded(g: seq<bool>, zeros: seq<bool>)
    requires forall i :: 0 <= i < |zeros| ==> !zeros[i]
    ensures FromBits(g + zeros) == FromBits(g)
    decreases |g| + |zeros|
  {
    if g != [] {
      FromBitsPadded(g[1..], zeros);
      assert (g + zeros)[1..] == g[1..] + zeros;
    } else if zeros != [] {
      assert g + zeros == zeros;
      FromBitsPadded(g, zeros[1..]);
      assert g + zeros[1..] == zeros[1..];
    } else {
      assert g + zeros == g;
    }
  }

  /** Reading back the digits of a number gives the digits. */
  lemma {:induction false} BitsOfFromBits(bs: seq<bool>)
    ensures Bits(FromBits(bs), |bs|) == bs
  {
    if bs != [] {
      BitsOfFromBits(bs[1..]);
      assert FromBits(bs) / 2 == FromBits(bs[1..]);
    }
  }

  lemma BitOfFromBits(bs: seq<bool>, k: nat)
    requires k < |bs|
    ensures Bit(FromBits(bs), k) == bs[k]
  {
    BitsOfFromBits(bs);
    BitsAt(FromBits(bs), |bs|, k);
  }

  lemma MultipleBelow(p: int, d: int)
    requires -p < p * d < p
    ensures d == 0
  {}

  lemma DivModUnique(r: nat, p: nat, q: nat)
    requires r < p
    ensures (r + p * q) / p == q && (r + p * q) % p == r
  {
    var n := r + p * q;
    var d := n / p - q;
    assert n == p * (n / p) + n % p;
    assert p * d == p * (n / p) - p * q;
    assert p * d == r - n % p;
    MultipleBelow(p, d);
  }

  /** The number that the `w` low digits of `n` denote. */
  function LowPart(n: nat, w: nat): nat {
    n % Pow2(w)
  }

  /** The number that the digits of `n` from `w` up denote. */
  function HighPart(n: nat, w: nat): nat {
    DivNonNegative(n, Pow2(w));
    n / Pow2(w)
  }

  lemma DivNonNegative(n: nat, p: nat)
    requires p > 0
    ensures n / p >= 0
  {}

  lemma HighPartStep(n: nat, w: nat)
    requires w > 0
    ensures HighPart(n, w) == HighPart(n / 2, w - 1)
  {
    DivDouble(n, Pow2(w - 1));
  }

  lemma DivDouble(n: nat, p: nat)
    requires p > 0
    ensures n / (2 * p) == (n / 2) / p
  {
    var q, r := (n / 2) / p, n % 2 + 2 * ((n / 2) % p);
    assert n / 2 == p * q + (n / 2) % p;
    assert (2 * p) * q == 2 * (p * q);
    DivModUnique(r, 2 * p, q);
  }

  lemma ModDouble(n: nat, p: nat)
    requires p > 0
    ensures n % (2 * p) == n % 2 + 2 * ((n / 2) % p)
  {
    var q, r := (n / 2) / p, n % 2 + 2 * ((n / 2) % p);
    assert n / 2 == p * q + (n / 2) % p;
    assert (2 * p) * q == 2 * (p * q);
    DivModUnique(r, 2 * p, q);
  }

  /** Keeping the `w` low digits of a number is reducing it modulo `2^w`. */
  lemma {:induction false} FromBitsOfBits(n: nat, w: nat)
    ensures FromBits(Bits(n, w)) == n % Pow2(w)
  {
    if w != 0 {
      FromBitsOfBits(n / 2, w - 1);
      ModDouble(n, Pow2(w - 1));
      assert Bits(n, w)[1..] == Bits(n / 2, w - 1);
    }
  }

  lemma {:induction false} BitsOfMod(n: nat, w: nat)
    ensures Bits(n % Pow2(w), w) == Bits(n, w)
  {
    FromBitsOfBits(n, w);
    BitsOfFromBits(Bits(n, w));
  }

  lemma MiddleDigits(low: nat, p: nat, mid: nat, q: nat, high: nat)
    requires low < p && mid < q
    ensures ((low + p * (mid + q * high)) / p) % q == mid
  {
    DivModUnique(low, p, mid + q * high);
    DivModUnique(mid, q, high);
  }

  /** The digits of a number between `lo` and `lo + w`, found by division: positional notation. */
  lemma FromBitsMiddle(low: seq<bool>, mid: seq<bool>, high: seq<bool>)
    ensures FromBits(mid) == (FromBits(low + mid + high) / Pow2(|low|)) % Pow2(|mid|)
  {
    assert low + mid + high == low + (mid + high);
    FromBitsConcat(low, mid + high);
    FromBitsConcat(mid, high);
    FromBitsBound(low);
    FromBitsBound(mid);
    MiddleDigits(FromBits(low), Pow2(|low|), FromBits(mid), Pow2(|mid|), FromBits(high));
  }

  lemma Distribute(p: int, a: int, c: int)
    ensures p * (a + c) == a * p + p * c
  {}

  lemma FromBitsJoin(low: seq<bool>, mid: seq<bool>, high: seq<bool>)
    ensures FromBits(low + mid + high)
         == FromBits(low) + FromBits(mid) * Pow2(|low|) + Pow2(|low|) * (Pow2(|mid|) * FromBits(high))
  {
    assert low + mid + high == low + (mid + high);
    FromBitsConcat(low, mid + high);
    FromBitsConcat(mid, high);
    Distribute(Pow2(|low|), FromBits(mid), Pow2(|mid|) * FromBits(high));
  }

  /** Replacing a run of digits takes its old value out and puts the new one in. */
  lemma FromBitsReplace(low: seq<bool>, mid: seq<bool>, mid': seq<bool>, high: seq<bool>)
    requires |mid'| == |mid|
    ensures FromBits(low + mid' + high)
         == FromBits(low + mid + high) - FromBits(mid) * Pow2(|low|) + FromBits(mid') * Pow2(|low|)
  {
    FromBitsJoin(low, mid, high);
    FromBitsJoin(low, mid', high);
  }

  /** Numbers below `2^w` with the same `w` digits are equal. */
  lemma BitsExtensional(m: nat, n: nat, w: nat)
    requires m < Pow2(w) && n < Pow2(w)
    requires forall k :: 0 <= k < w ==> Bit(m, k) == Bit(n, k)
    ensures m == n
  {
    forall k | 0 <= k < w ensures Bits(m, w)[k] == Bits(n, w)[k] {
      BitsAt(m, w, k);
      BitsAt(n, w, k);
    }
    assert Bits(m, w) == Bits(n, w);
    FromBitsOfBits(m, w);
    FromBitsOfBits(n, w);
    DivModUnique(m, Pow2(w), 0);
    DivModUnique(n, Pow2(w), 0);
  }
}
