/** Unsigned machine words as bounded naturals, with the bitwise operators defined digit by digit.
    Where an operator wraps or truncates at a word's width, that is written out. */
module MachineWords {
  import opened BinaryNumbers

  type u8 = n: nat | n < 0x100
  type u16 = n: nat | n < 0x1_0000
  type u32 = n: nat | n < 0x1_0000_0000
  type u64 = n: nat | n < 0x1_0000_0000_0000_0000

  function And(a: nat, b: nat): nat {
    if a == 0 || b == 0 then 0
    else Digit(a % 2 == 1 && b % 2 == 1) + 2 * And(a / 2, b / 2)
  }

  function Or(a: nat, b: nat): nat {
    if a == 0 then b
    else if b == 0 then a
    else Digit(a % 2 == 1 || b % 2 == 1) + 2 * Or(a / 2, b / 2)
  }

  /** `!a` on a byte. */
  function Not8(a: u8): u8 {
    0xff - a
  }

  /** `1u8 << k` for a shift amount inside the type. */
  function Shift8(k: nat): (mask: u8)
    requires k < 8
    ensures mask == Pow2(k)
  {
    Pow2Monotonic(k, 7);
    Pow2(k)
  }

  /** `1u64 << k`; without overflow checks the shift amount is taken modulo the width. */
  function Shift64(k: nat): (mask: u64)
    ensures mask == Pow2(k % 64)
  {
    Pow2Word();
    Pow2Monotonic(k % 64, 63);
    assert Pow2(64) == 2 * Pow2(63);
    Pow2(k % 64)
  }

  lemma {:induction false} BitOfZero(k: nat)
    ensures !Bit(0, k)
  {
    if k != 0 {
      BitOfZero(k - 1);
    }
  }

  lemma LowestDigit(d: bool, n: nat)
    ensures (Digit(d) + 2 * n) / 2 == n && ((Digit(d) + 2 * n) % 2 == 1 <==> d)
  {}

  lemma {:induction false} BitOfAnd(a: nat, b: nat, k: nat)
    ensures Bit(And(a, b), k) == (Bit(a, k) && Bit(b, k))
  {
    BitOfZero(k);
    if a != 0 && b != 0 {
      LowestDigit(a % 2 == 1 && b % 2 == 1, And(a / 2, b / 2));
    }
    if k != 0 && a != 0 && b != 0 {
      BitOfAnd(a / 2, b / 2, k - 1);
    }
  }

  lemma {:induction false} BitOfOr(a: nat, b: nat, k: nat)
    ensures Bit(Or(a, b), k) == (Bit(a, k) || Bit(b, k))
  {
    BitOfZero(k);
    if a != 0 && b != 0 {
      LowestDigit(a % 2 == 1 || b % 2 == 1, Or(a / 2, b / 2));
    }
    if k != 0 && a != 0 && b != 0 {
      BitOfOr(a / 2, b / 2, k - 1);
    }
  }

  lemma {:induction false} BitOfPow2(j: nat, k: nat)
    ensures Bit(Pow2(j), k) == (j == k)
  {
    BitOfZero(k);
    if j == 0 {
      if k != 0 { BitOfZero(k - 1); }
    } else if k != 0 {
      BitOfPow2(j - 1, k - 1);
    }
  }

  lemma {:induction false} BitOfComplement(a: nat, w: nat, k: nat)
    requires a < Pow2(w) && k < w
    ensures Bit(Pow2(w) - 1 - a, k) == !Bit(a, k)
  {
    if k != 0 {
      BitOfComplement(a / 2, w - 1, k - 1);
      assert (Pow2(w) - 1 - a) / 2 == Pow2(w - 1) - 1 - a / 2;
    }
  }

  /** The test `n & mask == mask` on a one-bit mask reads one digit. */
  lemma {:induction false} MaskTest(n: nat, k: nat)
    ensures And(n, Pow2(k)) == Pow2(k) <==> Bit(n, k)
  {
    if k == 0 {
      if n != 0 { assert And(n / 2, 0) == 0; }
    } else if n == 0 {
      BitOfZero(k);
    } else {
      MaskTest(n / 2, k - 1);
    }
  }

  lemma {:induction false} AndBound(a: nat, b: nat)
    ensures And(a, b) <= a
  {
    if a != 0 && b != 0 {
      AndBound(a / 2, b / 2);
    }
  }

  lemma {:induction false} OrBound(a: nat, b: nat, w: nat)
    requires a < Pow2(w) && b < Pow2(w)
    ensures Or(a, b) < Pow2(w)
  {
    if a != 0 && b != 0 {
      OrBound(a / 2, b / 2, w - 1);
    }
  }

  /** `val | 1 << k` stays in the word. */
  lemma SetWordMaskBound(val: u64, k: nat)
    ensures Or(val, Shift64(k)) < 0x1_0000_0000_0000_0000
  {
    Pow2Word();
    OrBound(val, Shift64(k), 64);
  }

  /** `val | 1 << k` sets digit `k` modulo the width and leaves the others. */
  lemma SetWordMask(val: u64, k: nat, j: nat)
    ensures Bit(Or(val, Shift64(k)), j) == (j == k % 64 || Bit(val, j))
  {
    BitOfOr(val, Shift64(k), j);
    BitOfPow2(k % 64, j);
  }

  /** `byte | 1 << k` sets digit `k` and leaves the others. */
  lemma SetMask(b: u8, k: nat, j: nat)
    requires k < 8
    ensures Or(b, Shift8(k)) < 0x100
    ensures Bit(Or(b, Shift8(k)), j) == (j == k || Bit(b, j))
  {
    Pow2Byte();
    OrBound(b, Shift8(k), 8);
    BitOfOr(b, Shift8(k), j);
    BitOfPow2(k, j);
  }

  /** `byte & !(1 << k)` clears digit `k` and leaves the others. */
  lemma ClearMask(b: u8, k: nat, j: nat)
    requires k < 8 && j < 8
    ensures And(b, Not8(Shift8(k))) < 0x100
    ensures Bit(And(b, Not8(Shift8(k))), j) == (j != k && Bit(b, j))
  {
    Pow2Byte();
    AndBound(b, Not8(Shift8(k)));
    BitOfAnd(b, Not8(Shift8(k)), j);
    BitOfComplement(Shift8(k), 8, j);
    BitOfPow2(k, j);
  }
}
