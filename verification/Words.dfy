/** 32-bit words as their binary digits: the shifts, masks and trailing-bit counts
    that the route code computes with, and the few facts about alignment it relies on. */
module Words {

  const MAX: nat := 0xFFFF_FFFF

  function Pow2(n: nat): (p: nat)
    ensures p > 0
  {
    if n == 0 then 1 else 2 * Pow2(n - 1)
  }

  function And(x: nat, y: nat): nat {
    if x == 0 then 0 else (if x % 2 == 1 && y % 2 == 1 then 1 else 0) + 2 * And(x / 2, y / 2)
  }

  function Not(x: nat): nat
    requires x <= MAX
  {
    MAX - x
  }

  function TrailingZeros(x: nat): nat
    requires x > 0
  {
    if x % 2 == 1 then 0 else 1 + TrailingZeros(x / 2)
  }

  function TrailingOnes(x: nat): nat {
    if x % 2 == 0 then 0 else 1 + TrailingOnes(x / 2)
  }

  /** The low `k` bits of `x` are zero. */
  predicate Aligned(x: nat, k: nat) {
    k == 0 || (x % 2 == 0 && Aligned(x / 2, k - 1))
  }

  lemma WordSize()
    ensures Pow2(32) == MAX + 1
  {
    assert Pow2(8) == 256;
    assert Pow2(16) == 0x1_0000 by { assert Pow2(12) == 4096; }
    assert Pow2(24) == 0x100_0000 by { assert Pow2(20) == 0x10_0000; }
    assert Pow2(28) == 0x1000_0000;
  }

  lemma {:induction false} Pow2Monotone(m: nat, n: nat)
    requires m <= n
    ensures Pow2(m) <= Pow2(n)
  {
    if m < n { Pow2Monotone(m, n - 1); }
  }

  lemma {:induction false} Pow2Reflects(m: nat, n: nat)
    requires Pow2(m) < Pow2(n)
    ensures m < n
  {
    if n <= m { Pow2Monotone(n, m); }
  }

  /** `k` is at most the number of trailing zeros exactly when the low `k` bits are zero. */
  lemma {:induction false} TrailingZerosIsLargestAlignment(x: nat, k: nat)
    requires x > 0
    ensures Aligned(x, k) <==> k <= TrailingZeros(x)
  {
    if k > 0 && x % 2 == 0 { TrailingZerosIsLargestAlignment(x / 2, k - 1); }
  }

  lemma {:induction false} TrailingOnesAreZerosOfSuccessor(x: nat)
    ensures TrailingOnes(x) == TrailingZeros(x + 1)
  {
    if x % 2 == 1 {
      TrailingOnesAreZerosOfSuccessor(x / 2);
      assert (x + 1) / 2 == x / 2 + 1;
    }
  }

  lemma {:induction false} AlignedWeaken(x: nat, j: nat, k: nat)
    requires Aligned(x, k) && j <= k
    ensures Aligned(x, j)
  {
    if j > 0 { AlignedWeaken(x / 2, j - 1, k - 1); }
  }

  lemma {:induction false} AlignedShift(x: nat, k: nat)
    ensures Aligned(x + Pow2(k), k) == Aligned(x, k)
  {
    if k > 0 {
      AlignedShift(x / 2, k - 1);
      assert (x + Pow2(k)) / 2 == x / 2 + Pow2(k - 1);
    }
  }

  /** Two aligned words are a whole number of blocks apart. */
  lemma {:induction false} AlignedApart(x: nat, y: nat, k: nat)
    requires Aligned(x, k) && Aligned(y, k) && x < y
    ensures x + Pow2(k) <= y
  {
    if k > 0 { AlignedApart(x / 2, y / 2, k - 1); }
  }

  lemma {:induction false} AlignedAtLeast(x: nat, k: nat)
    requires Aligned(x, k) && x > 0
    ensures x >= Pow2(k)
  {
    if k > 0 { AlignedAtLeast(x / 2, k - 1); }
  }

  lemma {:induction false} AndAllOnes(x: nat, w: nat)
    requires x < Pow2(w)
    ensures And(x, Pow2(w) - 1) == x
  {
    if x > 0 {
      AndAllOnes(x / 2, w - 1);
      assert (Pow2(w) - 1) / 2 == Pow2(w - 1) - 1 && (Pow2(w) - 1) % 2 == 1;
    }
  }

  /** `x & !((1 << s) - 1)` clears exactly the low `s` bits, for words of any width `w`;
      `mask` is the complement within that width. */
  lemma {:induction false} AndClearsLowBits(x: nat, mask: nat, s: nat, w: nat)
    requires s <= w && x < Pow2(w) && mask + Pow2(s) == Pow2(w)
    ensures var y := And(x, mask); Aligned(y, s) && y <= x < y + Pow2(s)
    decreases w
  {
    if s == 0 {
      AndAllOnes(x, w);
    } else {
      AndClearsLowBits(x / 2, mask / 2, s - 1, w - 1);
      assert mask % 2 == 0;
      assert x > 0 ==> And(x, mask) == 2 * And(x / 2, mask / 2);
    }
  }

  lemma MaskClearsLowBits(x: nat, s: nat)
    requires x <= MAX && s <= 32
    ensures Pow2(s) - 1 <= MAX
    ensures var y := And(x, Not(Pow2(s) - 1));
            Aligned(y, s) && y <= x < y + Pow2(s)
  {
    WordSize();
    Pow2Monotone(s, 32);
    AndClearsLowBits(x, Not(Pow2(s) - 1), s, 32);
  }

  /** There is only one aligned word within a block's length below `x`. */
  lemma {:induction false} FloorUnique(x: nat, a: nat, b: nat, k: nat)
    requires Aligned(a, k) && a <= x < a + Pow2(k)
    requires Aligned(b, k) && b <= x < b + Pow2(k)
    ensures a == b
  {
    if a < b { AlignedApart(a, b, k); }
    if b < a { AlignedApart(b, a, k); }
  }
}
