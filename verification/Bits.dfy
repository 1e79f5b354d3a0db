/** Powers of two, the most significant bit of a size, and the bits of a 32-bit word. */
module Bits {

  function Pow2(n: nat): (p: nat)
    ensures p >= 1
  {
    if n == 0 then 1 else 2 * Pow2(n - 1)
  }

  lemma {:induction false} Pow2Monotone(m: nat, n: nat)
    requires m <= n
    ensures Pow2(m) <= Pow2(n)
    ensures m < n ==> 2 * Pow2(m) <= Pow2(n)
    decreases n
  {
    if m < n {
      Pow2Monotone(m, n - 1);
    }
  }

  lemma {:induction false} Pow2Add(m: nat, n: nat)
    ensures Pow2(m + n) == Pow2(m) * Pow2(n)
    decreases n
  {
    if n > 0 {
      Pow2Add(m, n - 1);
      assert Pow2(m + n) == 2 * Pow2(m + (n - 1));
    }
  }

  /** Index of the most significant set bit; the `fls` and `ilog2` of the C libraries. */
  function Log2(n: nat): nat
    requires n > 0
  {
    if n < 2 then 0 else 1 + Log2(n / 2)
  }

  lemma {:induction false} Log2Bounds(n: nat)
    requires n > 0
    ensures Pow2(Log2(n)) <= n < 2 * Pow2(Log2(n))
  {
    if n >= 2 {
      Log2Bounds(n / 2);
    }
  }

  /** The bounds of Log2Bounds determine the logarithm. */
  lemma Log2Unique(n: nat, k: nat)
    requires n > 0 && Pow2(k) <= n < 2 * Pow2(k)
    ensures Log2(n) == k
  {
    Log2Bounds(n);
    if Log2(n) < k {
      Pow2Monotone(Log2(n), k);
    } else if k < Log2(n) {
      Pow2Monotone(k, Log2(n));
    }
  }

  lemma Log2Monotone(m: nat, n: nat)
    requires 0 < m <= n
    ensures Log2(m) <= Log2(n)
  {
    Log2Bounds(m);
    Log2Bounds(n);
    if Log2(n) < Log2(m) {
      Pow2Monotone(Log2(n), Log2(m));
    }
  }

  lemma DivBounds(n: nat, q: nat, k: nat)
    requires q > 0
    ensures k * q <= n ==> k <= n / q
    ensures n < k * q ==> n / q < k
  {
    assert n == (n / q) * q + n % q;
    if k * q <= n {
      assert (n / q - k + 1) * q > 0;
    }
  }

  lemma DivMonotone(m: nat, n: nat, q: nat)
    requires q > 0 && m <= n
    ensures m / q <= n / q
  {
    assert m == (m / q) * q + m % q;
    DivBounds(n, q, m / q);
  }

  // ---------------------------------------------------------------------------------------------
  // 32-bit words as bitmaps: element i of the sequence is bit i of the word
  // ---------------------------------------------------------------------------------------------

  type Word = w: seq<bool> | |w| == 32 witness seq(32, _ => false)

  const ZERO: Word := seq(32, _ => false)

  predicate IsZero(w: Word) {
    forall i | 0 <= i < 32 :: !w[i]
  }

  /** `w | (1U << i)` */
  function SetBit(w: Word, i: nat): Word
    requires i < 32
  {
    w[i := true]
  }

  /** `w & ~(1U << i)` */
  function ClearBit(w: Word, i: nat): Word
    requires i < 32
  {
    w[i := false]
  }

  /** `w & (~0U << i)` */
  function BitsFrom(w: Word, i: nat): Word
    requires i < 32
  {
    seq(32, j requires 0 <= j < 32 => i <= j && w[j])
  }

  /** Lowest set bit at or above position i, or 32. */
  function LowestFrom(w: Word, i: nat): (r: nat)
    requires i <= 32
    ensures i <= r <= 32
    ensures r < 32 ==> w[r]
    ensures forall j | i <= j < r :: !w[j]
    decreases 32 - i
  {
    if i == 32 || w[i] then i else LowestFrom(w, i + 1)
  }

  /** Find first set: the index of the lowest set bit, -1 for the zero word. */
  function Ffs(w: Word): (r: int)
    ensures r == -1 <==> IsZero(w)
    ensures r != -1 ==> 0 <= r < 32 && w[r] && forall j | 0 <= j < r :: !w[j]
  {
    var r := LowestFrom(w, 0);
    if r == 32 then -1 else r
  }
}
