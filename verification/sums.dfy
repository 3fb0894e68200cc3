/**
 * Finite sums of integer-valued functions on the naturals, with the rules the
 * polynomial ring laws need: pointwise rewriting, adding and scaling summands,
 * shifting the index, and exchanging the order of a triangular double sum.
 */
module Sums {

  /** f(lo) + f(lo + 1) + ... + f(hi - 1); zero when the range is empty. */
  function Sigma(f: nat -> int, lo: nat, hi: nat): int
    decreases hi
  {
    if hi <= lo then 0 else Sigma(f, lo, hi - 1) + f(hi - 1)
  }

  /** Sums of functions that agree on the range are equal. */
  lemma {:induction false} SigmaExt(f: nat -> int, g: nat -> int, lo: nat, hi: nat)
    requires forall i :: lo <= i < hi ==> f(i) == g(i)
    ensures Sigma(f, lo, hi) == Sigma(g, lo, hi)
    decreases hi
  {
    if hi > lo {
      SigmaExt(f, g, lo, hi - 1);
    }
  }

  /** A sum of zeros is zero. */
  lemma {:induction false} SigmaZero(f: nat -> int, lo: nat, hi: nat)
    requires forall i :: lo <= i < hi ==> f(i) == 0
    ensures Sigma(f, lo, hi) == 0
    decreases hi
  {
    if hi > lo {
      SigmaZero(f, lo, hi - 1);
    }
  }

  /** Summands that vanish from n on do not change the sum. */
  lemma {:induction false} SigmaZeroTail(f: nat -> int, lo: nat, n: nat, hi: nat)
    requires lo <= n <= hi
    requires forall i :: n <= i < hi ==> f(i) == 0
    ensures Sigma(f, lo, hi) == Sigma(f, lo, n)
    decreases hi
  {
    if hi > n {
      SigmaZeroTail(f, lo, n, hi - 1);
    }
  }

  /** The sum of pointwise sums is the sum of the two sums. */
  lemma {:induction false} SigmaPlus(f: nat -> int, g: nat -> int, h: nat -> int, lo: nat, hi: nat)
    requires forall i :: lo <= i < hi ==> h(i) == f(i) + g(i)
    ensures Sigma(h, lo, hi) == Sigma(f, lo, hi) + Sigma(g, lo, hi)
    decreases hi
  {
    if hi > lo {
      SigmaPlus(f, g, h, lo, hi - 1);
    }
  }

  /** A common factor comes out of the sum. */
  lemma {:induction false} SigmaScale(f: nat -> int, g: nat -> int, c: int, lo: nat, hi: nat)
    requires forall i :: lo <= i < hi ==> g(i) == c * f(i)
    ensures Sigma(g, lo, hi) == c * Sigma(f, lo, hi)
    decreases hi
  {
    if hi > lo {
      SigmaScale(f, g, c, lo, hi - 1);
      assert c * Sigma(f, lo, hi) == c * Sigma(f, lo, hi - 1) + c * f(hi - 1);
    }
  }

  /** Shifting the index by d: the sum of g over [lo, hi) is the sum of f over [lo + d, hi + d). */
  lemma {:induction false} SigmaShift(f: nat -> int, g: nat -> int, d: nat, lo: nat, hi: nat)
    requires forall i :: lo <= i < hi ==> g(i) == f(i + d)
    ensures Sigma(g, lo, hi) == Sigma(f, lo + d, hi + d)
    decreases hi
  {
    if hi > lo {
      SigmaShift(f, g, d, lo, hi - 1);
    }
  }

  /** Column i of a two-argument summand: p maps to F(p, i). */
  function Column(F: (nat, nat) -> int, i: nat): nat -> int {
    (p: nat) => F(p, i)
  }

  /** Row p of a two-argument summand: i maps to F(p, i). */
  function Row(F: (nat, nat) -> int, p: nat): nat -> int {
    (i: nat) => F(p, i)
  }

  /** i maps to the sum of F(p, i) over p <= i. */
  function LowerSums(F: (nat, nat) -> int): nat -> int {
    (i: nat) => Sigma(Column(F, i), 0, i + 1)
  }

  /** p maps to the sum of F(p, i) over p <= i < n. */
  function UpperSums(F: (nat, nat) -> int, n: nat): nat -> int {
    (p: nat) => Sigma(Row(F, p), p, n)
  }

  /**
   * Exchanging the order of a triangular double sum: summing F(p, i) over
   * p <= i < n by i first or by p first gives the same total.
   */
  lemma {:induction false} TriangleExchange(F: (nat, nat) -> int, n: nat)
    ensures Sigma(LowerSums(F), 0, n) == Sigma(UpperSums(F, n), 0, n)
  {
    if n > 0 {
      TriangleExchange(F, n - 1);
      forall p | 0 <= p < n
        ensures UpperSums(F, n)(p) == UpperSums(F, n - 1)(p) + Column(F, n - 1)(p)
      {
      }
      SigmaPlus(UpperSums(F, n - 1), Column(F, n - 1), UpperSums(F, n), 0, n);
      assert UpperSums(F, n - 1)(n - 1) == 0;
    }
  }
}
