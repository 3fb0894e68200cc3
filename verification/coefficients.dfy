/**
 * Dense coefficient lists over the integers, in ascending order of powers
 * (x^2 + 2x + 5 is [5, 2, 1]): the value-level meaning of the list polynomial.
 *
 * A list is normal when it is non-empty and its last entry is non-zero unless it
 * is the only entry; [0] is the zero polynomial. Normalize is the specification
 * of the in-place trimming loop, Sum of the padded addition, Negation of unary
 * minus and Product of the schoolbook convolution.
 */
module DenseCoefficients {

  /** The representation invariant of a list polynomial. */
  predicate IsNormal(s: seq<int>) {
    |s| >= 1 && (|s| > 1 ==> s[|s| - 1] != 0)
  }

  /** Coefficient of x^k, reading entries past the end of the list as zero. */
  function Coeff(s: seq<int>, k: nat): int {
    if k < |s| then s[k] else 0
  }

  /** n zero coefficients. */
  function Zeros(n: nat): (z: seq<int>)
    ensures |z| == n && forall k :: 0 <= k < n ==> z[k] == 0
  {
    seq(n, _ => 0)
  }

  /**
   * Drops the highest entry while it is zero and more than one entry remains:
   * the result is a normal prefix of s, and everything dropped was zero.
   */
  function Normalize(s: seq<int>): (r: seq<int>)
    requires |s| >= 1
    ensures IsNormal(r)
    ensures r <= s
    ensures forall k :: |r| <= k < |s| ==> s[k] == 0
    decreases |s|
  {
    if |s| > 1 && s[|s| - 1] == 0 then Normalize(s[..|s| - 1]) else s
  }

  /** The larger of two lengths. */
  function Max(a: nat, b: nat): nat {
    if a < b then b else a
  }

  /**
   * Pads the shorter list with padding up to the longer length and pairs the
   * entries position by position.
   */
  function PadAndZip(list1: seq<int>, list2: seq<int>, padding: int): (pairs: seq<(int, int)>)
    ensures |pairs| == Max(|list1|, |list2|)
    ensures forall k :: 0 <= k < |pairs| ==>
              pairs[k].0 == (if k < |list1| then list1[k] else padding) &&
              pairs[k].1 == (if k < |list2| then list2[k] else padding)
  {
    var n := Max(|list1|, |list2|);
    var padded1 := list1 + seq(n - |list1|, _ => padding);
    var padded2 := list2 + seq(n - |list2|, _ => padding);
    seq(n, k requires 0 <= k < n => (padded1[k], padded2[k]))
  }

  /** The coefficient sums of the addition, before normalisation. */
  function Sum(a: seq<int>, b: seq<int>): seq<int> {
    var pairs := PadAndZip(a, b, 0);
    seq(|pairs|, k requires 0 <= k < |pairs| => pairs[k].0 + pairs[k].1)
  }

  /** The coefficients of unary minus. */
  function Negation(a: seq<int>): seq<int> {
    seq(|a|, k requires 0 <= k < |a| => -a[k])
  }

  /** a[i] * b[k - i], the contribution of row i to slot k of the product (zero when k - i is out of range). */
  function Term(a: seq<int>, b: seq<int>, i: nat, k: nat): int
    requires i < |a|
  {
    if i <= k && k - i < |b| then a[i] * b[k - i] else 0
  }

  /** The sum of a[i] * b[j] over i < n and i + j == k. */
  function Convolution(a: seq<int>, b: seq<int>, n: nat, k: nat): int
    requires n <= |a|
  {
    if n == 0 then 0 else Convolution(a, b, n - 1, k) + Term(a, b, n - 1, k)
  }

  /**
   * The product before normalisation: deg(a) + deg(b) + 2 slots, slot k holding
   * the sum of a[i] * b[j] over all i + j == k.
   */
  function Product(a: seq<int>, b: seq<int>): seq<int>
    requires |a| >= 1 && |b| >= 1
  {
    seq((|a| - 1) + (|b| - 1) + 2, k requires 0 <= k => Convolution(a, b, |a|, k))
  }

  /** The list polynomial's equality: same degree, then the same entry at every position. */
  predicate Equal(a: seq<int>, b: seq<int>) {
    |a| - 1 == |b| - 1 && forall i :: 0 <= i < |a| ==> a[i] == b[i]
  }

  /** The list polynomial's degree: length minus one, so [0] has degree 0. */
  function Degree(s: seq<int>): int {
    |s| - 1
  }

  // ---------------------------------------------------------------------------
  // Lemmas about normalisation
  // ---------------------------------------------------------------------------

  /** A normal list is left as it is, so normalising twice is normalising once. */
  lemma NormalizeIdempotent(s: seq<int>)
    requires |s| >= 1
    ensures IsNormal(s) ==> Normalize(s) == s
    ensures Normalize(Normalize(s)) == Normalize(s)
  {
  }

  /** Normalisation keeps every coefficient, reading past the end as zero. */
  lemma NormalizeKeepsCoefficients(s: seq<int>, k: nat)
    requires |s| >= 1
    ensures Coeff(Normalize(s), k) == Coeff(s, k)
  {
  }

  /** Two normal lists with the same coefficients are the same list. */
  lemma NormalUnique(p: seq<int>, q: seq<int>)
    requires IsNormal(p) && IsNormal(q)
    requires forall k: nat :: Coeff(p, k) == Coeff(q, k)
    ensures p == q
  {
    var top := Max(|p|, |q|) - 1;
    assert Coeff(p, top) == Coeff(q, top);
    assert |p| == |q|;
    forall i | 0 <= i < |p| ensures p[i] == q[i] {
      assert Coeff(p, i) == Coeff(q, i);
    }
  }

  /**
   * Normalisation is determined by the coefficients alone: lists that agree as
   * polynomials normalise to the same list.
   */
  lemma NormalizeByCoefficients(s: seq<int>, t: seq<int>)
    requires |s| >= 1 && |t| >= 1
    requires forall k: nat :: Coeff(s, k) == Coeff(t, k)
    ensures Normalize(s) == Normalize(t)
  {
    forall k: nat ensures Coeff(Normalize(s), k) == Coeff(Normalize(t), k) {
      NormalizeKeepsCoefficients(s, k);
      NormalizeKeepsCoefficients(t, k);
    }
    NormalUnique(Normalize(s), Normalize(t));
  }

  /** Appending trailing zeros changes neither the normal form nor the degree. */
  lemma {:induction false} TrailingZeros(s: seq<int>, n: nat)
    requires |s| >= 1
    ensures Normalize(s + Zeros(n)) == Normalize(s)
    ensures Degree(Normalize(s + Zeros(n))) == Degree(Normalize(s))
    ensures Equal(Normalize(s + Zeros(n)), Normalize(s))
  {
    if n > 0 {
      var t := s + Zeros(n);
      assert t[|t| - 1] == 0;
      assert t[..|t| - 1] == s + Zeros(n - 1);
      assert Normalize(t) == Normalize(t[..|t| - 1]);
      TrailingZeros(s, n - 1);
    } else {
      assert s + Zeros(n) == s;
    }
  }

  /** The list polynomial's equality is equality of coefficient lists. */
  lemma EqualIsIdentity(a: seq<int>, b: seq<int>)
    ensures Equal(a, b) <==> a == b
  {
  }

  /** For normal lists, the list polynomial's equality holds exactly when all coefficients agree. */
  lemma EqualIffSameCoefficients(p: seq<int>, q: seq<int>)
    requires IsNormal(p) && IsNormal(q)
    ensures Equal(p, q) <==> forall k: nat :: Coeff(p, k) == Coeff(q, k)
  {
    if forall k: nat :: Coeff(p, k) == Coeff(q, k) {
      NormalUnique(p, q);
    }
  }

  /** Degree of a normal list: every coefficient above it is zero, and the one at it is not (unless it is 0). */
  lemma DegreeIsLeadingIndex(s: seq<int>)
    requires IsNormal(s)
    ensures Degree(s) >= 0
    ensures forall k: nat :: k > Degree(s) ==> Coeff(s, k) == 0
    ensures Degree(s) > 0 ==> Coeff(s, Degree(s)) != 0
  {
  }

  // ---------------------------------------------------------------------------
  // Lemmas about addition and negation
  // ---------------------------------------------------------------------------

  /** The sum's coefficient k is a[k] + b[k], missing entries read as zero. */
  lemma AddCoefficients(a: seq<int>, b: seq<int>, k: nat)
    requires |a| >= 1 && |b| >= 1
    ensures Coeff(Normalize(Sum(a, b)), k) == Coeff(a, k) + Coeff(b, k)
  {
    NormalizeKeepsCoefficients(Sum(a, b), k);
  }

  /** Addition is commutative. */
  lemma AddCommutes(a: seq<int>, b: seq<int>)
    requires |a| >= 1 && |b| >= 1
    ensures Normalize(Sum(a, b)) == Normalize(Sum(b, a))
  {
    forall k: nat ensures Coeff(Sum(a, b), k) == Coeff(Sum(b, a), k) {
    }
    NormalizeByCoefficients(Sum(a, b), Sum(b, a));
  }

  /** Adding the zero polynomial gives back a normal list unchanged. */
  lemma AddZero(a: seq<int>)
    requires IsNormal(a)
    ensures Normalize(Sum(a, [0])) == a
  {
    forall k: nat ensures Coeff(Normalize(Sum(a, [0])), k) == Coeff(a, k) {
      AddCoefficients(a, [0], k);
    }
    NormalUnique(Normalize(Sum(a, [0])), a);
  }

  /** Negation negates every coefficient and keeps a normal list normal, so the degree is unchanged. */
  lemma NegationKeepsDegree(a: seq<int>)
    requires IsNormal(a)
    ensures IsNormal(Negation(a)) && Normalize(Negation(a)) == Negation(a)
    ensures Degree(Negation(a)) == Degree(a)
    ensures forall k: nat :: Coeff(Negation(a), k) == -Coeff(a, k)
  {
  }

  /** a + (-a) is the zero polynomial [0]. */
  lemma AddNegationIsZero(a: seq<int>)
    requires IsNormal(a)
    ensures Normalize(Sum(a, Negation(a))) == [0]
  {
    forall k: nat ensures Coeff(Normalize(Sum(a, Negation(a))), k) == Coeff([0], k) {
      AddCoefficients(a, Negation(a), k);
    }
    NormalUnique(Normalize(Sum(a, Negation(a))), [0]);
  }

  // ---------------------------------------------------------------------------
  // Lemmas about the product
  // ---------------------------------------------------------------------------

  /** Rows whose every column lies below slot k contribute nothing to it. */
  lemma {:induction false} ConvolutionAboveRows(a: seq<int>, b: seq<int>, n: nat, k: nat)
    requires n <= |a| && n + |b| <= k + 1
    ensures Convolution(a, b, n, k) == 0
  {
    if n > 0 {
      ConvolutionAboveRows(a, b, n - 1, k);
    }
  }

  /** The top slot of the unnormalised product is always zero. */
  lemma ProductTopSlotIsZero(a: seq<int>, b: seq<int>)
    requires |a| >= 1 && |b| >= 1
    ensures |Product(a, b)| == |a| + |b|
    ensures Product(a, b)[|a| + |b| - 1] == 0
  {
    ConvolutionAboveRows(a, b, |a|, |a| + |b| - 1);
  }

  /** Slot deg(a) + deg(b) of the product is the product of the leading coefficients. */
  lemma ProductLeadingSlot(a: seq<int>, b: seq<int>)
    requires |a| >= 1 && |b| >= 1
    ensures Product(a, b)[|a| + |b| - 2] == a[|a| - 1] * b[|b| - 1]
  {
    ConvolutionAboveRows(a, b, |a| - 1, |a| + |b| - 2);
  }

  /** Over the integers the degree of a product of non-zero polynomials is the sum of the degrees. */
  lemma MulDegree(a: seq<int>, b: seq<int>)
    requires IsNormal(a) && IsNormal(b) && a != [0] && b != [0]
    ensures Degree(Normalize(Product(a, b))) == Degree(a) + Degree(b)
  {
    var p := Product(a, b);
    ProductTopSlotIsZero(a, b);
    ProductLeadingSlot(a, b);
    assert a[|a| - 1] != 0 && b[|b| - 1] != 0;
    assert p[|a| + |b| - 2] != 0;
    assert p[..|p| - 1][|a| + |b| - 2] != 0;
  }

  /** Multiplying by the zero polynomial gives the zero polynomial. */
  lemma MulZero(a: seq<int>)
    requires IsNormal(a)
    ensures Normalize(Product(a, [0])) == [0]
  {
    forall k: nat ensures Coeff(Product(a, [0]), k) == Coeff([0], k) {
      if k < |Product(a, [0])| {
        ZeroColumn(a, |a|, k);
      }
    }
    NormalizeByCoefficients(Product(a, [0]), [0]);
  }

  /** With b == [0] every term of the convolution is zero. */
  lemma {:induction false} ZeroColumn(a: seq<int>, n: nat, k: nat)
    requires n <= |a|
    ensures Convolution(a, [0], n, k) == 0
  {
    if n > 0 {
      ZeroColumn(a, n - 1, k);
    }
  }

  /** The worked example: p = x^2 + 2x + 5 has degree 2, p + p == 2x^2 + 4x + 10 and p * p == x^4 + 4x^3 + 14x^2 + 20x + 25. */
  lemma SquareExample()
    ensures Degree(Normalize([5, 2, 1])) == 2
    ensures Normalize(Sum([5, 2, 1], [5, 2, 1])) == [10, 4, 2]
    ensures Normalize(Product([5, 2, 1], [5, 2, 1])) == [25, 20, 14, 4, 1]
  {
    var p := Product([5, 2, 1], [5, 2, 1]);
    assert Sum([5, 2, 1], [5, 2, 1]) == [10, 4, 2];
    assert p[0] == 25 && p[1] == 20 && p[2] == 14 && p[3] == 4 && p[4] == 1 && p[5] == 0;
    assert p == [25, 20, 14, 4, 1, 0];
    assert p[..5] == [25, 20, 14, 4, 1];
  }

  /** The zero polynomial has degree 0, and [0, 0, 0] normalises to it. */
  lemma ZeroPolynomialExample()
    ensures Degree(Normalize([0])) == 0
    ensures Normalize([0, 0, 0]) == [0]
    ensures Equal(Normalize([0]), Normalize([0, 0, 0]))
  {
    assert [0, 0, 0][..2] == [0, 0];
    assert [0, 0][..1] == [0];
  }
}
