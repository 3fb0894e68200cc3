/**
 * The ring laws of list polynomials over the integers.
 *
 * Every law is stated on the lists the polynomial operations return: the
 * normalised padded sum Normalize(Sum(a, b)) and the normalised convolution
 * Normalize(Product(a, b)). The proofs go through coefficients: coefficient k
 * of a product is the finite sum of a_i * b_(k-i) over i <= k (ProductCoeff),
 * and normal lists with the same coefficients are the same list.
 */
module PolynomialRingLaws {
  import opened DenseCoefficients
  import opened Sums

  /** i maps to a_i * b_(k-i) for i <= k, and to zero above k. */
  function Diagonal(a: seq<int>, b: seq<int>, k: nat): nat -> int {
    (i: nat) => if i <= k then Coeff(a, i) * Coeff(b, k - i) else 0
  }

  /** Coefficient k of the product a * b: the sum of a_i * b_(k-i) over i <= k. */
  function MulCoeff(a: seq<int>, b: seq<int>, k: nat): int {
    Sigma(Diagonal(a, b, k), 0, k + 1)
  }

  /** The first n rows of the schoolbook convolution are the first n diagonal terms. */
  lemma {:induction false} ConvolutionIsSigma(a: seq<int>, b: seq<int>, n: nat, k: nat)
    requires n <= |a|
    ensures Convolution(a, b, n, k) == Sigma(Diagonal(a, b, k), 0, n)
  {
    if n > 0 {
      ConvolutionIsSigma(a, b, n - 1, k);
      assert Term(a, b, n - 1, k) == Diagonal(a, b, k)(n - 1);
    }
  }

  /** Coefficient k of the unnormalised product is MulCoeff(a, b, k), for every k. */
  lemma ProductCoeff(a: seq<int>, b: seq<int>, k: nat)
    requires |a| >= 1 && |b| >= 1
    ensures Coeff(Product(a, b), k) == MulCoeff(a, b, k)
  {
    var d := Diagonal(a, b, k);
    ConvolutionIsSigma(a, b, |a|, k);
    if |a| <= k + 1 {
      SigmaZeroTail(d, 0, |a|, k + 1);
    } else {
      SigmaZeroTail(d, 0, k + 1, |a|);
    }
    if k >= |Product(a, b)| {
      ConvolutionAboveRows(a, b, |a|, k);
    }
  }

  /** The normalised product has the same coefficients. */
  lemma NormalProductCoeff(a: seq<int>, b: seq<int>, k: nat)
    requires |a| >= 1 && |b| >= 1
    ensures Coeff(Normalize(Product(a, b)), k) == MulCoeff(a, b, k)
  {
    NormalizeKeepsCoefficients(Product(a, b), k);
    ProductCoeff(a, b, k);
  }

  /** The coefficient of the normalised sum at k is a_k + b_k. */
  lemma SumCoeff(a: seq<int>, b: seq<int>, k: nat)
    ensures Coeff(Sum(a, b), k) == Coeff(a, k) + Coeff(b, k)
  {
  }

  // ---------------------------------------------------------------------------
  // Addition
  // ---------------------------------------------------------------------------

  /** Addition of polynomials is associative. */
  lemma AddAssociates(a: seq<int>, b: seq<int>, c: seq<int>)
    requires |a| >= 1 && |b| >= 1 && |c| >= 1
    ensures Normalize(Sum(Normalize(Sum(a, b)), c)) == Normalize(Sum(a, Normalize(Sum(b, c))))
  {
    var left, right := Sum(Normalize(Sum(a, b)), c), Sum(a, Normalize(Sum(b, c)));
    forall k: nat ensures Coeff(left, k) == Coeff(right, k) {
      SumCoeff(Normalize(Sum(a, b)), c, k);
      SumCoeff(a, Normalize(Sum(b, c)), k);
      AddCoefficients(a, b, k);
      AddCoefficients(b, c, k);
    }
    NormalizeByCoefficients(left, right);
  }

  // ---------------------------------------------------------------------------
  // Multiplication
  // ---------------------------------------------------------------------------

  /** The polynomial one, [1], is neutral for multiplication. */
  lemma MulOne(a: seq<int>)
    requires IsNormal(a)
    ensures Normalize(Product(a, [1])) == a
  {
    forall k: nat ensures Coeff(Product(a, [1]), k) == Coeff(a, k) {
      var d := Diagonal(a, [1], k);
      ProductCoeff(a, [1], k);
      forall i | 0 <= i < k ensures d(i) == 0 {
        assert Coeff([1], k - i) == 0;
      }
      SigmaZero(d, 0, k);
      assert d(k) == Coeff(a, k);
    }
    NormalizeByCoefficients(Product(a, [1]), a);
    NormalizeIdempotent(a);
  }

  /**
   * Reading the diagonal from both ends: the first n terms of a_i * b_(k-i)
   * plus the first k + 1 - n terms of b_j * a_(k-j) make up the whole sum.
   */
  lemma {:induction false} DiagonalReversal(a: seq<int>, b: seq<int>, k: nat, n: nat)
    requires n <= k + 1
    ensures Sigma(Diagonal(a, b, k), 0, n) + Sigma(Diagonal(b, a, k), 0, k + 1 - n)
            == Sigma(Diagonal(b, a, k), 0, k + 1)
  {
    if n > 0 {
      DiagonalReversal(a, b, k, n - 1);
      assert Diagonal(a, b, k)(n - 1) == Diagonal(b, a, k)(k + 1 - n);
    }
  }

  /** Multiplication of polynomials is commutative, already before normalisation. */
  lemma MulCommutes(a: seq<int>, b: seq<int>)
    requires |a| >= 1 && |b| >= 1
    ensures Product(a, b) == Product(b, a)
    ensures Normalize(Product(a, b)) == Normalize(Product(b, a))
  {
    forall k | 0 <= k < |Product(a, b)| ensures Product(a, b)[k] == Product(b, a)[k] {
      ProductCoeff(a, b, k);
      ProductCoeff(b, a, k);
      DiagonalReversal(a, b, k, k + 1);
    }
  }

  /** Coefficient k of a product is linear in the second factor. */
  lemma MulCoeffAdditive(a: seq<int>, b: seq<int>, c: seq<int>, s: seq<int>, k: nat)
    requires forall j: nat :: Coeff(s, j) == Coeff(b, j) + Coeff(c, j)
    ensures MulCoeff(a, s, k) == MulCoeff(a, b, k) + MulCoeff(a, c, k)
  {
    forall i | 0 <= i < k + 1
      ensures Diagonal(a, s, k)(i) == Diagonal(a, b, k)(i) + Diagonal(a, c, k)(i)
    {
      DistributeProduct(Coeff(a, i), Coeff(b, k - i), Coeff(c, k - i), Coeff(s, k - i));
    }
    SigmaPlus(Diagonal(a, b, k), Diagonal(a, c, k), Diagonal(a, s, k), 0, k + 1);
  }

  lemma DistributeProduct(x: int, y: int, z: int, w: int)
    requires w == y + z
    ensures x * w == x * y + x * z
  {
  }

  /** Multiplication distributes over addition. */
  lemma MulDistributes(a: seq<int>, b: seq<int>, c: seq<int>)
    requires |a| >= 1 && |b| >= 1 && |c| >= 1
    ensures Normalize(Product(a, Normalize(Sum(b, c))))
            == Normalize(Sum(Normalize(Product(a, b)), Normalize(Product(a, c))))
  {
    var s := Normalize(Sum(b, c));
    var left := Product(a, s);
    var right := Sum(Normalize(Product(a, b)), Normalize(Product(a, c)));
    forall j: nat ensures Coeff(s, j) == Coeff(b, j) + Coeff(c, j) {
      AddCoefficients(b, c, j);
    }
    forall k: nat ensures Coeff(left, k) == Coeff(right, k) {
      MulCoeffAdditive(a, b, c, s, k);
      ProductCoeff(a, s, k);
      SumCoeff(Normalize(Product(a, b)), Normalize(Product(a, c)), k);
      NormalProductCoeff(a, b, k);
      NormalProductCoeff(a, c, k);
    }
    NormalizeByCoefficients(left, right);
  }

  /** (p, i) maps to a_p * b_(i-p) * c_(k-i) for p <= i <= k, and to zero elsewhere. */
  function TripleTerm(a: seq<int>, b: seq<int>, c: seq<int>, k: nat): (nat, nat) -> int {
    (p: nat, i: nat) => if p <= i <= k then Coeff(a, p) * Coeff(b, i - p) * Coeff(c, k - i) else 0
  }

  /** q maps to the triple term at (p, p + q). */
  function ShiftedRow(a: seq<int>, b: seq<int>, c: seq<int>, k: nat, p: nat): nat -> int {
    (q: nat) => TripleTerm(a, b, c, k)(p, p + q)
  }

  /** Coefficient k of (a * b) * c, grouped by the index i of the inner product. */
  lemma LeftGrouping(a: seq<int>, b: seq<int>, c: seq<int>, k: nat)
    requires |a| >= 1 && |b| >= 1
    ensures MulCoeff(Normalize(Product(a, b)), c, k) == Sigma(LowerSums(TripleTerm(a, b, c, k)), 0, k + 1)
  {
    var ab, F := Normalize(Product(a, b)), TripleTerm(a, b, c, k);
    forall i | 0 <= i < k + 1 ensures Diagonal(ab, c, k)(i) == LowerSums(F)(i) {
      LeftColumn(a, b, c, k, i);
    }
    SigmaExt(Diagonal(ab, c, k), LowerSums(F), 0, k + 1);
  }

  /** Term i of (a * b) * c is column i of the triple sum. */
  lemma LeftColumn(a: seq<int>, b: seq<int>, c: seq<int>, k: nat, i: nat)
    requires |a| >= 1 && |b| >= 1 && i <= k
    ensures Diagonal(Normalize(Product(a, b)), c, k)(i) == LowerSums(TripleTerm(a, b, c, k))(i)
  {
    var z := Coeff(c, k - i);
    ColumnSum(a, b, c, k, i);
    NormalProductCoeff(a, b, i);
    var x := MulCoeff(a, b, i);
    assert Diagonal(Normalize(Product(a, b)), c, k)(i) == x * z;
    assert x * z == z * x;
  }

  /** Column i of the triple sum adds up to c_(k-i) times coefficient i of a * b. */
  lemma ColumnSum(a: seq<int>, b: seq<int>, c: seq<int>, k: nat, i: nat)
    requires i <= k
    ensures LowerSums(TripleTerm(a, b, c, k))(i) == Coeff(c, k - i) * MulCoeff(a, b, i)
  {
    var F := TripleTerm(a, b, c, k);
    forall p | 0 <= p < i + 1 ensures Column(F, i)(p) == Coeff(c, k - i) * Diagonal(a, b, i)(p) {
      LeftTerm(a, b, c, k, i, p);
    }
    SigmaScale(Diagonal(a, b, i), Column(F, i), Coeff(c, k - i), 0, i + 1);
  }

  lemma LeftTerm(a: seq<int>, b: seq<int>, c: seq<int>, k: nat, i: nat, p: nat)
    requires p <= i <= k
    ensures Column(TripleTerm(a, b, c, k), i)(p) == Coeff(c, k - i) * Diagonal(a, b, i)(p)
  {
    Rearrange(Coeff(a, p), Coeff(b, i - p), Coeff(c, k - i));
  }

  lemma Rearrange(x: int, y: int, z: int)
    ensures x * y * z == z * (x * y) && x * y * z == x * (y * z)
  {
  }

  /** Coefficient k of a * (b * c), grouped by the index p of the outer factor. */
  lemma RightGrouping(a: seq<int>, b: seq<int>, c: seq<int>, k: nat)
    requires |b| >= 1 && |c| >= 1
    ensures MulCoeff(a, Normalize(Product(b, c)), k) == Sigma(UpperSums(TripleTerm(a, b, c, k), k + 1), 0, k + 1)
  {
    var bc, F := Normalize(Product(b, c)), TripleTerm(a, b, c, k);
    forall p | 0 <= p < k + 1 ensures Diagonal(a, bc, k)(p) == UpperSums(F, k + 1)(p) {
      RightRow(a, b, c, k, p);
    }
    SigmaExt(Diagonal(a, bc, k), UpperSums(F, k + 1), 0, k + 1);
  }

  /** Term p of a * (b * c) is row p of the triple sum. */
  lemma RightRow(a: seq<int>, b: seq<int>, c: seq<int>, k: nat, p: nat)
    requires |b| >= 1 && |c| >= 1 && p <= k
    ensures Diagonal(a, Normalize(Product(b, c)), k)(p) == UpperSums(TripleTerm(a, b, c, k), k + 1)(p)
  {
    RowSum(a, b, c, k, p);
    NormalProductCoeff(b, c, k - p);
  }

  /** Row p of the triple sum adds up to a_p times coefficient k - p of b * c. */
  lemma RowSum(a: seq<int>, b: seq<int>, c: seq<int>, k: nat, p: nat)
    requires p <= k
    ensures UpperSums(TripleTerm(a, b, c, k), k + 1)(p) == Coeff(a, p) * MulCoeff(b, c, k - p)
  {
    var F, row := TripleTerm(a, b, c, k), ShiftedRow(a, b, c, k, p);
    forall q | 0 <= q < k + 1 - p ensures row(q) == Coeff(a, p) * Diagonal(b, c, k - p)(q) {
      RightTerm(a, b, c, k, p, q);
    }
    SigmaScale(Diagonal(b, c, k - p), row, Coeff(a, p), 0, k + 1 - p);
    SigmaShift(Row(F, p), row, p, 0, k + 1 - p);
  }

  lemma RightTerm(a: seq<int>, b: seq<int>, c: seq<int>, k: nat, p: nat, q: nat)
    requires p + q <= k
    ensures ShiftedRow(a, b, c, k, p)(q) == Coeff(a, p) * Diagonal(b, c, k - p)(q)
  {
    var i := p + q;
    assert i - p == q && k - i == k - p - q;
    assert ShiftedRow(a, b, c, k, p)(q) == TripleTerm(a, b, c, k)(p, i);
    Rearrange(Coeff(a, p), Coeff(b, q), Coeff(c, k - p - q));
  }

  /** Multiplication of polynomials is associative. */
  lemma MulAssociates(a: seq<int>, b: seq<int>, c: seq<int>)
    requires |a| >= 1 && |b| >= 1 && |c| >= 1
    ensures Normalize(Product(Normalize(Product(a, b)), c))
            == Normalize(Product(a, Normalize(Product(b, c))))
  {
    var ab, bc := Normalize(Product(a, b)), Normalize(Product(b, c));
    forall k: nat ensures Coeff(Product(ab, c), k) == Coeff(Product(a, bc), k) {
      ProductCoeff(ab, c, k);
      ProductCoeff(a, bc, k);
      LeftGrouping(a, b, c, k);
      RightGrouping(a, b, c, k);
      TriangleExchange(TripleTerm(a, b, c, k), k + 1);
    }
    NormalizeByCoefficients(Product(ab, c), Product(a, bc));
  }
}
