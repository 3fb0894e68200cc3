/**
 * The list polynomial over the integers and the factory of its ring.
 *
 * A ListPolynomial keeps a reference to a Python-style list of coefficients
 * (CoefficientList) and normalises that very list in place when it is built, so
 * a caller that hands its own list to the constructor sees it trimmed. Every
 * arithmetic operation builds a fresh list and a fresh polynomial; nothing
 * changes an existing polynomial afterwards. The coefficient ring is the
 * integers, so the stored zero coefficient is 0.
 */
module Polynomials {
  import opened DenseCoefficients

  /** A list of coefficients that is shared by reference and changed in place. */
  class CoefficientList {
    var items: seq<int>

    constructor (items: seq<int>)
      ensures this.items == items
    {
      this.items := items;
    }
  }

  datatype Error = NotInvertible | IndexOutOfRange

  datatype Result<T> = Ok(value: T) | Err(error: Error)

  /** A polynomial with integer coefficients stored in ascending order of powers. */
  class ListPolynomial {
    const coefficients: CoefficientList

    /** The stored list is normal: non-empty, no trailing zero unless it is [0]. */
    predicate Valid()
      reads coefficients
    {
      IsNormal(coefficients.items)
    }

    /** The current contents of the stored list. */
    function Coefficients(): seq<int>
      reads coefficients
    {
      coefficients.items
    }

    /**
     * Takes the caller's list as its own and trims its trailing zeros in place:
     * the caller's list afterwards holds the normal form of what it held.
     */
    constructor (coefficientList: CoefficientList)
      requires |coefficientList.items| >= 1
      modifies coefficientList
      ensures coefficients == coefficientList
      ensures coefficientList.items == Normalize(old(coefficientList.items))
      ensures Valid()
    {
      coefficients := coefficientList;
      new;
      RemoveLeadingZeros();
    }

    /** Pops the highest coefficient while it is zero and more than one remains. */
    method RemoveLeadingZeros()
      requires |coefficients.items| >= 1
      modifies coefficients
      ensures coefficients.items == Normalize(old(coefficients.items))
      ensures IsNormal(coefficients.items)
    {
      while |coefficients.items| > 1 && coefficients.items[|coefficients.items| - 1] == 0
        invariant |coefficients.items| >= 1
        invariant Normalize(coefficients.items) == Normalize(old(coefficients.items))
        decreases |coefficients.items|
      {
        coefficients.items := coefficients.items[..|coefficients.items| - 1];
      }
    }

    /**
     * Length of the list minus one: every coefficient above the degree is zero and
     * the one at the degree is not, except that the zero polynomial reports 0.
     */
    function Degree(): (d: int)
      reads coefficients
      requires Valid()
      ensures d >= 0
      ensures forall k: nat :: k > d ==> Coeff(Coefficients(), k) == 0
      ensures d > 0 ==> Coeff(Coefficients(), d) != 0
    {
      DegreeIsLeadingIndex(coefficients.items);
      DenseCoefficients.Degree(coefficients.items)
    }

    /**
     * Indexing with Python's list semantics: a non-negative index counts from
     * the constant term, a negative one from the highest stored coefficient, and
     * an index outside the list fails.
     */
    function GetItem(index: int): (r: Result<int>)
      reads coefficients
      requires Valid()
      ensures r.Ok? <==> -|Coefficients()| <= index < |Coefficients()|
      ensures r.Ok? && index >= 0 ==> r.value == Coeff(Coefficients(), index)
      ensures r.Ok? && index < 0 ==> r.value == Coeff(Coefficients(), |Coefficients()| + index)
    {
      var n := |coefficients.items|;
      if 0 <= index < n then Ok(coefficients.items[index])
      else if -n <= index < 0 then Ok(coefficients.items[n + index])
      else Err(IndexOutOfRange)
    }

    /** Equal degrees and equal coefficients position by position: the same coefficient list. */
    predicate Equals(other: ListPolynomial)
      reads coefficients, other.coefficients
      requires Valid() && other.Valid()
      ensures Equals(other) <==> Coefficients() == other.Coefficients()
      ensures Equals(other) <==> forall k: nat :: Coeff(Coefficients(), k) == Coeff(other.Coefficients(), k)
    {
      EqualIsIdentity(coefficients.items, other.coefficients.items);
      EqualIffSameCoefficients(coefficients.items, other.coefficients.items);
      DenseCoefficients.Degree(coefficients.items) == DenseCoefficients.Degree(other.coefficients.items) &&
      Equal(coefficients.items, other.coefficients.items)
    }

    /** The sum: pad the shorter list with zeros, add position by position, normalise. */
    method Add(other: ListPolynomial) returns (r: ListPolynomial)
      requires Valid() && other.Valid()
      ensures fresh(r) && fresh(r.coefficients) && r.Valid()
      ensures r.Coefficients() == Normalize(Sum(Coefficients(), other.Coefficients()))
      ensures forall k: nat :: Coeff(r.Coefficients(), k) == Coeff(Coefficients(), k) + Coeff(other.Coefficients(), k)
    {
      var list := new CoefficientList(Sum(coefficients.items, other.coefficients.items));
      r := new ListPolynomial(list);
      forall k: nat
        ensures Coeff(r.Coefficients(), k) == Coeff(Coefficients(), k) + Coeff(other.Coefficients(), k)
      {
        AddCoefficients(Coefficients(), other.Coefficients(), k);
      }
    }

    /** The additive inverse: every coefficient negated; the degree is unchanged. */
    method Neg() returns (r: ListPolynomial)
      requires Valid()
      ensures fresh(r) && fresh(r.coefficients) && r.Valid()
      ensures r.Coefficients() == Negation(Coefficients())
      ensures r.Degree() == Degree()
    {
      NegationKeepsDegree(coefficients.items);
      var list := new CoefficientList(Negation(coefficients.items));
      r := new ListPolynomial(list);
    }

    /**
     * The schoolbook product: a zero-filled list of deg(self) + deg(other) + 2
     * slots accumulates self[i] * other[j] into slot i + j, then is normalised.
     */
    method Mul(other: ListPolynomial) returns (r: ListPolynomial)
      requires Valid() && other.Valid()
      ensures fresh(r) && fresh(r.coefficients) && r.Valid()
      ensures r.Coefficients() == Normalize(Product(Coefficients(), other.Coefficients()))
    {
      var a, b := coefficients.items, other.coefficients.items;
      var result := new int[Degree() + other.Degree() + 2](_ => 0);
      for i := 0 to |a|
        invariant forall k :: 0 <= k < result.Length ==> result[k] == Convolution(a, b, i, k)
      {
        for j := 0 to |b|
          invariant forall k :: 0 <= k < result.Length ==>
                      result[k] == Convolution(a, b, i, k) + (if i <= k < i + j then a[i] * b[k - i] else 0)
        {
          result[i + j] := result[i + j] + a[i] * b[j];
        }
      }
      assert result[..] == Product(a, b);
      var list := new CoefficientList(result[..]);
      r := new ListPolynomial(list);
    }

    /** A polynomial ring is not assumed to be a field: the inverse always fails. */
    function MultiplicativeInverse(): (r: Result<ListPolynomial>)
      ensures r.Err? && r.error == NotInvertible
    {
      Err(NotInvertible)
    }
  }

  /**
   * The ring factory's call: builds a polynomial from coefficients given in
   * ascending order, on a fresh list, so the caller's sequence is untouched.
   */
  method Make(coefficientList: seq<int>) returns (p: ListPolynomial)
    requires |coefficientList| >= 1
    ensures fresh(p) && fresh(p.coefficients) && p.Valid()
    ensures p.Coefficients() == Normalize(coefficientList)
    ensures forall k: nat :: Coeff(p.Coefficients(), k) == Coeff(coefficientList, k)
  {
    var list := new CoefficientList(coefficientList);
    p := new ListPolynomial(list);
    forall k: nat ensures Coeff(p.Coefficients(), k) == Coeff(coefficientList, k) {
      NormalizeKeepsCoefficients(coefficientList, k);
    }
  }
}
