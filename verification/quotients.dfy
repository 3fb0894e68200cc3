/**
 * Residue classes of the integers modulo a fixed positive modulus m: the
 * quotient ring Z/mZ, the instance of the toolkit's QuotientRing template with
 * the integers as source ring.
 *
 * An element stores its modulus (the parameter of the generated class) and the
 * canonical remainder of its representative. Every operation is a function
 * that builds a new element through the element constructor New, which reduces
 * again, exactly as the template re-wraps source-ring results.
 */
module Quotients {
  import opened Euclid

  /** A residue class: the modulus of its quotient ring and its stored remainder. */
  datatype Residue = Residue(modulus: int, remainder: int)

  /** The representation invariant the constructor establishes. */
  predicate Canonical(e: Residue) {
    e.modulus > 0 && 0 <= e.remainder < e.modulus
  }

  /** An element of the quotient ring with modulus m. */
  predicate In(e: Residue, m: int) {
    Canonical(e) && e.modulus == m
  }

  /** What the element constructor accepts: an element of the same ring, or a source-ring integer. */
  datatype Representative = Element(element: Residue) | Integer(value: int)

  /** Why an inverse does not exist. */
  datatype Error = ZeroHasNoInverse | NotRelativelyPrime

  datatype Result<T> = Ok(value: T) | Err(error: Error)

  /**
   * The element constructor: an element of the same ring is copied, a source-ring
   * integer is reduced modulo m.
   */
  function New(m: int, representative: Representative): (r: Residue)
    requires m > 0
    requires representative.Element? ==> In(representative.element, m)
    ensures In(r, m)
    ensures representative.Element? ==> r == representative.element
    ensures representative.Integer? ==> Congruent(representative.value, r.remainder, m)
  {
    match representative
    case Element(e) => Residue(e.modulus, e.remainder)
    case Integer(x) =>
      ModUnique(x - x % m, m, x / m, 0);
      Residue(m, x % m)
  }

  /** [x], the residue class of the integer x modulo m. */
  function Class(m: int, x: int): Residue
    requires m > 0
  {
    New(m, Integer(x))
  }

  /** The stored remainder: it lies in [0, m) and is a representative of its own class. */
  function Remainder(e: Residue): (r: int)
    requires Canonical(e)
    ensures 0 <= r < e.modulus
    ensures Class(e.modulus, r) == e
  {
    ModUnique(e.remainder, e.modulus, 0, e.remainder);
    e.remainder
  }

  /** Truth value of an element: true exactly when it is not the zero class. */
  function IsNonZero(e: Residue): (b: bool)
    requires Canonical(e)
    ensures b <==> e != Zero(e.modulus)
  {
    e.remainder != 0
  }

  /** Equality of residue classes compares the stored remainders. */
  function Equal(a: Residue, b: Residue): (eq: bool)
    requires Canonical(a) && In(b, a.modulus)
    ensures eq <==> a == b
    ensures eq <==> Congruent(a.remainder, b.remainder, a.modulus)
  {
    CongruentIffSameRemainder(a.remainder, b.remainder, a.modulus);
    ModUnique(a.remainder, a.modulus, 0, a.remainder);
    ModUnique(b.remainder, a.modulus, 0, b.remainder);
    a.remainder == b.remainder
  }

  /** The sum [x] + [y] = [x + y], computed on the remainders and reduced again. */
  function Add(a: Residue, b: Residue): (r: Residue)
    requires Canonical(a) && In(b, a.modulus)
    ensures In(r, a.modulus)
    ensures Congruent(r.remainder, a.remainder + b.remainder, a.modulus)
  {
    var r := New(a.modulus, Integer(a.remainder + b.remainder));
    CongruentIffSameRemainder(r.remainder, a.remainder + b.remainder, a.modulus);
    CongruentIffSameRemainder(a.remainder + b.remainder, r.remainder, a.modulus);
    r
  }

  /** The additive inverse -[x] = [-x]. */
  function Neg(a: Residue): (r: Residue)
    requires Canonical(a)
    ensures In(r, a.modulus)
    ensures Congruent(r.remainder, -a.remainder, a.modulus)
  {
    var r := New(a.modulus, Integer(-a.remainder));
    CongruentIffSameRemainder(r.remainder, -a.remainder, a.modulus);
    CongruentIffSameRemainder(-a.remainder, r.remainder, a.modulus);
    r
  }

  /** The product [x] * [y] = [x * y]. */
  function Mul(a: Residue, b: Residue): (r: Residue)
    requires Canonical(a) && In(b, a.modulus)
    ensures In(r, a.modulus)
    ensures Congruent(r.remainder, a.remainder * b.remainder, a.modulus)
  {
    var r := New(a.modulus, Integer(a.remainder * b.remainder));
    CongruentIffSameRemainder(r.remainder, a.remainder * b.remainder, a.modulus);
    CongruentIffSameRemainder(a.remainder * b.remainder, r.remainder, a.modulus);
    r
  }

  /** The neutral element of addition, the class of the source ring's zero. */
  function Zero(m: int): (z: Residue)
    requires m > 0
    ensures In(z, m) && z.remainder == 0
  {
    New(m, Integer(0))
  }

  /** The neutral element of multiplication, the class of the source ring's one. */
  function One(m: int): (u: Residue)
    requires m > 0
    ensures In(u, m)
    ensures u.remainder == if m == 1 then 0 else 1
  {
    New(m, Integer(1))
  }

  /**
   * The multiplicative inverse: fails for the zero class; otherwise runs the
   * extended Euclidean algorithm on the remainder and the modulus and returns
   * the class of the Bezout coefficient when the gcd is one.
   */
  function MultiplicativeInverse(e: Residue): (r: Result<Residue>)
    requires Canonical(e)
    ensures e.remainder == 0 <==> r == Err(ZeroHasNoInverse)
    ensures r.Ok? ==> In(r.value, e.modulus) && Mul(r.value, e) == One(e.modulus)
  {
    if e.remainder == 0 then
      Err(ZeroHasNoInverse)
    else
      var b := ExtendedEuclid(e.remainder, e.modulus);
      if b.gcd == 1 then
        var n := New(e.modulus, Integer(b.x));
        InverseFromBezout(e, b.x, b.y);
        Ok(n)
      else
        Err(NotRelativelyPrime)
  }

  /** self / other: self times the inverse of other; fails as that inverse fails. */
  function Div(a: Residue, b: Residue): (r: Result<Residue>)
    requires Canonical(a) && In(b, a.modulus)
    ensures r.Ok? <==> MultiplicativeInverse(b).Ok?
    ensures r.Err? ==> r.error == MultiplicativeInverse(b).error
    ensures r.Ok? ==> In(r.value, a.modulus) && Mul(r.value, b) == a
  {
    match MultiplicativeInverse(b)
    case Err(error) => Err(error)
    case Ok(inverse) =>
      var q := Mul(a, inverse);
      DivisionCancels(a, b, inverse);
      Ok(q)
  }

  /** The reflected division other / self: other times the inverse of self. */
  function RDiv(e: Residue, other: Residue): (r: Result<Residue>)
    requires Canonical(e) && In(other, e.modulus)
    ensures r.Ok? <==> MultiplicativeInverse(e).Ok?
    ensures r.Err? ==> r.error == MultiplicativeInverse(e).error
    ensures r.Ok? ==> In(r.value, e.modulus) && Mul(r.value, e) == other
  {
    match MultiplicativeInverse(e)
    case Err(error) => Err(error)
    case Ok(inverse) =>
      var q := Mul(other, inverse);
      DivisionCancels(other, e, inverse);
      Ok(q)
  }

  /** A binary operator's other operand after the constructor has coerced it into the ring. */
  function Cast(m: int, other: Representative): (r: Residue)
    requires m > 0
    requires other.Element? ==> In(other.element, m)
    ensures In(r, m)
    ensures other.Element? ==> r == other.element
    ensures other.Integer? ==> r.remainder == other.value % m
  {
    if other.Integer? then ClassRemainder(m, other.value); New(m, other) else New(m, other)
  }

  /** e has an inverse in its ring. */
  ghost predicate IsUnit(e: Residue)
    requires Canonical(e)
  {
    exists n :: In(n, e.modulus) && Mul(n, e) == One(e.modulus)
  }

  // ---------------------------------------------------------------------------
  // Lemmas
  // ---------------------------------------------------------------------------

  /** Two elements of one ring with congruent remainders are the same element. */
  lemma CanonicalUnique(a: Residue, b: Residue)
    requires Canonical(a) && In(b, a.modulus)
    requires Congruent(a.remainder, b.remainder, a.modulus)
    ensures a == b
  {
    CongruentIffSameRemainder(a.remainder, b.remainder, a.modulus);
    ModUnique(a.remainder, a.modulus, 0, a.remainder);
    ModUnique(b.remainder, a.modulus, 0, b.remainder);
  }

  /** The class of x has the remainder x % m. */
  lemma ClassRemainder(m: int, x: int)
    requires m > 0
    ensures Class(m, x).remainder == x % m
  {
    var c := Class(m, x);
    CongruentIffSameRemainder(x, c.remainder, m);
    ModUnique(c.remainder, m, 0, c.remainder);
  }

  /** [x] == [y] exactly when x and y are congruent modulo m. */
  lemma {:induction false} EqualIffCongruent(m: int, x: int, y: int)
    requires m > 0
    ensures Equal(Class(m, x), Class(m, y)) <==> Congruent(x, y, m)
  {
    ClassRemainder(m, x);
    ClassRemainder(m, y);
    CongruentIffSameRemainder(x, y, m);
  }

  /** The canonical homomorphism respects addition: [x] + [y] == [x + y]. */
  lemma AddHomomorphism(m: int, x: int, y: int)
    requires m > 0
    ensures Add(Class(m, x), Class(m, y)) == Class(m, x + y)
  {
    ClassRemainder(m, x);
    ClassRemainder(m, y);
    ClassRemainder(m, x % m + y % m);
    ClassRemainder(m, x + y);
    ModOfSum(x, y, m);
  }

  /** The canonical homomorphism respects multiplication: [x] * [y] == [x * y]. */
  lemma MulHomomorphism(m: int, x: int, y: int)
    requires m > 0
    ensures Mul(Class(m, x), Class(m, y)) == Class(m, x * y)
  {
    ClassRemainder(m, x);
    ClassRemainder(m, y);
    ClassRemainder(m, (x % m) * (y % m));
    ClassRemainder(m, x * y);
    ModOfProduct(x, y, m);
  }

  /** The canonical homomorphism respects negation: -[x] == [-x]. */
  lemma NegHomomorphism(m: int, x: int)
    requires m > 0
    ensures Neg(Class(m, x)) == Class(m, -x)
  {
    ClassRemainder(m, x);
    ClassRemainder(m, -(x % m));
    ClassRemainder(m, -x);
    ModOfNegation(x, m);
  }

  /** Every element is the class of its remainder. */
  lemma ClassOfRemainder(e: Residue)
    requires Canonical(e)
    ensures Class(e.modulus, e.remainder) == e
  {
    ModUnique(e.remainder, e.modulus, 0, e.remainder);
  }

  /** x + (-x) is the zero class. */
  lemma AddNegIsZero(a: Residue)
    requires Canonical(a)
    ensures Add(a, Neg(a)) == Zero(a.modulus)
  {
    var m := a.modulus;
    ClassOfRemainder(a);
    NegHomomorphism(m, a.remainder);
    AddHomomorphism(m, a.remainder, -a.remainder);
  }

  lemma AddCommutes(a: Residue, b: Residue)
    requires Canonical(a) && In(b, a.modulus)
    ensures Add(a, b) == Add(b, a)
  {
    var m := a.modulus;
    ClassOfRemainder(a);
    ClassOfRemainder(b);
    AddHomomorphism(m, a.remainder, b.remainder);
    AddHomomorphism(m, b.remainder, a.remainder);
  }

  lemma AddAssociates(a: Residue, b: Residue, c: Residue)
    requires Canonical(a) && In(b, a.modulus) && In(c, a.modulus)
    ensures Add(Add(a, b), c) == Add(a, Add(b, c))
  {
    var m, x, y, z := a.modulus, a.remainder, b.remainder, c.remainder;
    ClassOfRemainder(a);
    ClassOfRemainder(b);
    ClassOfRemainder(c);
    AddHomomorphism(m, x, y);
    AddHomomorphism(m, x + y, z);
    AddHomomorphism(m, y, z);
    AddHomomorphism(m, x, y + z);
    assert (x + y) + z == x + (y + z);
  }

  lemma AddZeroIsIdentity(a: Residue)
    requires Canonical(a)
    ensures Add(a, Zero(a.modulus)) == a
  {
    ClassOfRemainder(a);
    AddHomomorphism(a.modulus, a.remainder, 0);
  }

  lemma MulCommutes(a: Residue, b: Residue)
    requires Canonical(a) && In(b, a.modulus)
    ensures Mul(a, b) == Mul(b, a)
  {
    var m := a.modulus;
    ClassOfRemainder(a);
    ClassOfRemainder(b);
    MulHomomorphism(m, a.remainder, b.remainder);
    MulHomomorphism(m, b.remainder, a.remainder);
    assert a.remainder * b.remainder == b.remainder * a.remainder;
  }

  lemma MulAssociates(a: Residue, b: Residue, c: Residue)
    requires Canonical(a) && In(b, a.modulus) && In(c, a.modulus)
    ensures Mul(Mul(a, b), c) == Mul(a, Mul(b, c))
  {
    var m, x, y, z := a.modulus, a.remainder, b.remainder, c.remainder;
    ClassOfRemainder(a);
    ClassOfRemainder(b);
    ClassOfRemainder(c);
    MulHomomorphism(m, x, y);
    MulHomomorphism(m, x * y, z);
    MulHomomorphism(m, y, z);
    MulHomomorphism(m, x, y * z);
    assert (x * y) * z == x * (y * z);
  }

  lemma MulOneIsIdentity(a: Residue)
    requires Canonical(a)
    ensures Mul(a, One(a.modulus)) == a
  {
    ClassOfRemainder(a);
    MulHomomorphism(a.modulus, a.remainder, 1);
  }

  lemma MulDistributes(a: Residue, b: Residue, c: Residue)
    requires Canonical(a) && In(b, a.modulus) && In(c, a.modulus)
    ensures Mul(a, Add(b, c)) == Add(Mul(a, b), Mul(a, c))
  {
    var m, x, y, z := a.modulus, a.remainder, b.remainder, c.remainder;
    ClassOfRemainder(a);
    ClassOfRemainder(b);
    ClassOfRemainder(c);
    var xy, xz := x * y, x * z;
    assert x * (y + z) == xy + xz;
    calc {
      Mul(a, Add(b, c));
      { AddHomomorphism(m, y, z); }
      Mul(Class(m, x), Class(m, y + z));
      { MulHomomorphism(m, x, y + z); }
      Class(m, xy + xz);
      { AddHomomorphism(m, xy, xz); }
      Add(Class(m, xy), Class(m, xz));
      { MulHomomorphism(m, x, y); MulHomomorphism(m, x, z); }
      Add(Mul(a, b), Mul(a, c));
    }
  }

  /** A Bezout identity r*x + m*y == 1 makes [x] the inverse of [r]. */
  lemma InverseFromBezout(e: Residue, x: int, y: int)
    requires Canonical(e)
    requires e.remainder * x + e.modulus * y == 1
    ensures Mul(Class(e.modulus, x), e) == One(e.modulus)
  {
    var m := e.modulus;
    ClassOfRemainder(e);
    MulHomomorphism(m, x, e.remainder);
    assert x * e.remainder == 1 + (-y) * m;
    ModAddMultiple(1, -y, m);
    ClassRemainder(m, x * e.remainder);
    ClassRemainder(m, 1);
  }

  /** If q == a * inverse(b) then q * b == a. */
  lemma DivisionCancels(a: Residue, b: Residue, inverse: Residue)
    requires Canonical(a) && In(b, a.modulus) && In(inverse, a.modulus)
    requires Mul(inverse, b) == One(a.modulus)
    ensures Mul(Mul(a, inverse), b) == a
  {
    MulAssociates(a, inverse, b);
    MulOneIsIdentity(a);
  }

  /** An element whose remainder shares a factor g != 1 with the modulus has no inverse. */
  lemma CommonFactorExcludesInverse(e: Residue, g: int, n: Residue)
    requires Canonical(e) && In(n, e.modulus)
    requires g >= 0 && g != 1 && Divides(g, e.remainder) && Divides(g, e.modulus)
    ensures Mul(n, e) != One(e.modulus)
  {
    if Mul(n, e) == One(e.modulus) {
      var k := InverseGivesBezout(e, n);
      LinearCombinationDivisor(g, e.remainder, e.modulus, n.remainder, k);
      DividesOne(g);
      assert false;
    }
  }

  /** If [x] * [r] == one then r*x + m*k == 1 for some k. */
  lemma InverseGivesBezout(e: Residue, n: Residue) returns (k: int)
    requires Canonical(e) && In(n, e.modulus)
    requires Mul(n, e) == One(e.modulus)
    ensures e.remainder * n.remainder + e.modulus * k == 1
  {
    var m := e.modulus;
    var p := n.remainder * e.remainder;
    var r := Mul(n, e).remainder;
    CongruentIffSameRemainder(r, p, m);
    ModUnique(r, m, 0, r);
    ClassRemainder(m, 1);
    CongruentIffSameRemainder(1, p, m);
    assert Congruent(1, p, m);
    k := (1 - p) / m;
    assert 1 - p == k * m;
  }

  /**
   * For a modulus greater than one, the inverse exists exactly for the units:
   * it fails for the zero class and for every remainder sharing a factor with m.
   */
  lemma {:induction false} InverseExactlyForUnits(e: Residue)
    requires Canonical(e) && e.modulus > 1
    ensures MultiplicativeInverse(e).Ok? <==> IsUnit(e)
  {
    var m := e.modulus;
    var r := MultiplicativeInverse(e);
    if r.Ok? {
      assert In(r.value, m) && Mul(r.value, e) == One(m);
    } else if e.remainder == 0 {
      forall n | In(n, m) ensures Mul(n, e) != One(m) {
        assert Divides(m, e.remainder) by { assert e.remainder == m * 0; }
        assert Divides(m, m) by { assert m == m * 1; }
        CommonFactorExcludesInverse(e, m, n);
      }
    } else {
      var b := ExtendedEuclid(e.remainder, m);
      assert b.gcd != 1;
      forall n | In(n, m) ensures Mul(n, e) != One(m) {
        CommonFactorExcludesInverse(e, b.gcd, n);
      }
    }
  }

  /** A non-zero element fails with NotRelativelyPrime exactly when gcd(remainder, m) is not one. */
  lemma NotRelativelyPrimeWhenCommonFactor(e: Residue, g: int)
    requires Canonical(e) && e.remainder != 0
    requires g >= 0 && g != 1 && Divides(g, e.remainder) && Divides(g, e.modulus)
    ensures MultiplicativeInverse(e) == Err(NotRelativelyPrime)
  {
    var b := ExtendedEuclid(e.remainder, e.modulus);
    GcdIsGreatest(e.remainder, e.modulus, g);
    if b.gcd == 1 {
      DividesOne(g);
    }
  }

  /**
   * The trivial ring Z/1Z: its one is its zero, so zero is a unit there, yet the
   * inverse fails because the zero test comes first.
   */
  lemma TrivialRingInverse()
    ensures One(1) == Zero(1)
    ensures IsUnit(Zero(1))
    ensures MultiplicativeInverse(Zero(1)) == Err(ZeroHasNoInverse)
  {
    assert Mul(Zero(1), Zero(1)) == One(1);
  }

  /** Dividing by a unit and multiplying back gives the dividend. */
  lemma DivisionByUnit(a: Residue, b: Residue)
    requires Canonical(a) && In(b, a.modulus) && a.modulus > 1 && IsUnit(b)
    ensures Div(a, b).Ok? && Mul(Div(a, b).value, b) == a
  {
    InverseExactlyForUnits(b);
  }

  /** The reflected division other / self is the ordinary division with the operands swapped. */
  lemma RDivIsSwappedDiv(e: Residue, other: Residue)
    requires Canonical(e) && In(other, e.modulus)
    ensures RDiv(e, other) == Div(other, e)
  {
  }

  /** A raw integer operand is first wrapped by the constructor: a + x == a + [x]. */
  lemma MixedOperandAdd(a: Residue, x: int)
    requires Canonical(a)
    ensures Add(a, Cast(a.modulus, Integer(x))) == Add(a, Class(a.modulus, x))
    ensures Add(a, Cast(a.modulus, Integer(x))) == Class(a.modulus, a.remainder + x)
  {
    ClassOfRemainder(a);
    AddHomomorphism(a.modulus, a.remainder, x);
  }

  /** The class-level example for Z/4Z: [1] + [3] == [0] == [2] * 2. */
  lemma Z4Example()
    ensures Add(Class(4, 1), Class(4, 3)) == Class(4, 0)
    ensures Class(4, 0) == Mul(Class(4, 2), Cast(4, Integer(2)))
    ensures Mul(Class(4, 2), Class(4, 2)) == Zero(4)
  {
    AddHomomorphism(4, 1, 3);
    MulHomomorphism(4, 2, 2);
    ClassRemainder(4, 4);
  }

  /** An element has at most one inverse. */
  lemma InverseUnique(e: Residue, n: Residue, n': Residue)
    requires Canonical(e) && In(n, e.modulus) && In(n', e.modulus)
    requires Mul(n, e) == One(e.modulus) && Mul(n', e) == One(e.modulus)
    ensures n == n'
  {
    var m := e.modulus;
    calc {
      n;
      { MulOneIsIdentity(n); }
      Mul(n, One(m));
      { MulCommutes(n', e); }
      Mul(n, Mul(e, n'));
      { MulAssociates(n, e, n'); }
      Mul(One(m), n');
      { MulCommutes(One(m), n'); MulOneIsIdentity(n'); }
      n';
    }
  }

  /**
   * In Z/5Z the inverse of [3] is [2]. The proof uses only the contract of the
   * extended Euclidean algorithm: its gcd of 3 and 5 is non-negative and divides
   * 3 * (-3) + 5 * 2 == 1, so it is 1.
   */
  lemma Z5InverseExample()
    ensures MultiplicativeInverse(Class(5, 3)) == Ok(Class(5, 2))
  {
    var e := Class(5, 3);
    ClassRemainder(5, 3);
    var b := ExtendedEuclid(3, 5);
    LinearCombinationDivisor(b.gcd, 3, 5, -3, 2);
    DividesOne(b.gcd);
    var r := MultiplicativeInverse(e);
    assert r.Ok?;
    MulHomomorphism(5, 2, 3);
    ClassRemainder(5, 6);
    ClassRemainder(5, 1);
    CanonicalUnique(Class(5, 6), One(5));
    InverseUnique(e, r.value, Class(5, 2));
  }

  /** In Z/4Z, [2] has no inverse: 2 and 4 are not relatively prime. */
  lemma Z4NonUnitExample()
    ensures MultiplicativeInverse(Class(4, 2)) == Err(NotRelativelyPrime)
    ensures !IsUnit(Class(4, 2))
  {
    ClassRemainder(4, 2);
    var e := Class(4, 2);
    assert Divides(2, e.remainder) by { assert e.remainder == 2 * 1; }
    assert Divides(2, e.modulus) by { assert e.modulus == 2 * 2; }
    NotRelativelyPrimeWhenCommonFactor(e, 2);
    InverseExactlyForUnits(e);
  }
}
