/**
 * Integer arithmetic the residue-class ring rests on: divisibility, congruence
 * modulo a positive modulus, and the extended Euclidean algorithm.
 *
 * The extended Euclidean algorithm of the toolkit lives in a support module that
 * is not part of this model; ExtendedEuclid below is a stand-in written for the
 * integers. It is specified by its contract (Bezout identity, common divisor,
 * greatest among common divisors) and does not claim to follow that code.
 */
module Euclid {

  /** d divides n. */
  ghost predicate Divides(d: int, n: int) {
    exists k :: n == d * k
  }

  /** x and y lie in the same residue class modulo m. */
  predicate Congruent(x: int, y: int, m: int)
    requires m > 0
  {
    (x - y) % m == 0
  }

  /** Division with remainder has exactly one result with the remainder in [0, m). */
  lemma ModUnique(x: int, m: int, q: int, r: int)
    requires m > 0 && 0 <= r < m && x == q * m + r
    ensures x % m == r && x / m == q
  {
    var d := q - x / m;
    assert d * m == x % m - r;
  }

  /** Adding a multiple of the modulus does not change the remainder. */
  lemma ModAddMultiple(x: int, k: int, m: int)
    requires m > 0
    ensures (x + k * m) % m == x % m
  {
    ModUnique(x + k * m, m, x / m + k, x % m);
  }

  /** Congruence is equality of canonical remainders. */
  lemma CongruentIffSameRemainder(x: int, y: int, m: int)
    requires m > 0
    ensures Congruent(x, y, m) <==> x % m == y % m
  {
    if x % m == y % m {
      ModUnique(x - y, m, x / m - y / m, 0);
    }
    if Congruent(x, y, m) {
      var k := (x - y) / m;
      assert x == y + k * m;
      ModAddMultiple(y, k, m);
    }
  }

  /** Reducing the summands first gives the same remainder as reducing the sum. */
  lemma ModOfSum(x: int, y: int, m: int)
    requires m > 0
    ensures (x % m + y % m) % m == (x + y) % m
  {
    assert x + y == (x % m + y % m) + (x / m + y / m) * m;
    ModAddMultiple(x % m + y % m, x / m + y / m, m);
  }

  /** Reducing the factors first gives the same remainder as reducing the product. */
  lemma ModOfProduct(x: int, y: int, m: int)
    requires m > 0
    ensures (x % m * (y % m)) % m == (x * y) % m
  {
    var qx, rx, qy, ry := x / m, x % m, y / m, y % m;
    var k := ProductSplit(qx, rx, qy, ry, m);
    assert x * y == rx * ry + k * m;
    ModAddMultiple(rx * ry, k, m);
  }

  /** (qx*m + rx) * (qy*m + ry) is rx*ry plus a multiple of m. */
  lemma ProductSplit(qx: int, rx: int, qy: int, ry: int, m: int) returns (k: int)
    ensures (qx * m + rx) * (qy * m + ry) == rx * ry + k * m
  {
    k := qx * qy * m + qx * ry + rx * qy;
    var a, b := qx * m, qy * m;
    assert (a + rx) * (b + ry) == a * b + a * ry + rx * b + rx * ry;
    assert a * b == (qx * qy * m) * m;
    assert a * ry == (qx * ry) * m;
    assert rx * b == (rx * qy) * m;
  }

  /** Negating the remainder and reducing gives the remainder of the negation. */
  lemma ModOfNegation(x: int, m: int)
    requires m > 0
    ensures (-(x % m)) % m == (-x) % m
  {
    assert -x == -(x % m) + (-(x / m)) * m;
    ModAddMultiple(-(x % m), -(x / m), m);
  }

  /** The three results of the extended Euclidean algorithm. */
  datatype Bezout = Bezout(x: int, y: int, gcd: int)

  function Abs(n: int): nat {
    if n < 0 then -n else n
  }

  /**
   * Stand-in for the toolkit's extended Euclidean algorithm on integers:
   * returns x, y and g with a*x + b*y == g, where g divides both a and b
   * (and so, by GcdIsGreatest, is a greatest common divisor).
   */
  function ExtendedEuclid(a: int, b: int): (r: Bezout)
    ensures a * r.x + b * r.y == r.gcd
    ensures Divides(r.gcd, a) && Divides(r.gcd, b)
    ensures a >= 0 && b >= 0 ==> r.gcd >= 0
    decreases Abs(b)
  {
    if b == 0 then
      assert a == a * 1 && b == a * 0;
      Bezout(1, 0, a)
    else
      var q, rem := a / b, a % b;
      var s := ExtendedEuclid(b, rem);
      BezoutStep(a, b, s.x, s.y, s.gcd);
      DividesStep(s.gcd, a, b);
      Bezout(s.y, s.x - q * s.y, s.gcd)
  }

  /** One step back up the recursion keeps the Bezout identity. */
  lemma BezoutStep(a: int, b: int, x: int, y: int, g: int)
    requires b != 0
    requires b * x + (a % b) * y == g
    ensures a * y + b * (x - (a / b) * y) == g
  {
    var q := a / b;
    calc {
      a * y + b * (x - q * y);
      (q * b + a % b) * y + b * x - b * q * y;
      b * x + (a % b) * y;
    }
  }

  /** A common divisor of b and a % b divides a. */
  lemma DividesStep(g: int, a: int, b: int)
    requires b != 0
    requires Divides(g, b) && Divides(g, a % b)
    ensures Divides(g, a)
  {
    LinearCombinationDivisor(g, b, a % b, a / b, 1);
    assert b * (a / b) + (a % b) * 1 == a;
  }

  /** Every common divisor of a and b divides the gcd the algorithm returns. */
  lemma GcdIsGreatest(a: int, b: int, d: int)
    requires Divides(d, a) && Divides(d, b)
    ensures Divides(d, ExtendedEuclid(a, b).gcd)
  {
    var r := ExtendedEuclid(a, b);
    LinearCombinationDivisor(d, a, b, r.x, r.y);
  }

  /** A common divisor of a and b divides every a*s + b*t. */
  lemma LinearCombinationDivisor(g: int, a: int, b: int, s: int, t: int)
    requires Divides(g, a) && Divides(g, b)
    ensures Divides(g, a * s + b * t)
  {
    var ka :| a == g * ka;
    var kb :| b == g * kb;
    assert a * s == g * (ka * s);
    assert b * t == g * (kb * t);
    assert a * s + b * t == g * (ka * s + kb * t);
  }

  /** The only non-negative divisor of 1 is 1. */
  lemma DividesOne(g: int)
    requires g >= 0 && Divides(g, 1)
    ensures g == 1
  {
    var k :| 1 == g * k;
  }
}
