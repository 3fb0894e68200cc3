# Quotient rings and list polynomials, verified in Dafny

This project models two exact-arithmetic constructions from the python-schoof toolkit: the residue-class ring `QuotientRing` and the dense list polynomial `ListPolynomial` with its ring factory `PolynomialRing`. Both are instantiated over the integers.

- `quotients.dfy` (module `Quotients`) models `QuotientRing` as Z/mZ with a positive modulus `m`. An element is the value `Residue(modulus, remainder)`. The constructor `New` copies an element of the same ring, or stores `x % m` for an integer `x`. Sum, negation and product apply integer arithmetic to the remainders and then re-wrap through `New`, as the source does. `MultiplicativeInverse` fails on the zero class, and fails again when the gcd that the extended Euclidean algorithm returns is not one. Division multiplies by that inverse. `remainder()` and `modulus()` are the datatype's fields. `Remainder` also states that the stored remainder is a representative of its own class.
- `euclid.dfy` (module `Euclid`) holds the divisibility and congruence facts that the quotient ring relies on. It also holds `ExtendedEuclid`. The toolkit's own `extended_euclidean_algorithm` comes from `support.rings`, which is not part of this model. `ExtendedEuclid` is a stand-in written for the integers and is not a transcription of that code. It is specified by the Bezout identity `a*x + b*y == g`, by `g` dividing both inputs, and by `GcdIsGreatest`.
- `coefficients.dfy` (module `DenseCoefficients`) gives the value-level meaning of a list polynomial as a `seq<int>` in ascending order. It covers normalisation, the padded sum, negation and the convolution product, with lemmas about each.
- `ring_laws.dfy` (module `PolynomialRingLaws`) proves the ring laws for these lists: addition associates, `[1]` is neutral for multiplication, and multiplication commutes, associates and distributes over addition. Each law is stated on the normalised lists that `+` and `*` return. The proofs read coefficient k of a product as a finite sum over the diagonal i + j == k. The finite sums and their rules live in `sums.dfy` (module `Sums`).
- `polynomials.dfy` (module `Polynomials`) holds the imperative part. `CoefficientList` is the Python list. A `ListPolynomial` keeps a reference to that list. Its constructor trims trailing zeros from the list in place with a `while` loop, so a caller who passes in their own list sees it trimmed. `Mul` accumulates into a zero-filled array of `deg(a) + deg(b) + 2` slots with nested `for` loops, and is proved against the convolution formula. `Make` is the factory call `PolynomialRing.__call__`. It always builds a fresh list.

Behaviours of the source that the model keeps:
- The zero polynomial reports degree 0. `degree()` is the length minus one.
- The product list has one slot more than the product can fill. Its top slot is always zero before normalisation (`ProductTopSlotIsZero`).
- In the trivial ring Z/1Z, one equals zero, so zero is a unit there. `multiplicative_inverse` still fails, because the zero test comes first (`TrivialRingInverse`). For every modulus above one, the inverse exists exactly for the units (`InverseExactlyForUnits`).
- `__getitem__` uses Python list indexing. A negative index counts from the highest stored coefficient, and an index outside the list fails (`GetItem`). Reads past the end are not padded with zero; only `Coeff`, the specification's reading of a list as a polynomial, does that.
- The source raises `ZeroDivisionError` for a missing inverse in the quotient ring and `TypeError` for the polynomial inverse. The model gives these as `Err(ZeroHasNoInverse)` / `Err(NotRelativelyPrime)` and as `Err(NotInvertible)`.

## Model

| member | source | states |
|---|---|---|
| `Quotients.New` | pyschoof/rings/quotients/naive.py:101-114 | the result lies in [0, m) with the modulus m; an element of the same ring is copied unchanged; for an integer, the stored remainder is congruent to the integer modulo m |
| `Quotients.Remainder` | pyschoof/rings/quotients/naive.py:116-121 | the remainder lies in [0, m), and wrapping it again gives back the same element |
| `Quotients.IsNonZero` | pyschoof/rings/quotients/naive.py:123-136 | true exactly when the element is not the zero class |
| `Quotients.Equal` | pyschoof/rings/quotients/naive.py:138-149 | comparing remainders is true exactly when the elements are identical, and exactly when the remainders are congruent modulo m |
| `Quotients.EqualIffCongruent` | pyschoof/rings/quotients/naive.py:144-149 | [x] == [y] if and only if x and y are congruent modulo m |
| `Quotients.Add` | pyschoof/rings/quotients/naive.py:151-161 | the sum is an element of the same ring, and its remainder is congruent to the sum of the two remainders |
| `Quotients.AddHomomorphism` | pyschoof/rings/quotients/naive.py:151-161 | [x] + [y] == [x + y] for all integers x and y |
| `Quotients.Neg` | pyschoof/rings/quotients/naive.py:163-169 | the negation is an element of the same ring, and its remainder is congruent to minus the remainder |
| `Quotients.NegHomomorphism` | pyschoof/rings/quotients/naive.py:163-169 | -[x] == [-x] for every integer x |
| `Quotients.AddNegIsZero` | pyschoof/rings/quotients/naive.py:163-169 | a + (-a) is the zero class |
| `Quotients.Mul` | pyschoof/rings/quotients/naive.py:171-181 | the product is an element of the same ring, and its remainder is congruent to the product of the two remainders |
| `Quotients.MulHomomorphism` | pyschoof/rings/quotients/naive.py:171-181 | [x] * [y] == [x * y] for all integers x and y |
| `Quotients.Zero` | pyschoof/rings/quotients/naive.py:250-256 | the zero class is an element of the ring with remainder 0 |
| `Quotients.One` | pyschoof/rings/quotients/naive.py:258-264 | the one class has remainder 1, or remainder 0 when m == 1 |
| `Quotients.AddCommutes` | pyschoof/rings/quotients/naive.py:68-73 | addition of residue classes is commutative |
| `Quotients.AddAssociates` | pyschoof/rings/quotients/naive.py:68-73 | addition of residue classes is associative |
| `Quotients.AddZeroIsIdentity` | pyschoof/rings/quotients/naive.py:250-256 | zero() is neutral for addition |
| `Quotients.MulCommutes` | pyschoof/rings/quotients/naive.py:68-73 | multiplication of residue classes is commutative |
| `Quotients.MulAssociates` | pyschoof/rings/quotients/naive.py:68-73 | multiplication of residue classes is associative |
| `Quotients.MulOneIsIdentity` | pyschoof/rings/quotients/naive.py:258-264 | one() is neutral for multiplication |
| `Quotients.MulDistributes` | pyschoof/rings/quotients/naive.py:68-73 | multiplication distributes over addition |
| `Quotients.MultiplicativeInverse` | pyschoof/rings/quotients/naive.py:212-231 | fails with ZeroHasNoInverse exactly for the zero class; a returned n lies in the ring and satisfies n * self == one() |
| `Quotients.InverseExactlyForUnits` | pyschoof/rings/quotients/naive.py:212-231 | for m > 1, the inverse succeeds if and only if some element n of the ring has n * self == one() |
| `Quotients.CommonFactorExcludesInverse` | pyschoof/rings/quotients/naive.py:226-231 | if the remainder and m share a non-negative factor other than 1, then no n has n * self == one() |
| `Quotients.NotRelativelyPrimeWhenCommonFactor` | pyschoof/rings/quotients/naive.py:223-231 | a non-zero element whose remainder shares such a factor with m fails with NotRelativelyPrime |
| `Quotients.TrivialRingInverse` | pyschoof/rings/quotients/naive.py:220-221 | in Z/1Z, one equals zero and zero is a unit, yet the inverse of zero fails with ZeroHasNoInverse |
| `Quotients.Div` | pyschoof/rings/quotients/naive.py:183-195 | self / other succeeds exactly when other's inverse does, and fails with the same error; a quotient q satisfies q * other == self |
| `Quotients.DivisionByUnit` | pyschoof/rings/quotients/naive.py:183-195 | for m > 1, dividing by any unit succeeds and multiplying back gives the dividend |
| `Quotients.RDiv` | pyschoof/rings/quotients/naive.py:197-210 | other / self succeeds exactly when self's inverse does, and fails with the same error; a quotient q satisfies q * self == other |
| `Quotients.RDivIsSwappedDiv` | pyschoof/rings/quotients/naive.py:197-210 | the reflected division equals the ordinary division with the operands swapped |
| `Quotients.Cast` | pyschoof/rings/quotients/naive.py:88-93 | a foreign operand is coerced through the constructor: an integer x is stored as the remainder x % m, and an element of the ring is kept as it is |
| `Quotients.MixedOperandAdd` | pyschoof/rings/quotients/naive.py:88-93 | a + x for a raw integer x equals a + [x], which equals [remainder + x] |
| `Quotients.Z4Example` | pyschoof/rings/quotients/naive.py:48-54 | in Z/4Z: [1] + [3] == [0] == [2] * 2, and [2] * [2] is zero |
| `Quotients.InverseUnique` | pyschoof/rings/quotients/naive.py:212-231 | two elements n and n' with n * e == one() and n' * e == one() are equal, so the inverse is the only one |
| `Quotients.Z5InverseExample` | pyschoof/rings/quotients/naive.py:212-227 | in Z/5Z the inverse of [3] is [2], derived from the extended Euclidean algorithm's contract alone |
| `Quotients.Z4NonUnitExample` | pyschoof/rings/quotients/naive.py:226-231 | in Z/4Z, [2] fails with NotRelativelyPrime and is not a unit |
| `Euclid.ExtendedEuclid` | pyschoof/rings/quotients/naive.py:223-224 | stand-in: a*x + b*y == g, g divides both a and b, and g >= 0 for non-negative inputs |
| `Euclid.GcdIsGreatest` | pyschoof/rings/quotients/naive.py:223-226 | every common divisor of a and b divides the g that is returned, so g is a greatest common divisor |
| `DenseCoefficients.Normalize` | polynomials/naive.py:104-107 | the result is normal and is a prefix of the input, and every entry it dropped was zero |
| `DenseCoefficients.NormalizeIdempotent` | polynomials/naive.py:104-107 | a normal list is left unchanged, so normalising twice equals normalising once |
| `DenseCoefficients.NormalizeKeepsCoefficients` | polynomials/naive.py:104-107 | normalisation keeps every coefficient, with missing entries read as zero |
| `DenseCoefficients.NormalUnique` | polynomials/naive.py:43-48 | two normal lists that agree on every coefficient are the same list |
| `DenseCoefficients.TrailingZeros` | polynomials/naive.py:104-107 | appending any number of zeros gives the same normal form, the same degree, and lists that compare equal |
| `DenseCoefficients.DegreeIsLeadingIndex` | polynomials/naive.py:51-53 | all coefficients above the degree are zero, and the coefficient at a positive degree is non-zero |
| `DenseCoefficients.ZeroPolynomialExample` | polynomials/naive.py:51-53 | the zero polynomial has degree 0, and [0, 0, 0] normalises to [0] and compares equal to it |
| `DenseCoefficients.EqualIsIdentity` | polynomials/naive.py:60-69 | the degree-then-positions comparison holds if and only if the lists are identical |
| `DenseCoefficients.EqualIffSameCoefficients` | polynomials/naive.py:60-69 | for normal lists, the comparison holds if and only if every coefficient agrees |
| `DenseCoefficients.PadAndZip` | polynomials/naive.py:122-127 | the pairs have the length of the longer list, and the shorter list is padded with the padding element |
| `DenseCoefficients.AddCoefficients` | polynomials/naive.py:72-79 | coefficient k of the normalised sum is a[k] + b[k], with missing entries read as zero |
| `DenseCoefficients.AddCommutes` | polynomials/naive.py:72-79 | addition of polynomials is commutative |
| `DenseCoefficients.AddZero` | polynomials/naive.py:72-79 | adding the zero polynomial [0] returns a normal list unchanged |
| `DenseCoefficients.NegationKeepsDegree` | polynomials/naive.py:82-86 | negation negates every coefficient and keeps a normal list normal with the same degree |
| `DenseCoefficients.AddNegationIsZero` | polynomials/naive.py:72-86 | p + (-p) normalises to the zero polynomial [0] |
| `DenseCoefficients.ProductTopSlotIsZero` | polynomials/naive.py:89-97 | the unnormalised product has deg(a) + deg(b) + 2 slots, and its top slot is zero |
| `DenseCoefficients.ProductLeadingSlot` | polynomials/naive.py:89-97 | slot deg(a) + deg(b) of the product is the product of the two leading coefficients |
| `DenseCoefficients.MulDegree` | polynomials/naive.py:89-97 | for non-zero integer polynomials, deg(a * b) == deg(a) + deg(b) |
| `DenseCoefficients.MulZero` | polynomials/naive.py:89-97 | multiplying by the zero polynomial gives the zero polynomial |
| `PolynomialRingLaws.ProductCoeff` | polynomials/naive.py:89-97 | coefficient k of the accumulated product is the sum of a_i * b_(k-i) over i <= k, for every k |
| `PolynomialRingLaws.AddAssociates` | polynomials/naive.py:72-79 | addition of polynomials is associative |
| `PolynomialRingLaws.MulOne` | polynomials/naive.py:89-97 | multiplying a normal list by the one polynomial [1] returns it unchanged |
| `PolynomialRingLaws.MulCommutes` | polynomials/naive.py:89-97 | the product list of a and b equals that of b and a, before and after normalisation |
| `PolynomialRingLaws.MulAssociates` | polynomials/naive.py:89-97 | multiplication of polynomials is associative |
| `PolynomialRingLaws.MulDistributes` | polynomials/naive.py:72-97 | a * (b + c) == a * b + a * c for the normalised sums and products |
| `DenseCoefficients.SquareExample` | polynomials/naive.py:44-45 | for p = x^2 + 2x + 5: degree 2, p + p == [10, 4, 2], and p * p == [25, 20, 14, 4, 1] |
| `Polynomials.ListPolynomial.constructor` | polynomials/naive.py:43-48 | the polynomial keeps the caller's list object, that list now holds its own normal form, and the polynomial is valid |
| `Polynomials.ListPolynomial.RemoveLeadingZeros` | polynomials/naive.py:104-107 | the popping loop leaves the list equal to Normalize of what it held before |
| `Polynomials.ListPolynomial.Degree` | polynomials/naive.py:51-53 | the degree is non-negative, nothing above it is non-zero, and the coefficient at a positive degree is non-zero |
| `Polynomials.ListPolynomial.GetItem` | polynomials/naive.py:56-57 | succeeds exactly for -len <= index < len; a non-negative index reads that coefficient, and a negative one counts from the end |
| `Polynomials.ListPolynomial.Equals` | polynomials/naive.py:60-69 | true if and only if the coefficient lists are identical, and if and only if every coefficient agrees |
| `Polynomials.ListPolynomial.Add` | polynomials/naive.py:72-79 | returns a fresh valid polynomial whose coefficient k is self[k] + other[k], with missing entries read as zero |
| `Polynomials.ListPolynomial.Neg` | polynomials/naive.py:82-86 | returns a fresh valid polynomial with every coefficient negated and the same degree |
| `Polynomials.ListPolynomial.Mul` | polynomials/naive.py:89-97 | the nested loops fill the array with the convolution, so the fresh result is the normalised Product |
| `Polynomials.ListPolynomial.MultiplicativeInverse` | polynomials/naive.py:100-101 | always fails with NotInvertible |
| `Polynomials.Make` | polynomials/naive.py:13-23 | builds a fresh valid polynomial whose list is the normal form of the given coefficients, with every coefficient kept |

## Left out

- The template metaclass, the `profiling_name` and `local_method_names` decorators, and the identity of the generated classes are dynamic Python machinery. They are not modelled. An element carries its modulus, and binary operations require both operands to have the same modulus.
- The `operand_casting` decorator is modelled only as `Cast`: the other operand is passed through the constructor. The sentinel `NotImplemented` and the reflected-operator fallback are not modelled.
- `Quotients.New`: the third constructor branch, `m.__class__(representative) % m` for arbitrary Python values, is a foreign constructor call and is not modelled. Copying requires an element of the same ring.
- `ring()`: the source ring is always the integers, so there is nothing to return.
- Only positive moduli are modelled. Python's `%` rejects a zero modulus and gives non-positive remainders for a negative one.
- `Euclid.ExtendedEuclid` stands in for `support.rings.extended_euclidean_algorithm`, whose code is not part of this model. Every lemma, `Z5InverseExample` included, uses only its contract and never its particular Bezout coefficients.
- Quotients of polynomial rings (such as the GF8 example) and generic coefficient rings are not modelled. Both constructions use `int`, and the polynomial's zero coefficient is fixed to 0.
- `Polynomials.Make`: an empty coefficient list is excluded by a `requires`. The source accepts it and then reports degree -1.
- `__str__` of both classes is presentation only and is not modelled.
