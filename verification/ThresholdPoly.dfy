/**
 The threshold polynomial over Z_p (`src/core/threshold_poly.cpp`): modular
 inverse by the extended Euclidean algorithm and Lagrange interpolation of the
 step function.
 */
module ThresholdPoly {
  import opened Num
  import opened Wrappers
  import opened Params

  // ------------------------------------------------------------------ polynomials

  /** c[0] + c[1]*x + c[2]*x^2 + ... */
  ghost function Eval(c: seq<int>, x: int): int {
    if c == [] then 0 else c[0] + x * Eval(c[1..], x)
  }

  ghost predicate CongruentCoeffs(c: seq<int>, d: seq<int>, p: int)
    requires p > 0
  {
    |c| == |d| && forall t :: 0 <= t < |c| ==> c[t] % p == d[t] % p
  }

  /** Reducing coefficients does not change the value modulo p. */
  lemma {:induction false} EvalCongruent(c: seq<int>, d: seq<int>, x: int, p: int)
    requires p > 0 && CongruentCoeffs(c, d, p)
    ensures Eval(c, x) % p == Eval(d, x) % p
  {
    if c != [] {
      forall t | 0 <= t < |c| - 1 ensures c[1..][t] % p == d[1..][t] % p {
        assert c[t + 1] % p == d[t + 1] % p;
      }
      EvalCongruent(c[1..], d[1..], x, p);
      CongruentTerm(c[0], d[0], x, Eval(c[1..], x), Eval(d[1..], x), p);
    }
  }

  lemma CongruentTerm(a: int, b: int, x: int, u: int, v: int, p: int)
    requires p > 0 && a % p == b % p && u % p == v % p
    ensures (a + x * u) % p == (b + x * v) % p
  {
    ModMul(x, u, p);
    ModMul(x, v, p);
    ModAdd(a, x * u, p);
    ModAdd(b, x * v, p);
  }

  lemma {:induction false} EvalSum(c: seq<int>, d: seq<int>, s: seq<int>, x: int)
    requires |c| == |d| == |s| && forall t :: 0 <= t < |c| ==> s[t] == c[t] + d[t]
    ensures Eval(s, x) == Eval(c, x) + Eval(d, x)
  {
    if c != [] {
      EvalSum(c[1..], d[1..], s[1..], x);
      assert x * Eval(s[1..], x) == x * Eval(c[1..], x) + x * Eval(d[1..], x);
    }
  }

  /** EvalPolyPlaintext: Horner's rule with every step reduced modulo p. */
  method EvalPolyPlaintext(coeffs: seq<int>, x: int, p: int) returns (result: int)
    requires p > 0
    ensures result == Eval(coeffs, x) % p
  {
    result := 0;
    var i := |coeffs|;
    while i > 0
      invariant 0 <= i <= |coeffs|
      invariant result == Eval(coeffs[i..], x) % p
    {
      i := i - 1;
      assert coeffs[i..][1..] == coeffs[i + 1..];
      ghost var rest := Eval(coeffs[i + 1..], x);
      ModMul(rest, x, p);
      ModAdd(rest * x, coeffs[i], p);
      result := ((result * x) % p + coeffs[i]) % p;
    }
    assert coeffs[0..] == coeffs;
  }

  // ------------------------------------------------------------------ modular inverse

  ghost predicate Divides(d: int, x: int) {
    exists m: int :: x == m * d
  }

  lemma DividesWitness(d: int, x: int, m: int)
    requires x == m * d
    ensures Divides(d, x)
  {
  }

  lemma DividesCombination(d: int, x: int, y: int, q: int)
    requires Divides(d, x) && Divides(d, y)
    ensures Divides(d, q * x + y)
  {
    var m: int :| x == m * d;
    var n: int :| y == n * d;
    assert q * (m * d) == (q * m) * d;
    assert q * x + y == (q * m + n) * d;
    DividesWitness(d, q * x + y, q * m + n);
  }

  /** Common divisors of the remainder pair divide the original pair. */
  ghost predicate SameDivisors(oldR: int, r: int, a: int, p: int) {
    forall d: int :: Divides(d, oldR) && Divides(d, r) ==> Divides(d, a) && Divides(d, p)
  }

  lemma EuclidStep(oldR: int, r: int, q: int, a: int, p: int)
    requires SameDivisors(oldR, r, a, p)
    ensures SameDivisors(r, oldR - q * r, a, p)
  {
    forall d: int | Divides(d, r) && Divides(d, oldR - q * r)
      ensures Divides(d, a) && Divides(d, p)
    {
      DividesCombination(d, r, oldR - q * r, q);
    }
  }

  /** Bezout coefficients stay below p in absolute value, so no int64 product overflows. */
  ghost predicate CoefficientBounds(oldR: nat, r: nat, oldS: int, s: int, p: nat) {
    && Magnitude(oldS) * r + Magnitude(s) * oldR <= p
    && (oldS <= 0 <= s || s <= 0 <= oldS)
  }

  lemma CoefficientStep(oldR: nat, r: nat, q: nat, oldS: int, s: int, p: nat)
    requires r > 0 && q * r <= oldR && CoefficientBounds(oldR, r, oldS, s, p)
    ensures CoefficientBounds(r, oldR - q * r, s, oldS - q * s, p)
  {
    var u, v, qs := Magnitude(oldS), Magnitude(s), q * s;
    SignedProduct(q, s, qs);
    assert Magnitude(oldS - qs) == u + q * v;
    Turned(u, v, q, r, oldR);
  }

  function Magnitude(x: int): nat {
    if x < 0 then -x else x
  }

  lemma Turned(u: int, v: int, q: int, r: int, oldR: int)
    ensures v * (oldR - q * r) + (u + q * v) * r == u * r + v * oldR
  {
    assert v * (q * r) == (q * v) * r;
    assert v * (oldR - q * r) == v * oldR - v * (q * r);
    assert (u + q * v) * r == u * r + (q * v) * r;
  }

  lemma SignedProduct(q: nat, s: int, qs: int)
    requires qs == q * s
    ensures Magnitude(qs) == q * Magnitude(s)
    ensures (s >= 0 ==> qs >= 0) && (s <= 0 ==> qs <= 0)
  {
    if s >= 0 { MulMono(0, q, s); } else { MulMono(0, q, -s); assert q * (-s) == -qs; }
  }

  /** oldR and r are combinations of a and p, with the given multiples of a. */
  ghost predicate Bezout(r: int, s: int, a: int, p: int)
    requires p > 0
  {
    (s * a - r) % p == 0
  }

  lemma BezoutStep(oldR: int, r: int, q: int, oldS: int, s: int, a: int, p: int)
    requires p > 0 && Bezout(oldR, oldS, a, p) && Bezout(r, s, a, p)
    ensures Bezout(oldR - q * r, oldS - q * s, a, p)
  {
    var x, y := oldS * a - oldR, s * a - r;
    var m, n := x / p, y / p;
    assert x == m * p && y == n * p;
    Combination(oldR, r, q, oldS, s, a, p, m, n);
    ModIs((oldS - q * s) * a - (oldR - q * r), p, m - q * n, 0);
  }

  lemma Combination(oldR: int, r: int, q: int, oldS: int, s: int, a: int, p: int, m: int, n: int)
    requires oldS * a - oldR == m * p && s * a - r == n * p
    ensures (oldS - q * s) * a - (oldR - q * r) == (m - q * n) * p
  {
    Distributed(oldS, q, s, a);
    Distributed(m, q, n, p);
    Combined(q, s * a, r, n * p);
  }

  lemma Distributed(u: int, q: int, v: int, a: int)
    ensures (u - q * v) * a == u * a - q * (v * a)
  {
    assert (u - q * v) * a == u * a - (q * v) * a;
  }

  lemma Combined(q: int, u: int, r: int, y: int)
    requires y == u - r
    ensures q * y == q * u - q * r
  {
  }

  /** No d > 1 divides both. */
  ghost predicate Coprime(a: int, p: int) {
    forall d: int :: d > 1 && Divides(d, a) ==> !Divides(d, p)
  }

  /**
   ModInverse rejects exactly the multiples of p; otherwise the result is the inverse
   exactly when value and p are coprime.
   */
  method ModInverse(value: int, p: nat) returns (r: Result<int>)
    requires p >= 2
    ensures value % p == 0 <==> r.Err?
    ensures r.Ok? ==> 0 <= r.value < p
    ensures r.Ok? ==> ((r.value * value) % p == 1 <==> Coprime(value, p))
  {
    var a := value % p;
    if a == 0 {
      return Err(InvalidArgument("ModInverse: a must be nonzero"));
    }
    var oldR, rem := a, p;
    var oldS, s := 1, 0;
    InverseInit(a, p);
    while rem != 0
      invariant EuclidInvariant(oldR, rem, oldS, s, a, p)
      decreases rem
    {
      var q := oldR / rem;
      InvariantStep(oldR, rem, oldS, s, q, a, p);
      oldR, rem := rem, oldR - q * rem;
      oldS, s := s, oldS - q * s;
    }
    var inverse := oldS % p;
    if Coprime(value, p) {
      GcdIsOne(oldR, a, value, p);
      InverseOf(oldS, a, value, p);
    }
    InverseMeansCoprime(inverse, value, p);
    return Ok(inverse);
  }

  /** What every turn of the Euclidean loop keeps. */
  ghost predicate EuclidInvariant(oldR: int, r: int, oldS: int, s: int, a: nat, p: nat)
    requires p > 0
  {
    && oldR >= 0 && r >= 0 && (oldR > 0 || r > 0)
    && SameDivisors(oldR, r, a, p)
    && Bezout(oldR, oldS, a, p) && Bezout(r, s, a, p)
    && CoefficientBounds(oldR, r, oldS, s, p)
  }

  lemma QuotientBounds(x: nat, y: nat)
    requires y > 0
    ensures x / y >= 0 && (x / y) * y <= x < (x / y) * y + y
  {
  }

  lemma InvariantStep(oldR: int, r: int, oldS: int, s: int, q: int, a: nat, p: nat)
    requires p > 0 && r > 0 && EuclidInvariant(oldR, r, oldS, s, a, p) && q == oldR / r
    ensures EuclidInvariant(r, oldR - q * r, s, oldS - q * s, a, p)
    ensures 0 <= oldR - q * r < r
  {
    QuotientBounds(oldR, r);
    EuclidStep(oldR, r, q, a, p);
    BezoutStep(oldR, r, q, oldS, s, a, p);
    CoefficientStep(oldR, r, q, oldS, s, p);
  }

  lemma InverseInit(a: int, p: nat)
    requires p >= 2 && 0 < a < p
    ensures EuclidInvariant(a, p, 1, 0, a, p)
  {
    assert 1 * a - a == 0 * p + 0;
    ModIs(1 * a - a, p, 0, 0);
    assert 0 * a - p == (-1) * p + 0;
    ModIs(0 * a - p, p, -1, 0);
  }

  lemma DividesResidue(d: int, a: int, value: int, p: nat)
    requires p > 0 && a == value % p && Divides(d, a) && Divides(d, p)
    ensures Divides(d, value)
  {
    DividesCombination(d, p, a, value / p);
    assert (value / p) * p + a == value;
  }

  /** The last remainder divides value and p, so for coprime ones it is 1. */
  lemma GcdIsOne(g: int, a: int, value: int, p: nat)
    requires p > 0 && a == value % p && Coprime(value, p) && g > 0 && SameDivisors(g, 0, a, p)
    ensures g == 1
  {
    DividesWitness(g, g, 1);
    DividesWitness(g, 0, 0);
    DividesResidue(g, a, value, p);
  }

  /** A common divisor of value and p divides 1 = inverse * value (mod p). */
  lemma InverseMeansCoprime(inverse: int, value: int, p: nat)
    requires p >= 2
    ensures (inverse * value) % p == 1 ==> Coprime(value, p)
  {
    if (inverse * value) % p == 1 {
      forall d: int | d > 1 && Divides(d, value) ensures !Divides(d, p) {
        if Divides(d, p) {
          var q := (inverse * value) / p;
          MultipleDivides(d, value, inverse);
          DividesCombination(d, p, inverse * value, -q);
          assert (-q) * p + inverse * value == 1 by {
            assert inverse * value == q * p + 1;
            assert (-q) * p == -(q * p);
          }
          OneHasNoDivisor(d);
        }
      }
    }
  }

  lemma MultipleDivides(d: int, x: int, q: int)
    requires Divides(d, x)
    ensures Divides(d, q * x)
  {
    var m: int :| x == m * d;
    assert q * (m * d) == (q * m) * d;
    DividesWitness(d, q * x, q * m);
  }

  lemma OneHasNoDivisor(d: int)
    requires d > 1
    ensures !Divides(d, 1)
  {
    forall m: int ensures 1 != m * d {
      if m >= 1 { MulMono(1, m, d); } else { MulMono(m, 0, d); }
    }
  }

  lemma InverseOf(s: int, a: int, value: int, p: nat)
    requires p >= 2 && a == value % p && Bezout(1, s, a, p)
    ensures ((s % p) * value) % p == 1
  {
    var m := (s * a - 1) / p;
    assert s * a == m * p + 1;
    ModIs(s * a, p, m, 1);
    ModMul(s, value, p);
  }

  // ------------------------------------------------------------------ Lagrange interpolation

  /** Coefficients of (A*x + B) times the polynomial b. */
  ghost function TimesLinear(b: seq<int>, A: int, B: int): (c: seq<int>)
    ensures |c| == |b| + 1
  {
    seq(|b| + 1, t requires 0 <= t <= |b| => Shifted(b, A, t) + if t < |b| then B * b[t] else 0)
  }

  ghost function Shifted(b: seq<int>, A: int, t: nat): int
    requires t <= |b|
  {
    if t > 0 then A * b[t - 1] else 0
  }

  lemma {:induction false} EvalTimesLinear(b: seq<int>, A: int, B: int, x: int)
    ensures Eval(TimesLinear(b, A, B), x) == (A * x + B) * Eval(b, x)
  {
    if b == [] {
      assert TimesLinear(b, A, B)[1..] == [];
      assert (A * x + B) * 0 == 0 && x * 0 == 0;
    } else {
      EvalTimesLinear(b[1..], A, B, x);
      TimesLinearParts(b, A, B, x);
      Expand(A, B, b[0], Eval(b[1..], x), x);
    }
  }

  /** The product's constant term, and its rest in terms of the product of the rest. */
  lemma TimesLinearParts(b: seq<int>, A: int, B: int, x: int)
    requires b != []
    ensures Eval(TimesLinear(b, A, B), x) == B * b[0] + x * (Eval(TimesLinear(b[1..], A, B), x) + A * b[0])
  {
    var c, d := TimesLinear(b, A, B), TimesLinear(b[1..], A, B);
    assert c[0] == B * b[0];
    assert c[1] == d[0] + A * b[0];
    assert c[1..][1..] == d[1..];
    hide TimesLinear;
    assert Eval(c[1..], x) == c[1] + x * Eval(d[1..], x);
    assert Eval(d, x) == d[0] + x * Eval(d[1..], x);
  }

  lemma Expand(A: int, B: int, b0: int, rest: int, x: int)
    ensures B * b0 + x * ((A * x + B) * rest + A * b0) == (A * x + B) * (b0 + x * rest)
  {
    var k := A * x + B;
    assert k * (b0 + x * rest) == k * b0 + k * (x * rest);
    assert x * (k * rest + A * b0) == x * (k * rest) + x * (A * b0);
    assert k * (x * rest) == x * (k * rest);
    assert k * b0 == (A * x) * b0 + B * b0;
    assert (A * x) * b0 == x * (A * b0);
  }

  /** The inner loop: multiply the basis by (x + negJ) * denomInv, reducing every coefficient. */
  method MultiplyByFactor(basis: seq<int>, negJ: int, denomInv: int, p: nat) returns (newBasis: seq<int>)
    requires p > 0
    ensures |newBasis| == |basis| + 1
    ensures CongruentCoeffs(newBasis, TimesLinear(basis, denomInv, negJ * denomInv), p)
  {
    newBasis := seq(|basis| + 1, i => 0);
    ghost var target := TimesLinear(basis, denomInv, negJ * denomInv);
    for idx := 0 to |basis|
      invariant |newBasis| == |basis| + 1
      invariant forall t :: 0 <= t < idx ==> newBasis[t] % p == target[t] % p
      invariant newBasis[idx] % p == Shifted(basis, denomInv, idx) % p
      invariant forall t :: idx < t <= |basis| ==> newBasis[t] == 0
    {
      var up := (newBasis[idx + 1] + (basis[idx] * denomInv) % p) % p;
      var here := (newBasis[idx] + (((basis[idx] * negJ) % p) * denomInv) % p) % p;
      FactorTerms(basis[idx], negJ, denomInv, newBasis[idx], Shifted(basis, denomInv, idx), p);
      newBasis := newBasis[idx + 1 := up][idx := here];
      assert Shifted(basis, denomInv, idx + 1) == denomInv * basis[idx];
      assert target[idx] == Shifted(basis, denomInv, idx) + (negJ * denomInv) * basis[idx];
    }
  }

  lemma FactorTerms(b: int, negJ: int, inv: int, current: int, shifted: int, p: nat)
    requires p > 0 && current % p == shifted % p
    ensures ((0 + (b * inv) % p) % p) % p == (inv * b) % p
    ensures ((current + (((b * negJ) % p) * inv) % p) % p) % p == (shifted + (negJ * inv) * b) % p
  {
    Swapped(b, negJ, inv);
    TwiceReduced(b * inv, p);
    ModMul(b * negJ, inv, p);
    ReducedSum(current, shifted, (b * negJ) * inv, (((b * negJ) % p) * inv) % p, p);
  }

  lemma Swapped(b: int, negJ: int, inv: int)
    ensures b * inv == inv * b && (b * negJ) * inv == (negJ * inv) * b
  {
  }

  lemma TwiceReduced(x: int, p: nat)
    requires p > 0
    ensures ((0 + x % p) % p) % p == x % p
  {
    ModSelf(x, p);
  }

  /** Adding a reduced term to a congruent value, and reducing twice. */
  lemma ReducedSum(current: int, shifted: int, term: int, reduced: int, p: nat)
    requires p > 0 && current % p == shifted % p && reduced == term % p
    ensures ((current + reduced) % p) % p == (shifted + term) % p
  {
    ModSelf(current + reduced, p);
    ModAdd(current, term, p);
    ModAdd(shifted, term, p);
  }

  /** The basis polynomial is 1 at i and vanishes at the points below j other than i. */
  ghost predicate BasisBelow(basis: seq<int>, i: nat, j: nat, p: nat)
    requires p > 0
  {
    Eval(basis, i) % p == 1 && forall x: nat :: x < j && x != i ==> Eval(basis, x) % p == 0
  }

  /** One factor (x - j)/(i - j) keeps the zeros, keeps the 1 at i, and adds a zero at j. */
  lemma BasisStep(basis: seq<int>, next: seq<int>, i: nat, j: nat, negJ: int, inv: int, p: nat)
    requires p > 1 && i != j && BasisBelow(basis, i, j, p)
    requires negJ == (-(j as int)) % p && (inv * ((i - j) % p)) % p == 1
    requires CongruentCoeffs(next, TimesLinear(basis, inv, negJ * inv), p)
    ensures BasisBelow(next, i, j + 1, p)
  {
    FactorValue(basis, next, i, j, negJ, inv, p);
    assert 1 % p == 1 by { ModIs(1, p, 0, 1); }
    assert Eval(next, i) % p == 1 by {
      ModMul(inv, i - j, p);
      ModMul(inv * (i - j), Eval(basis, i), p);
    }
    forall x: nat | x < j + 1 && x != i ensures Eval(next, x) % p == 0 {
      FactorValue(basis, next, x, j, negJ, inv, p);
      if x == j {
        assert inv * (x - j) == 0;
        assert (inv * (x - j)) * Eval(basis, x) == 0 * p + 0;
        ModIs(0, p, 0, 0);
      } else {
        ModMul(inv * (x - j), Eval(basis, x), p);
        ModIs(0, p, 0, 0);
      }
    }
  }

  lemma FactorArithmetic(inv: int, x: int, j: int, negJ: int, e: int, p: nat)
    requires p > 1 && negJ == (-j) % p
    ensures ((inv * x + negJ * inv) * e) % p == ((inv * (x - j)) * e) % p
  {
    assert inv * x + negJ * inv == inv * (x + negJ);
    ModAdd(x, -j, p);
    MulCongruent(inv, x + negJ, x - j, p);
    MulCongruent(e, inv * (x + negJ), inv * (x - j), p);
  }

  /** Value of the extended product at x. */
  lemma FactorValue(basis: seq<int>, next: seq<int>, x: nat, j: nat, negJ: int, inv: int, p: nat)
    requires p > 1 && negJ == (-(j as int)) % p
    requires CongruentCoeffs(next, TimesLinear(basis, inv, negJ * inv), p)
    ensures Eval(next, x) % p == ((inv * (x - j)) * Eval(basis, x)) % p
  {
    EvalCongruent(next, TimesLinear(basis, inv, negJ * inv), x, p);
    EvalTimesLinear(basis, inv, negJ * inv, x);
    FactorArithmetic(inv, x, j, negJ, Eval(basis, x), p);
  }

  /** Every difference of two points up to maxVal has an inverse; a prime above maxVal is one such modulus. */
  ghost predicate Separates(p: nat, maxVal: nat) {
    p > maxVal && NoDivisorBelow(p, maxVal + 1)
  }

  lemma PrimeSeparates(p: nat, maxVal: nat)
    requires Prime(p) && p > maxVal
    ensures Separates(p, maxVal)
  {
  }

  /** A difference of two points shares no divisor with a separating modulus. */
  lemma PointsCoprime(i: nat, j: nat, maxVal: nat, p: nat)
    requires i <= maxVal && j <= maxVal && i != j && p >= 2 && Separates(p, maxVal)
    ensures Coprime((i - j) % p, p)
  {
    var delta, a := i - j, (i - j) % p;
    forall d: int | d > 1 && Divides(d, a) ensures !Divides(d, p) {
      if Divides(d, p) {
        DividesResidue(d, a, delta, p);
        SmallDivisor(d, delta, maxVal);
        var n: int :| p == n * d;
        ModIs(p, d, n, 0);
      }
    }
  }

  lemma SmallDivisor(d: int, delta: int, maxVal: int)
    requires d > 1 && Divides(d, delta) && delta != 0 && -maxVal <= delta <= maxVal
    ensures d <= maxVal
  {
    var m: int :| delta == m * d;
    if m >= 1 { MulMono(1, m, d); } else if m <= -1 { MulMono(m, -1, d); }
  }

  lemma DistinctPoints(i: nat, j: nat, maxVal: nat, p: nat)
    requires i <= maxVal && j <= maxVal && i != j && p > maxVal
    ensures (i - j) % p != 0 && ((i - j) % p) % p == (i - j) % p
  {
    if i > j { ModIs(i - j, p, 0, i - j); } else { ModIs(i - j, p, -1, i - j + p); }
    ModSelf(i - j, p);
  }

  /** A divisor d of p collapses the basis at its own point once the factor for i - d is in. */
  ghost predicate Collapses(basis: seq<int>, i: nat, j: nat, p: nat) {
    forall d :: 2 <= d <= i && i - d < j && p % d == 0 ==> Eval(basis, i) % d == 0
  }

  lemma CollapseStep(basis: seq<int>, next: seq<int>, i: nat, j: nat, negJ: int, inv: int, p: nat)
    requires p > 1 && i != j && Collapses(basis, i, j, p) && negJ == (-(j as int)) % p
    requires CongruentCoeffs(next, TimesLinear(basis, inv, negJ * inv), p)
    ensures Collapses(next, i, j + 1, p)
  {
    FactorValue(basis, next, i, j, negJ, inv, p);
    hide Eval, CongruentCoeffs, TimesLinear;
    var u, v := Eval(basis, i), Eval(next, i);
    forall d | 2 <= d <= i && i - d < j + 1 && p % d == 0 ensures v % d == 0 {
      CongruentBelow(v, (inv * (i - j)) * u, p, d);
      if i - d == j {
        Multiples(inv, d, u);
      } else {
        MultipleOf(inv * (i - j), u, d);
      }
    }
  }

  /** Congruence modulo p is congruence modulo every divisor of p. */
  lemma CongruentBelow(x: int, y: int, p: nat, d: nat)
    requires p > 0 && d > 0 && p % d == 0 && x % p == y % p
    ensures x % d == y % d
  {
    var m, q, u := p / d, x / p, y / p;
    assert p == m * d;
    assert x == q * p + x % p && y == u * p + y % p;
    assert x - y == (q - u) * p;
    assert (q - u) * p == ((q - u) * m) * d;
    ModAdd(y, ((q - u) * m) * d, d);
    ModIs(((q - u) * m) * d, d, (q - u) * m, 0);
  }

  lemma Multiples(a: int, d: int, b: int)
    requires d > 0
    ensures ((a * d) * b) % d == 0
  {
    assert (a * d) * b == (a * b) * d;
    ModIs((a * b) * d, d, a * b, 0);
  }

  lemma MultipleOf(a: int, b: int, d: int)
    requires d > 0 && b % d == 0
    ensures (a * b) % d == 0
  {
    assert b == (b / d) * d;
    assert a * ((b / d) * d) == (a * (b / d)) * d;
    ModIs(a * b, d, a * (b / d), 0);
  }

  /** The factor for j = i - p has no inverse. */
  lemma NoDenominator(i: nat, j: nat, p: nat)
    requires p >= 1 && i == j + p
    ensures ((i - j) % p) % p == 0
  {
    ModIs(i - j, p, 1, 0);
    ModIs(0, p, 0, 0);
  }

  /** Skipping the own point changes nothing. */
  lemma OwnPoint(basis: seq<int>, i: nat, p: nat)
    requires p > 0
    ensures BasisBelow(basis, i, i, p) ==> BasisBelow(basis, i, i + 1, p)
    ensures Collapses(basis, i, i, p) ==> Collapses(basis, i, i + 1, p)
  {
  }

  lemma BasisStart(i: nat, p: nat)
    requires p >= 2
    ensures BasisBelow([1], i, 0, p) && Collapses([1], i, 0, p)
  {
    assert Eval([1], i) == 1 by { assert [1][1..] == []; }
    ModIs(1, p, 0, 1);
  }

  /** The product over j != i of (x - j)/(i - j). */
  method LagrangeBasis(i: nat, maxVal: nat, p: nat) returns (r: Result<seq<int>>)
    requires p >= 2 && i <= maxVal
    ensures Separates(p, maxVal) ==> r.Ok? && |r.value| == maxVal + 1 && BasisBelow(r.value, i, maxVal + 1, p)
    ensures r.Ok? ==> |r.value| == maxVal + 1 && p > i && Collapses(r.value, i, maxVal + 1, p)
  {
    hide Collapses, CongruentCoeffs, TimesLinear, Eval, BasisBelow, NoDivisorBelow, Coprime;
    var basis := [1];
    BasisStart(i, p);
    for j := 0 to maxVal + 1
      invariant |basis| == if j <= i then j + 1 else j
      invariant Separates(p, maxVal) ==> BasisBelow(basis, i, j, p)
      invariant Collapses(basis, i, j, p) && (p <= i ==> j <= i - p)
    {
      if j == i {
        OwnPoint(basis, i, p);
      } else {
        if j + p == i { NoDenominator(i, j, p); }
        var denom := (i - j) % p;
        var inverse := ModInverse(denom, p);
        if Separates(p, maxVal) {
          DistinctPoints(i, j, maxVal, p);
          PointsCoprime(i, j, maxVal, p);
        }
        var denomInv :- inverse;
        var negJ := (-(j as int)) % p;
        var next := MultiplyByFactor(basis, negJ, denomInv, p);
        if Separates(p, maxVal) { BasisStep(basis, next, i, j, negJ, denomInv, p); }
        CollapseStep(basis, next, i, j, negJ, denomInv, p);
        basis := next;
      }
    }
    return Ok(basis);
  }

  method AddInto(result: seq<int>, basis: seq<int>, p: nat) returns (sum: seq<int>)
    requires p > 0 && |result| == |basis|
    ensures |sum| == |result| && forall t :: 0 <= t < |sum| ==> sum[t] == (result[t] + basis[t]) % p
  {
    sum := result;
    for idx := 0 to |basis|
      invariant |sum| == |result|
      invariant forall t :: 0 <= t < idx ==> sum[t] == (result[t] + basis[t]) % p
      invariant forall t :: idx <= t < |sum| ==> sum[t] == result[t]
    {
      sum := sum[idx := (sum[idx] + basis[idx]) % p];
    }
  }

  /** The values of a step polynomial: 1 exactly on lo <= x < hi, at the points up to maxVal. */
  ghost predicate StepOn(c: seq<int>, lo: nat, hi: nat, maxVal: nat, p: nat)
    requires p > 0
  {
    forall x: nat :: x <= maxVal ==> Eval(c, x) % p == if lo <= x < hi then 1 else 0
  }

  lemma {:induction false} EvalZeros(c: seq<int>, x: int)
    requires forall t :: 0 <= t < |c| ==> c[t] == 0
    ensures Eval(c, x) == 0
  {
    if c != [] { EvalZeros(c[1..], x); }
  }

  lemma StepGrows(c: seq<int>, basis: seq<int>, sum: seq<int>, tau: nat, i: nat, maxVal: nat, p: nat)
    requires p > 1 && tau <= i <= maxVal && |c| == |basis| == |sum|
    requires StepOn(c, tau, i, maxVal, p) && BasisBelow(basis, i, maxVal + 1, p)
    requires forall t :: 0 <= t < |sum| ==> sum[t] == (c[t] + basis[t]) % p
    ensures StepOn(sum, tau, i + 1, maxVal, p)
  {
    var exact := seq(|c|, t requires 0 <= t < |c| => c[t] + basis[t]);
    forall t | 0 <= t < |c| ensures sum[t] % p == exact[t] % p { ModSelf(exact[t], p); }
    forall x: nat | x <= maxVal ensures Eval(sum, x) % p == if tau <= x < i + 1 then 1 else 0 {
      EvalCongruent(sum, exact, x, p);
      EvalSum(c, basis, exact, x);
      ModAdd(Eval(c, x), Eval(basis, x), p);
      ModIs(1, p, 0, 1);
      ModIs(0, p, 0, 0);
    }
  }

  /** At the threshold maxVal the only basis collapses modulo a divisor of p, so the step is missed. */
  lemma LastStepFails(zero: seq<int>, basis: seq<int>, sum: seq<int>, maxVal: nat, p: nat)
    requires p > maxVal >= 1 && !Separates(p, maxVal) && Collapses(basis, maxVal, maxVal + 1, p)
    requires |zero| == |basis| == |sum|
    requires forall t :: 0 <= t < |sum| ==> zero[t] == 0 && sum[t] == (zero[t] + basis[t]) % p
    ensures !StepOn(sum, maxVal, maxVal + 1, maxVal, p)
  {
    var d :| 2 <= d < maxVal + 1 && p % d == 0;
    forall t | 0 <= t < |sum| ensures sum[t] % p == basis[t] % p { ModSelf(basis[t], p); }
    EvalCongruent(sum, basis, maxVal, p);
    CongruentBelow(Eval(sum, maxVal), Eval(basis, maxVal), p, d);
    if Eval(sum, maxVal) % p == 1 {
      ModIs(1, p, 0, 1);
      ModIs(1, d, 0, 1);
      CongruentBelow(Eval(sum, maxVal), 1, p, d);
    }
  }

  /**
   Interpolates u(x) = [x >= tau] on 0..maxVal.  Every value is exact modulo p when p
   exceeds maxVal and has no divisor from 2 to maxVal, as every prime above maxVal; for
   any other p the threshold maxVal itself fails.
   */
  method BuildThresholdPoly(tau: nat, maxVal: nat, p: nat) returns (r: Result<seq<int>>)
    ensures p < 2 || tau > maxVal + 1 ==> r.Err?
    ensures p >= 2 && Separates(p, maxVal) && tau <= maxVal + 1 ==>
              r.Ok? && StepOn(r.value, tau, maxVal + 1, maxVal, p)
    ensures p >= 2 && tau == maxVal >= 1 && !Separates(p, maxVal) ==>
              r.Err? || !StepOn(r.value, tau, maxVal + 1, maxVal, p)
    ensures r.Ok? ==> |r.value| == maxVal + 1 && forall t :: 0 <= t <= maxVal ==> 0 <= r.value[t] < p
  {
    if p < 2 {
      return Err(InvalidArgument("plaintext_mod must be >= 2"));
    }
    if tau > maxVal + 1 {
      return Err(InvalidArgument("tau must be <= max_val + 1"));
    }
    var result := seq(maxVal + 1, i => 0);
    forall x: nat | x <= maxVal ensures Eval(result, x) % p == 0 {
      EvalZeros(result, x);
      ModIs(0, p, 0, 0);
    }
    assert StepOn(result, tau, tau, maxVal, p);
    hide Separates, StepOn, BasisBelow, Eval, Collapses;
    for i := tau to maxVal + 1
      invariant |result| == maxVal + 1
      invariant forall t :: 0 <= t <= maxVal ==> 0 <= result[t] < p
      invariant Separates(p, maxVal) ==> StepOn(result, tau, i, maxVal, p)
      invariant i == tau ==> forall t :: 0 <= t <= maxVal ==> result[t] == 0
      invariant tau == maxVal >= 1 && i > tau && !Separates(p, maxVal) ==>
                  !StepOn(result, tau, maxVal + 1, maxVal, p)
    {
      var basis := LagrangeBasis(i, maxVal, p);
      var b :- basis;
      var sum := AddInto(result, b, p);
      if Separates(p, maxVal) { StepGrows(result, b, sum, tau, i, maxVal, p); }
      if i == tau == maxVal && maxVal >= 1 && !Separates(p, maxVal) { LastStepFails(result, b, sum, maxVal, p); }
      result := sum;
    }
    return Ok(result);
  }
}
