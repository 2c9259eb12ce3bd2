/**
 The degree of the interpolated step function (`src/core/threshold_poly.cpp`): for a
 prime above k and every threshold from 1 to k its leading coefficient is not zero, so
 the evaluator always meets a polynomial of full degree k.
 */
module ThresholdDegree {
  import opened Num
  import opened Params
  import opened ThresholdPoly
  import opened PolyEval

  // ------------------------------------------------------------------ a prime has no zero divisors

  lemma InverseExists(a: int, p: nat) returns (inverse: int)
    requires Prime(p) && a % p != 0
    ensures (inverse * a) % p == 1
  {
    var oldR, rem, oldS, s := a % p, p, 1, 0;
    InverseInit(a % p, p);
    while rem != 0
      invariant EuclidInvariant(oldR, rem, oldS, s, a % p, p)
      decreases rem
    {
      var q := oldR / rem;
      InvariantStep(oldR, rem, oldS, s, q, a % p, p);
      oldR, rem := rem, oldR - q * rem;
      oldS, s := s, oldS - q * s;
    }
    PrimeCoprime(a, p);
    GcdIsOne(oldR, a % p, a, p);
    InverseOf(oldS, a % p, a, p);
    inverse := oldS % p;
  }

  lemma PrimeCoprime(a: int, p: nat)
    requires Prime(p) && a % p != 0
    ensures Coprime(a, p)
  {
    forall d: int | d > 1 && Divides(d, a) ensures !Divides(d, p) {
      if Divides(d, p) {
        var n: int :| p == n * d;
        var m: int :| a == m * d;
        if n <= 0 { MulMono(n, 0, d); }
        if n == 1 { ModIs(a, p, m, 0); }
        if n > 1 { MulMono(2, n, d); ModIs(p, d, n, 0); }
      }
    }
  }

  lemma NoZeroDivisors(a: int, b: int, p: nat)
    requires Prime(p) && a % p != 0 && (a * b) % p == 0
    ensures b % p == 0
  {
    var i := InverseExists(a, p);
    var ia, ab := i * a, a * b;
    ModMul(ia, b, p);
    ModMul(i, ab, p);
    Reassociated(i, a, b);
    hide Prime;
    Trivial(i, b, ia % p, ab % p);
  }

  lemma Reassociated(i: int, a: int, b: int)
    ensures (i * a) * b == i * (a * b)
  {
  }

  lemma Trivial(i: int, b: int, one: int, zero: int)
    requires one == 1 && zero == 0
    ensures one * b == b && i * zero == 0
  {
  }

  // ------------------------------------------------------------------ as many roots as coefficients

  /** Synthetic division by x - r. */
  ghost function Quotient(c: seq<int>, r: int): (q: seq<int>)
    ensures |q| == if c == [] then 0 else |c| - 1
  {
    if |c| <= 1 then [] else [Eval(c[1..], r)] + Quotient(c[1..], r)
  }

  lemma {:induction false} Division(c: seq<int>, r: int, x: int)
    ensures Eval(c, x) == Eval(c, r) + (x - r) * Eval(Quotient(c, r), x)
  {
    if |c| > 1 {
      Division(c[1..], r, x);
      assert Quotient(c, r)[1..] == Quotient(c[1..], r);
      DivisionStep(c[0], r, x, Eval(c[1..], x), Eval(c[1..], r), Eval(Quotient(c[1..], r), x));
    } else if |c| == 1 {
      assert c[1..] == [];
      assert x * 0 == 0 && r * 0 == 0 && (x - r) * 0 == 0;
    }
  }

  lemma DivisionStep(a: int, r: int, x: int, u: int, v: int, q: int)
    requires u == v + (x - r) * q
    ensures a + x * u == a + r * v + (x - r) * (v + x * q)
  {
    assert x * u == x * v + x * ((x - r) * q);
    assert (x - r) * (v + x * q) == (x - r) * v + (x - r) * (x * q);
    assert x * ((x - r) * q) == (x - r) * (x * q);
    assert (x - r) * v == x * v - r * v;
  }

  ghost predicate DistinctModulo(pts: seq<int>, p: nat)
    requires p > 0
  {
    forall i, j :: 0 <= i < j < |pts| ==> (pts[j] - pts[i]) % p != 0
  }

  ghost predicate AllRoots(c: seq<int>, pts: seq<int>, p: nat)
    requires p > 0
  {
    forall i :: 0 <= i < |pts| ==> Eval(c, pts[i]) % p == 0
  }

  /** Dividing out one root keeps the others. */
  lemma OtherRoot(c: seq<int>, r: int, x: int, p: nat)
    requires Prime(p) && Eval(c, r) % p == 0 && Eval(c, x) % p == 0 && (x - r) % p != 0
    ensures Eval(Quotient(c, r), x) % p == 0
  {
    var u, v, w := Eval(c, r), Eval(c, x), (x - r) * Eval(Quotient(c, r), x);
    Division(c, r, x);
    ModAdd(u, w, p);
    assert (u % p + w) % p == v % p;
    NoZeroDivisors(x - r, Eval(Quotient(c, r), x), p);
  }

  /** A polynomial with as many distinct roots as coefficients vanishes everywhere, modulo p. */
  lemma {:induction false} ManyRoots(c: seq<int>, pts: seq<int>, p: nat, x: int)
    requires Prime(p) && |pts| == |c| && DistinctModulo(pts, p) && AllRoots(c, pts, p)
    ensures Eval(c, x) % p == 0
    decreases |c|
  {
    assert p > 0;
    if c == [] {
      ModIs(0, p, 0, 0);
    } else {
      var r, q, rest := pts[0], Quotient(c, pts[0]), pts[1..];
      Division(c, r, x);
      OtherRoots(c, pts, p);
      hide Prime, Quotient, Eval;
      ManyRoots(q, rest, p, x);
      SumOfZeros(Eval(c, r), x - r, Eval(q, x), p);
    }
  }

  lemma OtherRoots(c: seq<int>, pts: seq<int>, p: nat)
    requires Prime(p) && pts != [] && DistinctModulo(pts, p) && AllRoots(c, pts, p)
    ensures DistinctModulo(pts[1..], p) && AllRoots(Quotient(c, pts[0]), pts[1..], p)
  {
    assert p > 0;
    hide Prime, Quotient, Eval;
    var rest := pts[1..];
    forall i | 0 <= i < |rest| ensures Eval(Quotient(c, pts[0]), rest[i]) % p == 0 {
      OtherRoot(c, pts[0], pts[i + 1], p);
    }
  }

  lemma SumOfZeros(u: int, a: int, b: int, p: nat)
    requires p > 0 && u % p == 0 && b % p == 0
    ensures (u + a * b) % p == 0
  {
    ModMul(a, b, p);
    assert a * 0 == 0;
    ModIs(0, p, 0, 0);
    ModAdd(u, a * b, p);
  }

  // ------------------------------------------------------------------ the difference polynomial

  /** Coefficients of c(x + 1). */
  ghost function Shifted1(c: seq<int>): (s: seq<int>)
    ensures |s| == |c|
  {
    if c == [] then [] else
      var t := TimesLinear(Shifted1(c[1..]), 1, 1);
      [t[0] + c[0]] + t[1..]
  }

  lemma {:induction false} EvalShifted(c: seq<int>, x: int)
    ensures Eval(Shifted1(c), x) == Eval(c, x + 1)
  {
    if c != [] {
      var t := TimesLinear(Shifted1(c[1..]), 1, 1);
      EvalShifted(c[1..], x);
      EvalTimesLinear(Shifted1(c[1..]), 1, 1, x);
      var s := Shifted1(c);
      assert s[1..] == t[1..] && s[0] == t[0] + c[0];
      assert Eval(s, x) == Eval(t, x) + c[0];
    }
  }

  lemma {:induction false} ShiftedLead(c: seq<int>)
    requires c != []
    ensures Shifted1(c)[|c| - 1] == c[|c| - 1]
  {
    var b := Shifted1(c[1..]);
    var t := TimesLinear(b, 1, 1);
    if |c| > 1 {
      ShiftedLead(c[1..]);
      assert t[|b|] == b[|b| - 1];
      assert Shifted1(c)[|c| - 1] == t[|c| - 1];
    } else {
      assert b == [] && t[0] == 0;
    }
  }

  /** Coefficients of c(x + 1) - c(x), one fewer than c has. */
  ghost function Difference(c: seq<int>): (d: seq<int>)
    requires c != []
    ensures |d| == |c| - 1
  {
    seq(|c| - 1, t requires 0 <= t < |c| - 1 => Shifted1(c)[t] - c[t])
  }

  lemma EvalDifference(c: seq<int>, x: int)
    requires c != []
    ensures Eval(Difference(c), x) == Eval(c, x + 1) - Eval(c, x)
  {
    var d := Difference(c) + [0];
    ShiftedLead(c);
    EvalSum(c, d, Shifted1(c), x);
    EvalAppendZero(Difference(c), x);
    EvalShifted(c, x);
  }

  // ------------------------------------------------------------------ the leading coefficient

  /** A vanishing top coefficient can be dropped. */
  lemma DropLead(c: seq<int>, x: int, p: nat)
    requires p > 0 && c != [] && c[|c| - 1] % p == 0
    ensures Eval(c[..|c| - 1], x) % p == Eval(c, x) % p
  {
    var e, last := c[..|c| - 1], c[|c| - 1];
    assert c == e + [last];
    EvalAppend(e, [last], x);
    EvalOne(last, x);
    SumOfZeros(0, Pow(x, |e|), last, p) by { ModIs(0, p, 0, 0); }
    ModAdd(Eval(e, x), Pow(x, |e|) * last, p);
  }

  /** The points 0..k-1 without the one where the step goes up. */
  ghost function FlatPoints(k: nat, tau: nat): (pts: seq<int>)
    requires 1 <= tau <= k
    ensures |pts| == k - 1
    ensures forall i :: 0 <= i < |pts| ==> 0 <= pts[i] < k && pts[i] != tau - 1
  {
    seq(k - 1, i requires 0 <= i < k - 1 => if i < tau - 1 then i else i + 1)
  }

  lemma FlatDistinct(k: nat, tau: nat, p: nat)
    requires 1 <= tau <= k < p
    ensures DistinctModulo(FlatPoints(k, tau), p)
  {
    var pts := FlatPoints(k, tau);
    forall i, j | 0 <= i < j < |pts| ensures (pts[j] - pts[i]) % p != 0 {
      ModIs(pts[j] - pts[i], p, 0, pts[j] - pts[i]);
    }
  }

  lemma DifferenceOfStep(e: seq<int>, tau: nat, k: nat, p: nat, x: nat)
    requires p > 1 && e != [] && 1 <= tau <= k && x < k && StepOn(e, tau, k + 1, k, p)
    ensures Eval(Difference(e), x) % p == if x == tau - 1 then 1 else 0
  {
    EvalDifference(e, x);
    var u, v := Eval(e, x + 1), Eval(e, x);
    var a, b := u % p, v % p;
    ModDifference(u, v, p);
    ModIs(a - b, p, 0, a - b);
  }

  lemma ModDifference(u: int, v: int, p: nat)
    requires p > 0
    ensures (u - v) % p == (u % p - v % p) % p
  {
    var a, b := u % p, v % p;
    var q := (a - b) / p;
    assert u == (u / p) * p + a && v == (v / p) * p + b && a - b == q * p + (a - b) % p;
    assert u - v == (u / p - v / p + q) * p + (a - b) % p;
    ModIs(u - v, p, u / p - v / p + q, (a - b) % p);
  }

  /** A step function on 0..k that really steps has degree k modulo every prime above k. */
  lemma LeadingCoefficient(c: seq<int>, tau: nat, k: nat, p: nat)
    requires Prime(p) && p > k && 1 <= tau <= k && |c| == k + 1 && StepOn(c, tau, k + 1, k, p)
    ensures c[k] % p != 0
  {
    if c[k] % p == 0 {
      var e, pts := c[..k], FlatPoints(k, tau);
      forall x: nat | x <= k ensures Eval(e, x) % p == if tau <= x < k + 1 then 1 else 0 {
        DropLead(c, x, p);
      }
      forall i | 0 <= i < |pts| ensures Eval(Difference(e), pts[i]) % p == 0 {
        DifferenceOfStep(e, tau, k, p, pts[i]);
      }
      FlatDistinct(k, tau, p);
      ManyRoots(Difference(e), pts, p, tau - 1);
      DifferenceOfStep(e, tau, k, p, tau - 1);
    }
  }
}
