/**
 The least-squares fit of the SJ16 calibration (`benchmarks/bench_sj16_calibrate.cpp`).
 `double` is modelled as `real`: rounding is not part of this model.
 */
module LeastSquares {
  import opened Num

  // ------------------------------------------------------------------ finite sums

  ghost function Sum(n: nat, f: int -> real): real {
    if n == 0 then 0.0 else Sum(n - 1, f) + f(n - 1)
  }

  /** A sum of linear combinations is the linear combination of the sums. */
  lemma {:induction false} SumLinear(n: nat, h: int -> real, c: real, f: int -> real, d: real, g: int -> real)
    requires forall i :: 0 <= i < n ==> h(i) == c * f(i) + d * g(i)
    ensures Sum(n, h) == c * Sum(n, f) + d * Sum(n, g)
  {
    SumStep(n, f);
    SumStep(n, g);
    SumStep(n, h);
    hide Sum;
    if n == 0 {
      Collect(c, 0.0, 0.0, d, 0.0, 0.0, 0.0, 0.0);
    } else {
      SumLinear(n - 1, h, c, f, d, g);
      Collect(c, Sum(n - 1, f), f(n - 1), d, Sum(n - 1, g), g(n - 1), Sum(n - 1, h), h(n - 1));
    }
  }

  lemma SumStep(n: nat, f: int -> real)
    ensures Sum(n, f) == if n == 0 then 0.0 else Sum(n - 1, f) + f(n - 1)
  {
  }

  lemma Collect(c: real, a: real, f: real, d: real, b: real, g: real, sum: real, next: real)
    requires sum == c * a + d * b && next == c * f + d * g
    ensures sum + next == c * (a + f) + d * (b + g)
  {
    assert c * (a + f) == c * a + c * f;
    assert d * (b + g) == d * b + d * g;
  }

  lemma {:induction false} SumNonNegative(n: nat, f: int -> real)
    requires forall i :: 0 <= i < n ==> f(i) >= 0.0
    ensures Sum(n, f) >= 0.0
    ensures Sum(n, f) == 0.0 ==> forall i :: 0 <= i < n ==> f(i) == 0.0
  {
    if n > 0 { SumNonNegative(n - 1, f); }
  }

  lemma {:induction false} SumConstant(n: nat, c: real)
    ensures Sum(n, i => c) == n as real * c
  {
    if n > 0 {
      SumConstant(n - 1, c);
      SameSum(n - 1, i => c, i => c);
      assert (n as real) * c == (n - 1) as real * c + c;
    }
  }

  lemma {:induction false} SameSum(n: nat, f: int -> real, g: int -> real)
    requires forall i :: 0 <= i < n ==> f(i) == g(i)
    ensures Sum(n, f) == Sum(n, g)
  {
    if n > 0 { SameSum(n - 1, f, g); }
  }

  // ------------------------------------------------------------------ data

  function At(v: seq<real>, i: int): real {
    if 0 <= i < |v| then v[i] else 0.0
  }

  ghost function Values(v: seq<real>): int -> real {
    i => At(v, i)
  }

  /** v[i] - m */
  ghost function Deviation(v: seq<real>, m: real): int -> real {
    i => At(v, i) - m
  }

  ghost function Times(f: int -> real, g: int -> real): int -> real {
    i => f(i) * g(i)
  }

  /** What the line a*x + b misses at point i. */
  ghost function Residual(x: seq<real>, y: seq<real>, a: real, b: real): int -> real {
    i => At(y, i) - (a * At(x, i) + b)
  }

  ghost function SquaredError(x: seq<real>, y: seq<real>, a: real, b: real): real {
    Sum(|x|, Times(Residual(x, y, a, b), Residual(x, y, a, b)))
  }

  ghost predicate AllEqual(x: seq<real>) {
    forall i, j :: 0 <= i < |x| && 0 <= j < |x| ==> x[i] == x[j]
  }

  ghost function Mean(v: seq<real>): real
    requires v != []
  {
    Sum(|v|, Values(v)) / |v| as real
  }

  /** Deviations from the mean sum to zero. */
  lemma CentredSum(v: seq<real>)
    requires v != []
    ensures Sum(|v|, Deviation(v, Mean(v))) == 0.0
  {
    var n, m := |v|, Mean(v);
    SumConstant(n, m);
    SumLinear(n, Deviation(v, m), 1.0, Values(v), -1.0, i => m);
    assert n as real * m == Sum(n, Values(v));
  }

  /** The normal equations: residuals sum to zero, and to zero against x. */
  ghost predicate NormalEquations(x: seq<real>, y: seq<real>, a: real, b: real) {
    Sum(|x|, Residual(x, y, a, b)) == 0.0 && Sum(|x|, Times(Residual(x, y, a, b), Values(x))) == 0.0
  }

  /** Slope Sxy/Sxx through the point of means satisfies the normal equations. */
  lemma FitIsNormal(x: seq<real>, y: seq<real>, a: real, b: real)
    requires |x| == |y| && x != []
    requires var dx, dy := Deviation(x, Mean(x)), Deviation(y, Mean(y));
      a * Sum(|x|, Times(dx, dx)) == Sum(|x|, Times(dx, dy)) && b == Mean(y) - a * Mean(x)
    ensures NormalEquations(x, y, a, b)
  {
    var n, mx := |x|, Mean(x);
    var dx, res := Deviation(x, mx), Residual(x, y, a, b);
    ResidualSum(x, y, a, b);
    ResidualMoment(x, y, a, b);
    forall i | 0 <= i < n ensures Times(res, Values(x))(i) == 1.0 * Times(res, dx)(i) + mx * res(i) {
      Uncentre(res(i), dx(i), mx);
    }
    SumLinear(n, Times(res, Values(x)), 1.0, Times(res, dx), mx, res);
  }

  /** Around the point of means a residual is dy - a * dx. */
  lemma CentredResidual(x: seq<real>, y: seq<real>, a: real, b: real, i: int)
    requires |x| == |y| && x != [] && b == Mean(y) - a * Mean(x)
    ensures Residual(x, y, a, b)(i) == Deviation(y, Mean(y))(i) - a * Deviation(x, Mean(x))(i)
  {
    hide Mean;
    assert a * (At(x, i) - Mean(x)) == a * At(x, i) - a * Mean(x);
  }

  lemma ResidualSum(x: seq<real>, y: seq<real>, a: real, b: real)
    requires |x| == |y| && x != [] && b == Mean(y) - a * Mean(x)
    ensures Sum(|x|, Residual(x, y, a, b)) == 0.0
  {
    hide Mean, Residual, Deviation;
    var dx, dy, res := Deviation(x, Mean(x)), Deviation(y, Mean(y)), Residual(x, y, a, b);
    CentredSum(x);
    CentredSum(y);
    forall i | 0 <= i < |x| ensures res(i) == 1.0 * dy(i) + (-a) * dx(i) {
      CentredResidual(x, y, a, b, i);
    }
    SumLinear(|x|, res, 1.0, dy, -a, dx);
  }

  lemma ResidualMoment(x: seq<real>, y: seq<real>, a: real, b: real)
    requires |x| == |y| && x != [] && b == Mean(y) - a * Mean(x)
    requires var dx, dy := Deviation(x, Mean(x)), Deviation(y, Mean(y));
      a * Sum(|x|, Times(dx, dx)) == Sum(|x|, Times(dx, dy))
    ensures Sum(|x|, Times(Residual(x, y, a, b), Deviation(x, Mean(x)))) == 0.0
  {
    hide Mean, Residual, Deviation, Sum;
    var dx, dy, res := Deviation(x, Mean(x)), Deviation(y, Mean(y)), Residual(x, y, a, b);
    forall i | 0 <= i < |x| ensures Times(res, dx)(i) == 1.0 * Times(dx, dy)(i) + (-a) * Times(dx, dx)(i) {
      CentredResidual(x, y, a, b, i);
      Spread(dx(i), dy(i), a);
    }
    SumLinear(|x|, Times(res, dx), 1.0, Times(dx, dy), -a, Times(dx, dx));
  }

  lemma Spread(dx: real, dy: real, a: real)
    ensures (dy - a * dx) * dx == dx * dy - a * (dx * dx)
  {
  }

  lemma Uncentre(r: real, dx: real, m: real)
    ensures r * (dx + m) == r * dx + m * r
  {
  }

  /** How far the lines (a, b) and (a', b') are apart at point i. */
  ghost function Gap(x: seq<real>, a: real, b: real, a': real, b': real): int -> real {
    i => (a - a') * At(x, i) + (b - b')
  }

  /** Against a line that satisfies the normal equations every other line pays the squared gap on top. */
  lemma ErrorSplits(x: seq<real>, y: seq<real>, a: real, b: real, a': real, b': real)
    requires |x| == |y| && NormalEquations(x, y, a, b)
    ensures SquaredError(x, y, a', b') ==
      SquaredError(x, y, a, b) + Sum(|x|, Times(Gap(x, a, b, a', b'), Gap(x, a, b, a', b')))
  {
    hide NormalEquations, Residual, Gap, Sum;
    var n := |x|;
    var res, other, gap := Residual(x, y, a, b), Residual(x, y, a', b'), Gap(x, a, b, a', b');
    CrossTerm(x, y, a, b, a', b');
    var both := Plus(Times(res, res), Times(gap, gap));
    SumLinear(n, both, 1.0, Times(res, res), 1.0, Times(gap, gap));
    forall i | 0 <= i < n ensures Times(other, other)(i) == 1.0 * both(i) + 2.0 * Times(res, gap)(i) {
      OtherResidual(x, y, a, b, a', b', i);
      SquareOfSum(res(i), gap(i));
    }
    SumLinear(n, Times(other, other), 1.0, both, 2.0, Times(res, gap));
  }

  ghost function Plus(f: int -> real, g: int -> real): int -> real {
    i => f(i) + g(i)
  }

  /** By the normal equations the residuals are orthogonal to every gap. */
  lemma CrossTerm(x: seq<real>, y: seq<real>, a: real, b: real, a': real, b': real)
    requires |x| == |y| && NormalEquations(x, y, a, b)
    ensures Sum(|x|, Times(Residual(x, y, a, b), Gap(x, a, b, a', b'))) == 0.0
  {
    hide Residual, Sum;
    var p, q := a - a', b - b';
    var res, gap := Residual(x, y, a, b), Gap(x, a, b, a', b');
    var resX := Times(res, Values(x));
    forall i | 0 <= i < |x| ensures Times(res, gap)(i) == p * resX(i) + q * res(i) {
      Cross(res(i), p, At(x, i), q);
    }
    SumLinear(|x|, Times(res, gap), p, resX, q, res);
  }

  lemma Cross(r: real, p: real, x: real, q: real)
    ensures r * (p * x + q) == p * (r * x) + q * r
  {
    assert r * (p * x) == p * (r * x);
  }

  lemma OtherResidual(x: seq<real>, y: seq<real>, a: real, b: real, a': real, b': real, i: int)
    ensures Residual(x, y, a', b')(i) == Residual(x, y, a, b)(i) + Gap(x, a, b, a', b')(i)
  {
    assert (a - a') * At(x, i) == a * At(x, i) - a' * At(x, i);
  }

  lemma SquareOfSum(r: real, g: real)
    ensures (r + g) * (r + g) == r * r + g * g + 2.0 * (r * g)
  {
  }

  lemma SquareSign(r: real, t: real)
    requires t == r * r
    ensures t >= 0.0 && (r != 0.0 ==> t != 0.0)
  {
    if r > 0.0 {
      RealPositive(r, r, t);
    } else if r < 0.0 {
      RealPositive(-r, -r, t);
    } else {
      ZeroProduct(r, r, t);
    }
  }

  lemma ZeroProduct(r: real, s: real, t: real)
    requires r == 0.0 && t == r * s
    ensures t == 0.0
  {
  }

  lemma TimesAt(f: int -> real, i: int) returns (r: real, t: real)
    ensures r == f(i) && t == Times(f, f)(i) && t == r * r
  {
    r, t := f(i), Times(f, f)(i);
  }

  lemma SquareAt(f: int -> real, i: int)
    ensures Times(f, f)(i) >= 0.0
    ensures f(i) != 0.0 ==> Times(f, f)(i) != 0.0
  {
    var r, t := TimesAt(f, i);
    SquareSign(r, t);
  }

  lemma SumOfSquares(n: nat, f: int -> real)
    ensures Sum(n, Times(f, f)) >= 0.0
    ensures Sum(n, Times(f, f)) == 0.0 ==> forall i :: 0 <= i < n ==> f(i) == 0.0
  {
    forall i ensures Times(f, f)(i) >= 0.0 && (f(i) != 0.0 ==> Times(f, f)(i) != 0.0) { SquareAt(f, i); }
    SumNonNegative(n, Times(f, f));
    if Sum(n, Times(f, f)) == 0.0 {
      forall i | 0 <= i < n ensures f(i) == 0.0 {
        assert Times(f, f)(i) == 0.0;
      }
    }
  }

  /** The squared deviations sum to zero exactly for constant data. */
  lemma SpreadIsZero(x: seq<real>)
    requires x != []
    ensures var dx := Deviation(x, Mean(x)); Sum(|x|, Times(dx, dx)) == 0.0 <==> AllEqual(x)
  {
    var n, m := |x|, Mean(x);
    var dx := Deviation(x, m);
    SumOfSquares(n, dx);
    if Sum(n, Times(dx, dx)) == 0.0 {
      forall i | 0 <= i < n ensures x[i] == m { assert dx(i) == 0.0; }
    }
    if AllEqual(x) {
      SameSum(n, Values(x), i => x[0]);
      SumConstant(n, x[0]);
      assert m * n as real == x[0] * n as real;
      forall i | 0 <= i < n ensures Times(dx, dx)(i) == 0.0 { assert dx(i) == 0.0; }
      SameSum(n, Times(dx, dx), i => 0.0);
      SumConstant(n, 0.0);
    }
  }

  /** Optimality, with equality only for the fit itself. */
  lemma FitIsOptimal(x: seq<real>, y: seq<real>, a: real, b: real, a': real, b': real)
    requires |x| == |y| && !AllEqual(x) && NormalEquations(x, y, a, b)
    ensures SquaredError(x, y, a, b) <= SquaredError(x, y, a', b')
    ensures SquaredError(x, y, a, b) == SquaredError(x, y, a', b') ==> a == a' && b == b'
  {
    var gap := Gap(x, a, b, a', b');
    ErrorSplits(x, y, a, b, a', b');
    SumOfSquares(|x|, gap);
    if Sum(|x|, Times(gap, gap)) == 0.0 {
      var i, j :| 0 <= i < |x| && 0 <= j < |x| && x[i] != x[j];
      assert gap(i) == 0.0 && gap(j) == 0.0;
      TwoZeros(a - a', b - b', x[i], x[j]);
    }
  }

  lemma TwoZeros(p: real, q: real, u: real, v: real)
    requires u != v && p * u + q == 0.0 && p * v + q == 0.0
    ensures p == 0.0 && q == 0.0
  {
    assert p * (u - v) == 0.0;
  }

  /** The horizontal line through the mean is a competitor, so the explained share lies in [0, 1]. */
  lemma ShareInRange(x: seq<real>, y: seq<real>, a: real, b: real)
    requires |x| == |y| && x != [] && NormalEquations(x, y, a, b)
    ensures var total := Sum(|y|, Times(Deviation(y, Mean(y)), Deviation(y, Mean(y))));
      0.0 <= SquaredError(x, y, a, b) <= total
  {
    var m := Mean(y);
    var dy, flat := Deviation(y, m), Residual(x, y, 0.0, m);
    ErrorSplits(x, y, a, b, 0.0, m);
    SumOfSquares(|x|, Gap(x, a, b, 0.0, m));
    SumOfSquares(|x|, Residual(x, y, a, b));
    SameSum(|x|, Times(flat, flat), Times(dy, dy));
  }

  /** The sum of products of deviations from the means. */
  ghost function Scatter(x: seq<real>, y: seq<real>): real
    requires x != [] && y != []
  {
    Sum(|x|, Times(Deviation(x, Mean(x)), Deviation(y, Mean(y))))
  }

  /** The points lie on the line a*x + b. */
  ghost predicate OnLine(x: seq<real>, y: seq<real>, a: real, b: real)
    requires |x| == |y|
  {
    forall i :: 0 <= i < |x| ==> y[i] == a * x[i] + b
  }

  /** Points on a line are fitted by that line. */
  lemma ExactLine(x: seq<real>, y: seq<real>, a: real, b: real, a': real, b': real)
    requires |x| == |y| && !AllEqual(x) && NormalEquations(x, y, a, b) && OnLine(x, y, a', b')
    ensures a == a' && b == b' && SquaredError(x, y, a, b) == 0.0
  {
    var res := Residual(x, y, a', b');
    forall i | 0 <= i < |x| ensures Times(res, res)(i) == 0.0 { assert res(i) == 0.0; }
    SameSum(|x|, Times(res, res), i => 0.0);
    SumConstant(|x|, 0.0);
    hide NormalEquations, AllEqual;
    SumOfSquares(|x|, Residual(x, y, a, b));
    FitIsOptimal(x, y, a, b, a', b');
  }

  /** The squared deviations of y are those the line explains and those it misses. */
  lemma ExplainedSpread(x: seq<real>, y: seq<real>, a: real, b: real)
    requires |x| == |y| && x != [] && NormalEquations(x, y, a, b) && b == Mean(y) - a * Mean(x)
    ensures Scatter(y, y) == SquaredError(x, y, a, b) + (a * a) * Scatter(x, x)
  {
    hide NormalEquations, Mean, Gap, Deviation, Residual, Sum, Times;
    var m := Mean(y);
    var dx, gap := Deviation(x, Mean(x)), Gap(x, a, b, 0.0, m);
    ErrorSplits(x, y, a, b, 0.0, m);
    FlatError(x, y, m);
    forall i | 0 <= i < |x|
      ensures Times(gap, gap)(i) == (a * a) * Times(dx, dx)(i) + 0.0 * Times(dx, dx)(i)
    {
      GapAt(x, y, a, b, i);
    }
    SumLinear(|x|, Times(gap, gap), a * a, Times(dx, dx), 0.0, Times(dx, dx));
  }

  lemma FlatError(x: seq<real>, y: seq<real>, m: real)
    requires |x| == |y|
    ensures SquaredError(x, y, 0.0, m) == Sum(|y|, Times(Deviation(y, m), Deviation(y, m)))
  {
    var dy, flat := Deviation(y, m), Residual(x, y, 0.0, m);
    forall i | 0 <= i < |x| ensures Times(flat, flat)(i) == Times(dy, dy)(i) { assert flat(i) == dy(i); }
    hide Sum;
    SameSum(|x|, Times(flat, flat), Times(dy, dy));
  }

  lemma GapAt(x: seq<real>, y: seq<real>, a: real, b: real, i: nat)
    requires |x| == |y| && i < |x| && b == Mean(y) - a * Mean(x)
    ensures var dx, gap := Deviation(x, Mean(x)), Gap(x, a, b, 0.0, Mean(y));
      Times(gap, gap)(i) == (a * a) * Times(dx, dx)(i)
  {
    hide Mean;
    var d := At(x, i) - Mean(x);
    assert a * d == a * At(x, i) - a * Mean(x);
    assert Gap(x, a, b, 0.0, Mean(y))(i) == a * d;
    SquaredProduct(a, d);
  }

  lemma SquaredProduct(a: real, d: real)
    ensures (a * d) * (a * d) == (a * a) * (d * d)
  {
  }

  lemma Explained(res: real, tot: real, sxx: real, sxy: real, a: real)
    requires tot == res + (a * a) * sxx && sxx != 0.0 && a == sxy / sxx
    ensures var r2 := if tot == 0.0 then 1.0 else 1.0 - res / tot;
      (tot == 0.0 ==> res == 0.0) ==>
        (1.0 - r2) * tot == res && r2 * (sxx * tot) == sxy * sxy
  {
    assert a * sxx == sxy;
    var e := (a * a) * sxx;
    assert e * sxx == (a * sxx) * (a * sxx);
    if tot == 0.0 {
      if res == 0.0 { assert e == 0.0; assert sxx * tot == 0.0; }
    } else {
      var q := res / tot;
      assert q * tot == res;
      assert (1.0 - q) * tot == e;
      assert (1.0 - q) * (sxx * tot) == ((1.0 - q) * tot) * sxx;
    }
  }

  // ------------------------------------------------------------------ the fit

  datatype LinFit = LinFit(alpha: real, beta: real, r2: real)

  /** What the fitted line and its share are worth. */
  lemma FitFacts(x: seq<real>, y: seq<real>, alpha: real, beta: real, sxx: real, sxy: real)
    requires |x| == |y| && x != [] && !AllEqual(x) && NormalEquations(x, y, alpha, beta)
    requires sxx == Scatter(x, x) && sxx != 0.0 && sxy == Scatter(x, y)
    requires alpha == sxy / sxx && beta == Mean(y) - alpha * Mean(x)
    ensures forall a, b :: SquaredError(x, y, alpha, beta) <= SquaredError(x, y, a, b)
    ensures var res, tot := SquaredError(x, y, alpha, beta), Scatter(y, y);
      var r2 := if tot == 0.0 then 1.0 else 1.0 - res / tot;
      && 0.0 <= r2 <= 1.0 && (r2 == 1.0 <==> res == 0.0)
      && (1.0 - r2) * tot == res && r2 * (sxx * tot) == sxy * sxy && (AllEqual(y) ==> r2 == 1.0)
    ensures forall a, b :: OnLine(x, y, a, b) ==> a == alpha && b == beta && SquaredError(x, y, alpha, beta) == 0.0
  {
    forall a, b ensures SquaredError(x, y, alpha, beta) <= SquaredError(x, y, a, b) {
      FitIsOptimal(x, y, alpha, beta, a, b);
    }
    ShareInRange(x, y, alpha, beta);
    SpreadIsZero(y);
    ExplainedSpread(x, y, alpha, beta);
    forall a, b | OnLine(x, y, a, b) ensures a == alpha && b == beta && SquaredError(x, y, alpha, beta) == 0.0 {
      ExactLine(x, y, alpha, beta, a, b);
    }
    var res, tot := SquaredError(x, y, alpha, beta), Scatter(y, y);
    hide SquaredError, NormalEquations, OnLine, Scatter, AllEqual, Sum, Times;
    Share(res, tot);
    Explained(res, tot, sxx, sxy, alpha);
  }

  /**
   FitLinear: for data whose x values are not all equal, the unique line of least squared
   error; fewer than two points or constant x give the zero fit.  R^2 is the share of the
   squared deviations of y that the line explains, the square of the correlation; constant
   y count as explained.
   */
  method FitLinear(x: seq<real>, y: seq<real>) returns (f: LinFit)
    requires |x| == |y|
    ensures |x| < 2 || AllEqual(x) ==> f == LinFit(0.0, 0.0, 0.0)
    ensures !AllEqual(x) ==> NormalEquations(x, y, f.alpha, f.beta)
    ensures !AllEqual(x) ==> forall a, b :: SquaredError(x, y, f.alpha, f.beta) <= SquaredError(x, y, a, b)
    ensures 0.0 <= f.r2 <= 1.0
    ensures !AllEqual(x) ==> (f.r2 == 1.0 <==> SquaredError(x, y, f.alpha, f.beta) == 0.0)
    ensures !AllEqual(x) ==> (1.0 - f.r2) * Scatter(y, y) == SquaredError(x, y, f.alpha, f.beta)
    ensures !AllEqual(x) ==> f.r2 * (Scatter(x, x) * Scatter(y, y)) == Scatter(x, y) * Scatter(x, y)
    ensures !AllEqual(x) && AllEqual(y) ==> f.r2 == 1.0
    ensures !AllEqual(x) ==> forall a, b :: OnLine(x, y, a, b) ==> f == LinFit(a, b, 1.0)
  {
    f := LinFit(0.0, 0.0, 0.0);
    var n := |x|;
    if n < 2 { return; }
    var meanX, meanY := Means(x, y);
    var sxx, sxy := Moments(x, y, meanX, meanY);
    SpreadIsZero(x);
    if sxx == 0.0 { return; }
    var alpha := sxy / sxx;
    var beta := meanY - alpha * meanX;
    FitIsNormal(x, y, alpha, beta);
    var ssRes, ssTot := Errors(x, y, alpha, beta, meanY);
    hide SquaredError, NormalEquations, OnLine, Scatter, Sum, Times;
    FitFacts(x, y, alpha, beta, sxx, sxy);
    f := LinFit(alpha, beta, if ssTot == 0.0 then 1.0 else 1.0 - ssRes / ssTot);
  }

  lemma Share(res: real, tot: real)
    requires 0.0 <= res <= tot
    ensures tot == 0.0 ==> res == 0.0
    ensures tot != 0.0 ==> 0.0 <= 1.0 - res / tot <= 1.0 && (1.0 - res / tot == 1.0 <==> res == 0.0)
  {
    if tot != 0.0 {
      var q := res / tot;
      assert q * tot == res;
      assert q < 0.0 ==> q * tot < 0.0;
      assert q > 1.0 ==> (q - 1.0) * tot > 0.0;
    }
  }

  method Means(x: seq<real>, y: seq<real>) returns (meanX: real, meanY: real)
    requires |x| == |y| && x != []
    ensures meanX == Mean(x) && meanY == Mean(y)
  {
    meanX, meanY := 0.0, 0.0;
    for i := 0 to |x|
      invariant meanX == Sum(i, Values(x)) && meanY == Sum(i, Values(y))
    {
      SameSum(i, Values(x), Values(x));
      meanX := meanX + x[i];
      meanY := meanY + y[i];
    }
    meanX := meanX / |x| as real;
    meanY := meanY / |x| as real;
  }

  lemma ProductStep(n: nat, f: int -> real, g: int -> real, a: real, b: real)
    requires f(n) == a && g(n) == b
    ensures Sum(n + 1, Times(f, g)) == Sum(n, Times(f, g)) + a * b
  {
  }

  lemma EmptySum(f: int -> real)
    ensures Sum(0, f) == 0.0
  {
  }

  method Moments(x: seq<real>, y: seq<real>, meanX: real, meanY: real) returns (sxx: real, sxy: real)
    requires |x| == |y|
    ensures var dx, dy := Deviation(x, meanX), Deviation(y, meanY);
      sxx == Sum(|x|, Times(dx, dx)) && sxy == Sum(|x|, Times(dx, dy))
  {
    sxx, sxy := 0.0, 0.0;
    ghost var dx, dy := Deviation(x, meanX), Deviation(y, meanY);
    EmptySum(Times(dx, dx));
    EmptySum(Times(dx, dy));
    hide Sum, Times;
    for i := 0 to |x|
      invariant sxx == Sum(i, Times(dx, dx)) && sxy == Sum(i, Times(dx, dy))
    {
      var d, e := x[i] - meanX, y[i] - meanY;
      ProductStep(i, dx, dx, d, d);
      ProductStep(i, dx, dy, d, e);
      sxx := sxx + d * d;
      sxy := sxy + d * e;
    }
  }

  method Errors(x: seq<real>, y: seq<real>, alpha: real, beta: real, meanY: real) returns (ssRes: real, ssTot: real)
    requires |x| == |y|
    ensures ssRes == SquaredError(x, y, alpha, beta)
    ensures ssTot == Sum(|y|, Times(Deviation(y, meanY), Deviation(y, meanY)))
  {
    ssRes, ssTot := 0.0, 0.0;
    ghost var res, dy := Residual(x, y, alpha, beta), Deviation(y, meanY);
    EmptySum(Times(res, res));
    EmptySum(Times(dy, dy));
    hide Sum, Times;
    for i := 0 to |x|
      invariant ssRes == Sum(i, Times(res, res)) && ssTot == Sum(i, Times(dy, dy))
    {
      var pred := alpha * x[i] + beta;
      var miss, d := y[i] - pred, y[i] - meanY;
      ProductStep(i, res, res, miss, miss);
      ProductStep(i, dy, dy, d, d);
      ssRes := ssRes + miss * miss;
      ssTot := ssTot + d * d;
    }
  }
}
