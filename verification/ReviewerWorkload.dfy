/**
 Equal-size sets for a target Jaccard (`benchmarks/bench_comparison.cpp`) and the exact
 integer rounding of the manifest workload (`benchmarks/comparison_workload.cpp`).
 `long double` is modelled as `real`.
 */
module ReviewerWorkload {
  import opened Num
  import opened Wrappers
  import Baseline

  // ------------------------------------------------------------------ order of quotients

  lemma Quotient(a: real, b: real, q: real)
    requires b > 0.0 && q == a / b
    ensures q * b == a
  {
  }

  lemma Compare(a: real, b: real, c: real, d: real)
    requires b > 0.0 && d > 0.0
    ensures a / b <= c / d <==> a * d <= c * b
  {
    var p, q := a / b, c / d;
    Quotient(a, b, p);
    Quotient(c, d, q);
    assert a * d == p * (b * d) by { assert (p * b) * d == p * (b * d); }
    assert c * b == q * (b * d) by { assert (q * d) * b == q * (b * d); }
    OrderByFactor(p, q, b, d);
  }

  lemma OrderByFactor(p: real, q: real, b: real, d: real)
    requires b > 0.0 && d > 0.0
    ensures p <= q <==> p * (b * d) <= q * (b * d)
  {
    var f := b * d;
    RealPositive(b, d, f);
    if p <= q {
      RealProduct(q - p, f, (q - p) * f);
      assert (q - p) * f == q * f - p * f;
    } else {
      RealPositive(p - q, f, (p - q) * f);
      assert (p - q) * f == p * f - q * f;
    }
  }

  // ------------------------------------------------------------------ Jaccard of equal-size sets

  /** x common elements of two sets of n: x / (2n - x). */
  function Share(n: real, x: real): real
    requires x <= n && n > 0.0
  {
    x / (2.0 * n - x)
  }

  lemma ShareMonotone(n: real, x: real, y: real)
    requires n > 0.0 && x <= y <= n
    ensures Share(n, x) <= Share(n, y)
  {
    Compare(x, 2.0 * n - x, y, 2.0 * n - y);
    RealProduct(2.0 * n, y - x, 2.0 * n * (y - x));
    assert x * (2.0 * n - y) == 2.0 * n * x - x * y;
    assert y * (2.0 * n - x) == 2.0 * n * y - y * x;
    assert 2.0 * n * (y - x) == 2.0 * n * y - 2.0 * n * x;
  }

  /** The intersection that would hit the target exactly. */
  function Ideal(n: real, t: real): real
    requires t != -1.0
  {
    (2.0 * n * t) / (1.0 + t)
  }

  lemma IdealHits(n: real, t: real)
    requires n > 0.0 && 0.0 <= t <= 1.0
    ensures 0.0 <= Ideal(n, t) <= n && Share(n, Ideal(n, t)) == t
  {
    var x, d := Ideal(n, t), 1.0 + t;
    Quotient(2.0 * n * t, d, x);
    assert x * d == x + x * t;
    RealProduct(n, t, n * t);
    RealProduct(n, 1.0 - t, n * (1.0 - t));
    assert n * (1.0 - t) == n - n * t;
    NonNegativeFactor(x, d, 2.0 * (n * t));
    assert (n - x) * d == n + n * t - 2.0 * (n * t) by {
      assert (n - x) * d == n * d - x * d;
      assert n * d == n + n * t;
    }
    NonNegativeFactor(n - x, d, n - n * t);
    var u := 2.0 * n - x;
    assert t * u == 2.0 * (n * t) - x * t by { assert t * u == t * (2.0 * n) - t * x; }
    QuotientIs(x, u, t);
  }

  lemma NonNegativeFactor(x: real, d: real, p: real)
    requires d > 0.0 && p >= 0.0 && x * d == p
    ensures x >= 0.0
  {
    if x < 0.0 { RealPositive(-x, d, -p); }
  }

  lemma QuotientIs(a: real, b: real, q: real)
    requires b > 0.0 && q * b == a
    ensures a / b == q
  {
  }

  /** Rounding to the nearest integer moves the Jaccard by at most 1/n. */
  lemma RoundingBound(n: real, x: real, i: real)
    requires n > 0.0 && 0.0 <= x <= n && 0.0 <= i <= n && x - 0.5 <= i <= x + 0.5
    ensures Share(n, i) - Share(n, x) <= 1.0 / n && Share(n, x) - Share(n, i) <= 1.0 / n
  {
    if i >= x {
      ShareMonotone(n, x, i);
      SmallStep(n, x, i);
    } else {
      ShareMonotone(n, i, x);
      SmallStep(n, i, x);
    }
    Compare(0.0, 1.0, 1.0, n);
  }

  lemma SmallStep(n: real, x: real, y: real)
    requires n > 0.0 && 0.0 <= x <= y <= n && y - x <= 0.5
    ensures Share(n, y) - Share(n, x) <= 1.0 / n
  {
    var d, e, r := 2.0 * n - y, 2.0 * n - x, 1.0 / n;
    var p, q := Share(n, y), Share(n, x);
    Quotient(y, d, p);
    Quotient(x, e, q);
    Quotient(1.0, n, r);
    // (p - q) * d * e == 2n (y - x) <= n <= r * d * e
    var g := p - q;
    assert g * (d * e) == y * e - x * d by {
      assert (p * d) * e == p * (d * e);
      assert (q * e) * d == q * (d * e);
      assert g * (d * e) == p * (d * e) - q * (d * e);
    }
    assert y * e - x * d == 2.0 * n * (y - x) by {
      assert y * e == 2.0 * n * y - x * y;
      assert x * d == 2.0 * n * x - x * y;
      assert 2.0 * n * (y - x) == 2.0 * n * y - 2.0 * n * x;
    }
    HalfStep(n, y - x);
    RoomForBoth(n, d, e, r);
    Cancel(g, r, d * e, d, e);
  }

  lemma HalfStep(n: real, s: real)
    requires n > 0.0 && s <= 0.5
    ensures 2.0 * n * s <= n
  {
    RealProduct(2.0 * n, 0.5 - s, 2.0 * n * (0.5 - s));
    assert 2.0 * n * (0.5 - s) == n - 2.0 * n * s;
  }

  /** r == 1/n and d, e >= n give n <= r * (d * e). */
  lemma RoomForBoth(n: real, d: real, e: real, r: real)
    requires n > 0.0 && d >= n && e >= n && r * n == 1.0
    ensures n <= r * (d * e)
  {
    NonNegativeFactor(r, n, 1.0);
    RealProduct(d - n, e, (d - n) * e);
    RealProduct(n, e - n, n * (e - n));
    assert d * e - n * n == (d - n) * e + n * (e - n);
    RealProduct(r, d * e - n * n, r * (d * e - n * n));
    assert r * (d * e - n * n) == r * (d * e) - r * (n * n);
    assert r * (n * n) == (r * n) * n;
  }

  lemma Cancel(g: real, r: real, f: real, d: real, e: real)
    requires d > 0.0 && e > 0.0 && f == d * e && g * f <= r * f
    ensures g <= r
  {
    OrderByFactor(g, r, d, e);
  }

  // ------------------------------------------------------------------ rounding

  /** llround: halves go away from zero. */
  function Round(x: real): (r: int)
    ensures x - 0.5 <= r as real <= x + 0.5
    ensures (x >= 0.0 ==> x - 0.5 < r as real) && (x < 0.0 ==> r as real < x + 0.5)
  {
    if x >= 0.0 then (x + 0.5).Floor else -((0.5 - x).Floor)
  }

  /** i is a nearest integer to x. */
  ghost predicate Rounds(x: real, i: int) {
    x - 0.5 <= i as real <= x + 0.5
  }

  lemma RoundInRange(x: real, i: int, n: nat)
    requires 0.0 <= x <= n as real && Rounds(x, i)
    ensures 0 <= i <= n
  {
    assert i as real > -1.0;
    assert (n as real) + 0.5 < (n + 1) as real;
  }

  /** i is a nearest integer to a / d. */
  ghost predicate Nearest(a: int, d: int, i: int) {
    2 * (i * d) <= 2 * a + d && 2 * a <= 2 * (i * d) + d
  }

  /** The manifest workload's exact rounding, halves down: it fails only for targets above one. */
  method TargetIntersection(n: nat, num: nat, den: nat) returns (r: Result<nat>)
    requires den > 0
    ensures num <= den ==> r.Ok?
    ensures r.Ok? ==> r.value <= n && Nearest(2 * n * num, den + num, r.value)
    ensures r.Ok? ==> 2 * (r.value * (den + num)) < 2 * (2 * n * num) + (den + num)
    ensures r.Err? ==> r.error.InvalidArgument? && 2 * (n * (den + num)) + (den + num) < 2 * (2 * n * num)
  {
    var numerator, denominator := 2 * n * num, den + num;
    var quotient, remainder := numerator / denominator, numerator % denominator;
    ghost var whole := quotient;
    Divided(numerator, denominator, quotient, remainder);
    if 2 * remainder > denominator { quotient := quotient + 1; }
    RoundedUp(numerator, denominator, whole, remainder, quotient);
    if num <= den { NotAbove(n, num, den, numerator, denominator, whole, remainder, quotient); }
    if quotient > n {
      return Err(InvalidArgument("target intersection is out of range"));
    }
    return Ok(quotient);
  }

  lemma Divided(a: nat, d: nat, q: int, r: int)
    requires d > 0 && q == a / d && r == a % d
    ensures a == q * d + r && 0 <= r < d && q >= 0
  {
  }

  lemma RoundedUp(a: nat, d: nat, q: int, r: int, rounded: int)
    requires d > 0 && a == q * d + r && 0 <= r < d && rounded == if 2 * r > d then q + 1 else q
    ensures Nearest(a, d, rounded) && 2 * (rounded * d) < 2 * a + d
    ensures forall n: int :: rounded > n ==> 2 * (n * d) + d < 2 * a
  {
    assert (q + 1) * d == q * d + d;
    forall n: int | rounded > n ensures 2 * (n * d) + d < 2 * a {
      MulMono(n, rounded - 1, d);
      assert (rounded - 1) * d == rounded * d - d;
    }
  }

  lemma NotAbove(n: nat, num: nat, den: nat, a: nat, d: nat, q: int, r: int, rounded: int)
    requires num <= den && den > 0 && a == 2 * n * num && d == den + num && a == q * d + r && 0 <= r < d
    requires rounded == if 2 * r > d then q + 1 else q
    ensures rounded <= n
  {
    AtMostOne(n, num, den);
    AtMostQuotient(a, d, n, q, r);
  }

  lemma AtMostOne(n: nat, num: nat, den: nat)
    requires num <= den
    ensures 2 * n * num <= n * (den + num)
  {
    MulMono(num, den, n);
    assert n * (den + num) == n * den + n * num;
  }

  lemma AtMostQuotient(a: int, d: int, n: int, q: int, r: int)
    requires a <= n * d && a == q * d + r && 0 <= r < d
    ensures q <= n && (q == n ==> r == 0)
  {
    assert (n + 1) * d == n * d + d;
    if q > n { MulMono(n + 1, q, d); }
  }

  /** In terms of reals: the exact rounding is a nearest integer to the ideal intersection. */
  lemma TargetRounds(n: nat, num: nat, den: nat, i: nat)
    requires den > 0 && Nearest(2 * n * num, den + num, i)
    ensures Rounds(Ideal(n as real, num as real / den as real), i)
  {
    var t, d := num as real / den as real, (den + num) as real;
    Quotient(num as real, den as real, t);
    NonNegativeFactor(t, den as real, num as real);
    var x := Ideal(n as real, t);
    IdealRational(n, num, den, t, x);
    hide Ideal, Nearest;
    Embed(i, den + num, 2 * n * num);
    Near(x, i as real, d, (2 * n * num) as real);
  }

  lemma Near(x: real, i: real, d: real, a: real)
    requires d > 0.0 && x * d == a && 2.0 * (i * d) <= 2.0 * a + d && 2.0 * a <= 2.0 * (i * d) + d
    ensures x - 0.5 <= i <= x + 0.5
  {
    HalfOff(x, i, d, a, i * d);
  }

  lemma Embed(i: nat, d: nat, a: nat)
    requires Nearest(a, d, i)
    ensures var p := i as real * d as real;
      2.0 * p <= 2.0 * a as real + d as real && 2.0 * a as real <= 2.0 * p + d as real
  {
    var p := i * d;
    assert p as real == i as real * d as real;
    assert (2 * p) as real <= (2 * a + d) as real && (2 * a) as real <= (2 * p + d) as real;
  }

  lemma IdealRational(n: nat, num: nat, den: nat, t: real, x: real)
    requires den > 0 && t * den as real == num as real && t >= 0.0 && x == Ideal(n as real, t)
    ensures x * (den + num) as real == (2 * n * num) as real
  {
    var e, nn := den as real, n as real;
    Quotient(2.0 * nn * t, 1.0 + t, x);
    assert (1.0 + t) * e == e + num as real;
    assert (x * (1.0 + t)) * e == x * ((1.0 + t) * e);
    assert (2.0 * nn * t) * e == 2.0 * nn * (t * e);
    assert (2 * n * num) as real == 2.0 * nn * num as real;
  }

  lemma HalfOff(x: real, i: real, d: real, u: real, v: real)
    requires d > 0.0 && u == x * d && v == i * d && 2.0 * v <= 2.0 * u + d && 2.0 * u <= 2.0 * v + d
    ensures x - 0.5 <= i <= x + 0.5
  {
    var p, q := u - v + 0.5 * d, v - u + 0.5 * d;
    assert (x - i + 0.5) * d == p && (i - x + 0.5) * d == q;
    NonNegativeFactor(x - i + 0.5, d, p);
    NonNegativeFactor(i - x + 0.5, d, q);
  }

  // ------------------------------------------------------------------ when rounding is nearest in Jaccard

  /** Distance of the Jaccard of i common elements from the target. */
  function Distance(n: nat, t: real, i: nat): real
    requires 0 < n && i <= n
  {
    var s := Share(n as real, i as real);
    if s >= t then s - t else t - s
  }

  /** No intersection size comes closer to the target than i. */
  ghost predicate IsNearest(n: nat, t: real, i: nat)
    requires 0 < n && i <= n
  {
    forall j: nat :: j <= n ==> Distance(n, t, i) <= Distance(n, t, j)
  }

  /** Convexity: half way up in the intersection is at most half way up in Jaccard. */
  lemma Convex(n: real, x: real)
    requires n > 0.0 && 0.0 <= x && x + 1.0 <= n
    ensures 2.0 * Share(n, x + 0.5) <= Share(n, x) + Share(n, x + 1.0)
  {
    var d := 2.0 * n - x;
    var a, b, c := Share(n, x), Share(n, x + 0.5), Share(n, x + 1.0);
    ShareAsQuotient(n, x, d, a);
    ShareAsQuotient(n, x + 0.5, d - 0.5, b);
    ShareAsQuotient(n, x + 1.0, d - 1.0, c);
    MiddleQuotient(2.0 * n, d, a + 1.0, b + 1.0, c + 1.0);
  }

  lemma ShareAsQuotient(n: real, x: real, d: real, s: real)
    requires n > 0.0 && x <= n && d == 2.0 * n - x && s == Share(n, x)
    ensures d >= n && (s + 1.0) * d == 2.0 * n
  {
    Quotient(x, d, s);
    assert (s + 1.0) * d == s * d + d;
  }

  /** m/d + m/(d-1) >= 2m/(d-1/2) */
  lemma MiddleQuotient(m: real, d: real, a: real, b: real, c: real)
    requires m > 0.0 && d > 1.0 && a * d == m && b * (d - 0.5) == m && c * (d - 1.0) == m
    ensures 2.0 * b <= a + c
  {
    var e := d - 0.5;
    // a = m/(e+1/2), c = m/(e-1/2): (a + c - 2b) * (e+1/2)(e-1/2)e = m/2
    var f := d * (d - 1.0);
    RealPositive(d, d - 1.0, f);
    assert f == e * e - 0.25;
    assert a * f == m * (d - 1.0) by { assert a * f == (a * d) * (d - 1.0); }
    assert c * f == m * d by { assert c * f == (c * (d - 1.0)) * d; }
    assert (a + c) * f == m * (2.0 * e) by {
      assert (a + c) * f == a * f + c * f;
      assert m * (d - 1.0) + m * d == m * (2.0 * e);
    }
    NonNegativeFactor(b, e, m);
    assert (2.0 * b) * f == m * (2.0 * e) - 0.5 * b by {
      assert (2.0 * b) * f == 2.0 * (b * f);
      assert b * f == b * (e * e) - 0.25 * b;
      assert b * (e * e) == (b * e) * e;
    }
    Cancel(2.0 * b, a + c, f, d, d - 1.0);
  }

  /** Rounding down (or hitting) is always nearest. */
  lemma DownIsNearest(n: nat, t: real, i: nat)
    requires 0 < n && 0.0 <= t <= 1.0 && i <= n && Rounds(Ideal(n as real, t), i) && i as real <= Ideal(n as real, t)
    ensures IsNearest(n, t, i)
  {
    var nn, x := n as real, Ideal(n as real, t);
    IdealHits(nn, t);
    ShareMonotone(nn, i as real, x);
    if i < n {
      ShareMonotone(nn, x, i as real + 0.5);
      Convex(nn, i as real);
    }
    forall j: nat | j <= n ensures Distance(n, t, i) <= Distance(n, t, j) {
      if j <= i {
        ShareMonotone(nn, j as real, i as real);
      } else {
        ShareMonotone(nn, i as real + 1.0, j as real);
      }
    }
  }

  /** Rounding up is nearest exactly when the target lies in the upper half between the two neighbours. */
  lemma UpIsNearest(n: nat, t: real, i: nat)
    requires 0 < n && 0.0 <= t <= 1.0 && 0 < i <= n && Rounds(Ideal(n as real, t), i) && i as real > Ideal(n as real, t)
    ensures IsNearest(n, t, i) <==> 2.0 * t >= Share(n as real, (i - 1) as real) + Share(n as real, i as real)
  {
    var nn, x := n as real, Ideal(n as real, t);
    IdealHits(nn, t);
    ShareMonotone(nn, x, i as real);
    ShareMonotone(nn, (i - 1) as real, x);
    if 2.0 * t >= Share(nn, (i - 1) as real) + Share(nn, i as real) {
      forall j: nat | j <= n ensures Distance(n, t, i) <= Distance(n, t, j) {
        if j >= i {
          ShareMonotone(nn, i as real, j as real);
        } else {
          ShareMonotone(nn, j as real, (i - 1) as real);
        }
      }
    } else {
      assert Distance(n, t, i) > Distance(n, t, i - 1);
    }
  }

  /** The comment's promise, exactly: nearest iff rounded down or past the middle of the two neighbouring values. */
  lemma NearestExactly(n: nat, t: real, i: nat)
    requires 0 < n && 0.0 <= t <= 1.0 && i <= n && Rounds(Ideal(n as real, t), i)
    ensures IsNearest(n, t, i) <==>
      (i as real <= Ideal(n as real, t) || 2.0 * t >= Share(n as real, i as real - 1.0) + Share(n as real, i as real))
  {
    IdealHits(n as real, t);
    if i as real <= Ideal(n as real, t) {
      DownIsNearest(n, t, i);
    } else {
      assert (i - 1) as real == i as real - 1.0;
      UpIsNearest(n, t, i);
    }
  }

  /** For one element and target 0.4 rounding picks Jaccard 1 although 0 is closer. */
  lemma NotAlwaysNearest(t: real)
    requires t == 0.4
    ensures Round(Ideal(1.0, t)) == 1 && !IsNearest(1, t, 1)
  {
    Quotient(0.8, 1.4, Ideal(1.0, t));
    var x := Ideal(1.0, t);
    assert 0.5 <= x < 1.0;
    assert Share(1.0, 0.0) == 0.0 && Share(1.0, 1.0) == 1.0;
    assert Distance(1, t, 1) > Distance(1, t, 0);
  }

  // ------------------------------------------------------------------ the workload

  datatype Workload = Workload(
    a: seq<nat>, b: seq<nat>, target: real, intersection: nat, unionSize: nat, realized: real)

  lemma RangeElems(lo: nat, hi: nat)
    requires lo <= hi
    ensures forall e :: e in Range(lo, hi) <==> lo <= e < hi
  {
    var s := Range(lo, hi);
    forall e ensures e in s <==> lo <= e < hi {
      if lo <= e < hi { assert s[e - lo] == e; }
    }
  }

  ghost function Interval(lo: nat, hi: nat): (s: set<nat>)
    requires lo <= hi
    ensures forall e :: e in s <==> lo <= e < hi
  {
    RangeElems(lo, hi);
    Elems(Range(lo, hi))
  }

  lemma {:induction false} IntervalSize(lo: nat, hi: nat)
    requires lo <= hi
    ensures |Interval(lo, hi)| == hi - lo
  {
    if lo < hi {
      IntervalSize(lo, hi - 1);
      assert Interval(lo, hi) == Interval(lo, hi - 1) + {hi - 1};
    } else {
      assert Interval(lo, hi) == {};
    }
  }

  /** Members of the two lists. */
  lemma ListMembers(n: nat, i: nat, a: seq<nat>, b: seq<nat>)
    requires i <= n && a == Range(0, i) + Range(i, n) && b == Range(0, i) + Range(n, 2 * n - i)
    ensures Elems(a) == Interval(0, n) && Elems(b) == Interval(0, i) + Interval(n, 2 * n - i)
    ensures Elems(a) * Elems(b) == Interval(0, i) && Elems(a) + Elems(b) == Interval(0, 2 * n - i)
  {
    RangeElems(0, i);
    RangeElems(i, n);
    RangeElems(n, 2 * n - i);
    assert forall e :: e in a <==> e in Range(0, i) || e in Range(i, n);
    assert forall e :: e in b <==> e in Range(0, i) || e in Range(n, 2 * n - i);
    assert Elems(a) == Interval(0, n);
    assert Elems(b) == Interval(0, i) + Interval(n, 2 * n - i);
  }

  /** What a reviewer workload promises. */
  ghost predicate IsWorkload(w: Workload, n: nat, universe: nat) {
    && |w.a| == n && |Elems(w.a)| == n && |w.b| == n && |Elems(w.b)| == n
    && (forall e :: e in w.a || e in w.b ==> e < universe)
    && |Elems(w.a) * Elems(w.b)| == w.intersection && |Elems(w.a) + Elems(w.b)| == w.unionSize
    && w.realized == Baseline.Jaccard(Elems(w.a), Elems(w.b))
    && Baseline.IsRatio(w.realized, w.intersection, w.unionSize)
  }

  lemma CountsAreRecorded(w: Workload, n: nat, i: nat, universe: nat)
    requires i <= n && w.a == Range(0, i) + Range(i, n) && w.b == Range(0, i) + Range(n, 2 * n - i)
    requires w.intersection == i && w.unionSize == 2 * n - i <= universe && w.realized == Baseline.Ratio(i, 2 * n - i)
    ensures IsWorkload(w, n, universe)
  {
    hide Interval, Range, Baseline.Ratio, Baseline.IsRatio;
    Baseline.RatioTimes(i, 2 * n - i);
    ListMembers(n, i, w.a, w.b);
    IntervalSize(0, n);
    IntervalSize(0, i);
    IntervalSize(0, 2 * n - i);
    SecondSize(n, i);
    ElementsBelow(n, i, w.a, w.b, universe);
  }

  lemma SecondSize(n: nat, i: nat)
    requires i <= n
    ensures |Interval(0, i) + Interval(n, 2 * n - i)| == n
  {
    IntervalSize(0, i);
    IntervalSize(n, 2 * n - i);
    assert Interval(0, i) !! Interval(n, 2 * n - i);
  }

  lemma ElementsBelow(n: nat, i: nat, a: seq<nat>, b: seq<nat>, universe: nat)
    requires i <= n && 2 * n - i <= universe && Elems(a) + Elems(b) == Interval(0, 2 * n - i)
    ensures forall e :: e in a || e in b ==> e < universe
  {
    forall e | e in a || e in b ensures e < universe {
      assert e in Elems(a) + Elems(b);
    }
  }

  const TWO_63: nat := 0x8000_0000_0000_0000

  /** The union size as the 64-bit difference 2n - i. */
  function UnionWord(n: nat, i: int): nat {
    (2 * n - i) % (2 * TWO_63)
  }

  /**
   The rounded intersection is at most n, or the wrapped union size is refused first.
   For the other targets, all outside [0, 1], the loops of the source run over wrapped sizes.
   */
  predicate LoopsEnd(n: nat, t: real, universe: nat)
    requires t != -1.0
  {
    var i := Round(Ideal(n as real, t));
    0 <= i <= n || UnionWord(n, i) > universe
  }

  lemma UnitTargetsEnd(n: nat, t: real, universe: nat)
    requires 0.0 <= t <= 1.0
    ensures LoopsEnd(n, t, universe)
  {
    IntersectionFits(n, t, Round(Ideal(n as real, t)));
  }

  lemma UnionFits(n: nat, i: nat)
    requires i <= n < TWO_63
    ensures UnionWord(n, i) == 2 * n - i
  {
    ModIs(2 * n - i, 2 * TWO_63, 0, 2 * n - i);
  }

  /**
   MakeReviewerWorkload: two lists of n distinct elements below the universe size whose
   exact Jaccard is the recorded one; targets in [0, 1] are missed by at most 1/n.
   */
  method MakeReviewerWorkload(n: nat, t: real, universe: nat) returns (r: Result<Workload>)
    requires n < TWO_63 && t != -1.0 && LoopsEnd(n, t, universe)
    ensures r.Err? <==> UnionWord(n, Round(Ideal(n as real, t))) > universe
    ensures r.Ok? ==> IsWorkload(r.value, n, universe) && r.value.intersection == Round(Ideal(n as real, t))
    ensures r.Ok? && n >= 1 && 0.0 <= t <= 1.0 ==>
              r.value.realized - t <= 1.0 / n as real && t - r.value.realized <= 1.0 / n as real
  {
    hide Ideal, IsWorkload, UnionWord, Round;
    var ideal := Ideal(n as real, t);
    var intersection := Round(ideal);
    var unionSize := UnionWord(n, intersection);
    if unionSize > universe {
      return Err(InvalidArgument("reviewer comparison universe is too small for target Jaccard"));
    }
    UnionFits(n, intersection);
    var realized := Baseline.Ratio(intersection, unionSize);
    var a, b := FillSets(n, intersection);
    var w := Workload(a, b, t, intersection, unionSize, realized);
    CountsAreRecorded(w, n, intersection, universe);
    if n > 0 && 0.0 <= t <= 1.0 { RealizedIsClose(n, t, intersection, realized); }
    return Ok(w);
  }

  method FillSets(n: nat, intersection: nat) returns (a: seq<nat>, b: seq<nat>)
    requires intersection <= n
    ensures a == Range(0, intersection) + Range(intersection, n)
    ensures b == Range(0, intersection) + Range(n, 2 * n - intersection)
  {
    a, b := [], [];
    for value := 0 to intersection
      invariant a == b == Range(0, value)
    {
      a, b := a + [value], b + [value];
    }
    for value := intersection to n
      invariant a == Range(0, intersection) + Range(intersection, value)
    {
      a := a + [value];
    }
    for offset := 0 to n - intersection
      invariant b == Range(0, intersection) + Range(n, n + offset)
    {
      b := b + [n + offset];
    }
  }

  lemma IntersectionFits(n: nat, t: real, i: int)
    requires 0.0 <= t <= 1.0 && i == Round(Ideal(n as real, t))
    ensures 0 <= i <= n
  {
    if n > 0 { IdealHits(n as real, t); } else { QuotientIs(0.0, 1.0 + t, 0.0); }
    RoundInRange(Ideal(n as real, t), i, n);
  }

  lemma RealizedIsClose(n: nat, t: real, i: nat, realized: real)
    requires 0 < n && 0.0 <= t <= 1.0 && i == Round(Ideal(n as real, t)) && i <= n
      && realized == Baseline.Ratio(i, 2 * n - i)
    ensures realized - t <= 1.0 / n as real && t - realized <= 1.0 / n as real
  {
    IdealHits(n as real, t);
    RoundingBound(n as real, Ideal(n as real, t), i as real);
    assert (2 * n - i) as real == 2.0 * n as real - i as real;
  }
}
