/**
 Interpolated percentiles (`benchmarks/bench_sj16_calibrate.cpp`), the crossover median
 (`benchmarks/bench_crossover.cpp`) and the rotated measurement schedule.  `double` is
 modelled as `real`.
 */
module Statistics {
  import opened Num

  // ------------------------------------------------------------------ sorting

  ghost predicate Ascending(s: seq<real>) {
    forall i, j :: 0 <= i <= j < |s| ==> s[i] <= s[j]
  }

  function Insert(s: seq<real>, x: real): seq<real> {
    if s == [] || x <= s[0] then [x] + s else [s[0]] + Insert(s[1..], x)
  }

  /** The list std::sort leaves behind. */
  function Sorted(s: seq<real>): seq<real> {
    if s == [] then [] else Insert(Sorted(s[1..]), s[0])
  }

  lemma {:induction false} InsertSorted(s: seq<real>, x: real)
    requires Ascending(s)
    ensures Ascending(Insert(s, x)) && multiset(Insert(s, x)) == multiset(s) + multiset{x}
  {
    if s != [] && x > s[0] {
      hide Ascending;
      TailAscending(s);
      InsertSorted(s[1..], x);
      InsertBehind(s, x, Insert(s[1..], x));
    } else {
      AtLeastFirst(s, x);
      Prefixed(x, s);
    }
  }

  lemma AtLeastFirst(s: seq<real>, x: real)
    requires Ascending(s) && (s != [] ==> x <= s[0])
    ensures forall i :: 0 <= i < |s| ==> x <= s[i]
  {
  }

  lemma InsertBehind(s: seq<real>, x: real, r: seq<real>)
    requires s != [] && Ascending(s) && x > s[0] && Ascending(r) && multiset(r) == multiset(s[1..]) + multiset{x}
    ensures Ascending([s[0]] + r) && multiset([s[0]] + r) == multiset(s) + multiset{x}
  {
    assert s == [s[0]] + s[1..];
    AtLeast(s[0], s[1..], x, r);
    Prefixed(s[0], r);
  }

  lemma AtLeast(lo: real, s: seq<real>, x: real, r: seq<real>)
    requires multiset(r) == multiset(s) + multiset{x} && lo <= x && forall i :: 0 <= i < |s| ==> lo <= s[i]
    ensures forall i :: 0 <= i < |r| ==> lo <= r[i]
  {
    forall i | 0 <= i < |r| ensures lo <= r[i] {
      assert r[i] in multiset(r);
      assert r[i] in multiset(s) || r[i] == x;
    }
  }

  lemma Prefixed(x: real, s: seq<real>)
    requires Ascending(s) && forall i :: 0 <= i < |s| ==> x <= s[i]
    ensures Ascending([x] + s) && multiset([x] + s) == multiset(s) + multiset{x}
  {
  }

  lemma {:induction false} SortedIsSorted(s: seq<real>)
    ensures Ascending(Sorted(s)) && multiset(Sorted(s)) == multiset(s) && |Sorted(s)| == |s|
  {
    if s != [] {
      SortedIsSorted(s[1..]);
      InsertSorted(Sorted(s[1..]), s[0]);
      hide Ascending, Insert;
      HeadCounted(s);
    }
    SameMultisetSize(Sorted(s), s);
  }

  lemma HeadCounted(s: seq<real>)
    requires s != []
    ensures multiset(s) == multiset(s[1..]) + multiset{s[0]}
  {
    assert s == [s[0]] + s[1..];
  }

  lemma SameMultisetSize(a: seq<real>, b: seq<real>)
    requires multiset(a) == multiset(b)
    ensures |a| == |b|
  {
    assert |multiset(a)| == |a| && |multiset(b)| == |b|;
  }

  /** An ascending list is determined by its elements. */
  lemma {:induction false} AscendingUnique(a: seq<real>, b: seq<real>)
    requires Ascending(a) && Ascending(b) && multiset(a) == multiset(b)
    ensures a == b
  {
    hide Ascending;
    SameMultisetSize(a, b);
    if a != [] {
      SameLeast(a, b);
      TailMultiset(a);
      TailMultiset(b);
      TailAscending(a);
      TailAscending(b);
      AscendingUnique(a[1..], b[1..]);
      assert a == [a[0]] + a[1..] && b == [b[0]] + b[1..];
    }
  }

  lemma SameLeast(a: seq<real>, b: seq<real>)
    requires Ascending(a) && Ascending(b) && multiset(a) == multiset(b) && a != [] && b != []
    ensures a[0] == b[0]
  {
    assert a[0] in multiset(b) && b[0] in multiset(a);
  }

  lemma TailMultiset(a: seq<real>)
    requires a != []
    ensures multiset(a[1..]) == multiset(a) - multiset{a[0]}
  {
    assert a == [a[0]] + a[1..];
  }

  lemma TailAscending(a: seq<real>)
    requires Ascending(a) && a != []
    ensures Ascending(a[1..])
  {
  }

  /** std::sort in place. */
  method Sort(v: array<real>)
    modifies v
    ensures v[..] == Sorted(old(v[..]))
  {
    var s := Sorted(v[..]);
    SortedIsSorted(v[..]);
    for i := 0 to v.Length
      invariant v[..i] == s[..i]
    {
      v[i] := s[i];
    }
  }

  // ------------------------------------------------------------------ percentiles

  /** Linear interpolation between neighbours. */
  function Percentile(s: seq<real>, p: real): real
    requires 0.0 <= p <= 1.0
  {
    var n := |s|;
    if n == 0 then 0.0
    else if n == 1 then s[0]
    else
      var idx := p * (n - 1) as real;
      IndexInRange(n, p, idx);
      var lo := idx.Floor;
      var hi := if lo + 1 < n - 1 then lo + 1 else n - 1;
      var frac := idx - lo as real;
      s[lo] * (1.0 - frac) + s[hi] * frac
  }

  lemma IndexInRange(n: nat, p: real, idx: real)
    requires n >= 2 && 0.0 <= p <= 1.0 && idx == p * (n - 1) as real
    ensures 0.0 <= idx <= (n - 1) as real && 0 <= idx.Floor <= n - 1
  {
    var m := (n - 1) as real;
    RealProduct(p, m, idx);
    RealProduct(1.0 - p, m, (1.0 - p) * m);
    assert (1.0 - p) * m == m - p * m;
  }

  ghost function Blend(a: real, b: real, f: real): real {
    a * (1.0 - f) + b * f
  }

  /** The weighted mean of a and b in terms of their difference. */
  lemma Weighted(a: real, b: real, f: real)
    ensures a * (1.0 - f) + b * f == a + (b - a) * f
    ensures (b - a) * f + (b - a) * (1.0 - f) == b - a
  {
  }

  /** Interpolation stays between its end points. */
  lemma Between(a: real, b: real, f: real)
    requires a <= b && 0.0 <= f <= 1.0
    ensures a <= Blend(a, b, f) <= b
  {
    Weighted(a, b, f);
    RealProduct(b - a, f, (b - a) * f);
    RealProduct(b - a, 1.0 - f, (b - a) * (1.0 - f));
  }

  lemma Steeper(a: real, b: real, f: real, g: real)
    requires a <= b && f <= g
    ensures a * (1.0 - f) + b * f <= a * (1.0 - g) + b * g
  {
    Weighted(a, b, f);
    Weighted(a, b, g);
    RealProduct(b - a, g - f, (b - a) * (g - f));
    assert (b - a) * (g - f) == (b - a) * g - (b - a) * f;
  }

  /** A percentile lies between the two samples around its index. */
  lemma PercentileBetween(s: seq<real>, p: real) returns (idx: real, lo: int, hi: int, frac: real)
    requires Ascending(s) && |s| >= 2 && 0.0 <= p <= 1.0
    ensures 0 <= lo < |s| && hi == (if lo + 1 < |s| - 1 then lo + 1 else |s| - 1) && lo <= hi
    ensures idx == p * (|s| - 1) as real && lo as real + frac == idx && 0.0 <= frac < 1.0
    ensures Percentile(s, p) == Blend(s[lo], s[hi], frac) && s[lo] <= Percentile(s, p) <= s[hi]
  {
    idx := p * (|s| - 1) as real;
    IndexInRange(|s|, p, idx);
    lo := idx.Floor;
    hi := if lo + 1 < |s| - 1 then lo + 1 else |s| - 1;
    frac := idx - lo as real;
    hide Percentile, Blend;
    PercentileAt(s, p, idx, lo, hi, frac);
    Between(s[lo], s[hi], frac);
  }

  lemma PercentileInRange(s: seq<real>, p: real)
    requires Ascending(s) && s != [] && 0.0 <= p <= 1.0
    ensures s[0] <= Percentile(s, p) <= s[|s| - 1]
  {
    if |s| >= 2 {
      var idx, lo, hi, frac := PercentileBetween(s, p);
    }
  }

  lemma ShortPercentile(s: seq<real>, p: real)
    requires |s| < 2 && 0.0 <= p <= 1.0
    ensures Percentile(s, p) == if s == [] then 0.0 else s[0]
  {
  }

  lemma PercentileMonotone(s: seq<real>, p: real, q: real)
    requires Ascending(s) && 0.0 <= p <= q <= 1.0
    ensures Percentile(s, p) <= Percentile(s, q)
  {
    hide Percentile, Ascending, Blend;
    if |s| < 2 {
      ShortPercentile(s, p);
      ShortPercentile(s, q);
    } else {
      var idx, lo, hi, f := PercentileBetween(s, p);
      var idx', lo', hi', g := PercentileBetween(s, q);
      Scaled(p, q, (|s| - 1) as real, idx, idx');
      Interpolated(s, lo, hi, f, Percentile(s, p), lo', hi', g, Percentile(s, q));
    }
  }

  lemma Interpolated(s: seq<real>, lo: int, hi: int, f: real, v: real, lo': int, hi': int, g: real, w: real)
    requires Ascending(s) && 0 <= lo <= hi < |s| && hi <= lo + 1 && 0 <= lo' < |s| && lo as real + f <= lo' as real + g
    requires 0.0 <= f < 1.0 && 0.0 <= g < 1.0 && v <= s[hi] && s[lo'] <= w && (lo == lo' ==> hi == hi')
    requires v == Blend(s[lo], s[hi], f) && 0 <= hi' < |s| && w == Blend(s[lo'], s[hi'], g)
    ensures v <= w
  {
    LowerIndex(lo, f, lo', g);
    if lo == lo' {
      Steeper(s[lo], s[hi], f, g);
    } else {
      assert s[hi] <= s[lo'];
    }
  }

  lemma Scaled(p: real, q: real, m: real, u: real, v: real)
    requires p <= q && m >= 0.0 && u == p * m && v == q * m
    ensures u <= v
  {
    RealProduct(q - p, m, (q - p) * m);
    assert (q - p) * m == q * m - p * m;
  }

  lemma LowerIndex(lo: int, f: real, lo': int, g: real)
    requires lo as real + f <= lo' as real + g && 0.0 <= f < 1.0 && 0.0 <= g < 1.0
    ensures lo < lo' || (lo == lo' && f <= g)
  {
    assert lo > lo' ==> lo as real >= lo' as real + 1.0;
  }

  datatype MedIqr = MedIqr(median: real, q1: real, q3: real, iqr: real)

  function Summary(v: seq<real>): MedIqr {
    var s := Sorted(v);
    MedIqr(Percentile(s, 0.5), Percentile(s, 0.25), Percentile(s, 0.75), Percentile(s, 0.75) - Percentile(s, 0.25))
  }

  /** MedianIqr sorts its own copy. */
  method MedianIqr(samples: seq<real>) returns (r: MedIqr)
    ensures r == Summary(samples)
    ensures forall s :: Ascending(s) && multiset(s) == multiset(samples) ==> IsMedIqr(s, r)
  {
    SummaryQuartiles(samples);
    var v := new real[|samples|](i requires 0 <= i < |samples| => samples[i]);
    assert v[..] == samples;
    Sort(v);
    var median := Percentile(v[..], 0.5);
    var q1 := Percentile(v[..], 0.25);
    var q3 := Percentile(v[..], 0.75);
    r := MedIqr(median, q1, q3, q3 - q1);
  }

  /** q lies w quarters of the way from a to b. */
  ghost predicate QuarterWay(q: real, w: nat, a: real, b: real) {
    4.0 * q == (4 - w) as real * a + w as real * b
  }

  /**
   Median and quartiles of n ascending samples, by their places: with n = 4h + 1 + w, the
   lower quartile lies w quarters of the way from sample h to its successor, the upper one
   w quarters of the way from the h-th last sample to its predecessor.
   */
  ghost predicate IsMedIqr(s: seq<real>, r: MedIqr) {
    var n := |s|;
    && r.iqr == r.q3 - r.q1
    && if n == 0 then r.median == r.q1 == r.q3 == 0.0 else
       var h, w, last := (n - 1) / 4, (n - 1) % 4, n - 1;
       && 2.0 * r.median == s[(n - 1) / 2] + s[n / 2]
       && QuarterWay(r.q1, w, s[h], s[if w == 0 then h else h + 1])
       && QuarterWay(r.q3, w, s[last - h], s[if w == 0 then last - h else last - h - 1])
  }

  /** Between the places i and i + 1 the percentile is linear. */
  lemma PercentileInterpolates(s: seq<real>, p: real, i: nat, f: real)
    requires i + 1 < |s| && 0.0 <= p <= 1.0 && 0.0 <= f <= 1.0 && p * (|s| - 1) as real == i as real + f
    ensures Percentile(s, p) == Blend(s[i], s[i + 1], f)
  {
    hide Percentile, Blend;
    var idx := p * (|s| - 1) as real;
    if f < 1.0 {
      PercentileAt(s, p, idx, i, i + 1, f);
    } else {
      var hi := if i + 2 < |s| - 1 then i + 2 else |s| - 1;
      PercentileAt(s, p, idx, i + 1, hi, 0.0);
      Ends(s[i + 1], s[hi], s[i], f);
    }
  }

  lemma Ends(a: real, b: real, c: real, f: real)
    requires f == 1.0
    ensures Blend(a, b, 0.0) == a == Blend(c, a, f)
  {
  }

  lemma LowerQuartile(s: seq<real>, h: nat, w: nat)
    requires |s| == 4 * h + 1 + w && w < 4
    ensures QuarterWay(Percentile(s, 0.25), w, s[h], s[if w == 0 then h else h + 1])
  {
    hide Percentile;
    if |s| == 1 {
      ShortPercentile(s, 0.25);
    } else if w > 0 {
      PercentileInterpolates(s, 0.25, h, w as real / 4.0);
    } else {
      PercentileInterpolates(s, 0.25, h, 0.0);
    }
  }

  lemma UpperQuartile(s: seq<real>, h: nat, w: nat)
    requires |s| == 4 * h + 1 + w && w < 4
    ensures var last := |s| - 1;
      QuarterWay(Percentile(s, 0.75), w, s[last - h], s[if w == 0 then last - h else last - h - 1])
  {
    hide Percentile;
    var last := |s| - 1;
    if |s| == 1 {
      ShortPercentile(s, 0.75);
    } else if w > 0 {
      PercentileInterpolates(s, 0.75, last - h - 1, (4 - w) as real / 4.0);
    } else {
      PercentileInterpolates(s, 0.75, last - h - 1, 1.0);
    }
  }

  lemma SummaryQuartiles(v: seq<real>)
    ensures forall s :: Ascending(s) && multiset(s) == multiset(v) ==> IsMedIqr(s, Summary(v))
  {
    hide IsMedIqr, Summary, Ascending;
    forall s | Ascending(s) && multiset(s) == multiset(v) ensures IsMedIqr(s, Summary(v)) {
      SortedIsSorted(v);
      AscendingUnique(s, Sorted(v));
      Quartiles(v, s);
    }
  }

  lemma Quartiles(v: seq<real>, s: seq<real>)
    requires s == Sorted(v)
    ensures IsMedIqr(s, Summary(v))
  {
    hide Percentile, QuarterWay, Sorted;
    var n := |s|;
    MedianIsMiddle(s);
    if n == 0 {
      ShortPercentile(s, 0.25);
      ShortPercentile(s, 0.75);
    } else {
      LowerQuartile(s, (n - 1) / 4, (n - 1) % 4);
      UpperQuartile(s, (n - 1) / 4, (n - 1) % 4);
    }
  }

  /** The order of the samples does not matter. */
  lemma SummaryPermutation(v: seq<real>, w: seq<real>)
    requires multiset(v) == multiset(w)
    ensures Summary(v) == Summary(w)
  {
    SortedIsSorted(v);
    SortedIsSorted(w);
    AscendingUnique(Sorted(v), Sorted(w));
  }

  lemma QuartilesOrdered(v: seq<real>)
    ensures Summary(v).q1 <= Summary(v).median <= Summary(v).q3 && Summary(v).iqr >= 0.0
  {
    SortedIsSorted(v);
    PercentileMonotone(Sorted(v), 0.25, 0.5);
    PercentileMonotone(Sorted(v), 0.5, 0.75);
  }

  function MiddleOf(s: seq<real>): real {
    var n := |s|;
    if n == 0 then 0.0 else if n % 2 == 0 then (s[n / 2 - 1] + s[n / 2]) / 2.0 else s[n / 2]
  }

  /** Median of the crossover benchmark, sorting its argument in place. */
  method Median(v: array<real>) returns (m: real)
    modifies v
    ensures m == Summary(old(v[..])).median
    ensures v[..] == Sorted(old(v[..])) && Ascending(v[..]) && multiset(v[..]) == multiset(old(v[..]))
    ensures if v.Length == 0 then m == 0.0 else 2.0 * m == v[(v.Length - 1) / 2] + v[v.Length / 2]
  {
    var n := v.Length;
    hide Percentile, Sorted, Ascending;
    MedianIsMiddle(Sorted(v[..]));
    SortedIsSorted(v[..]);
    if n == 0 { return 0.0; }
    Sort(v);
    if n % 2 == 0 { return (v[n / 2 - 1] + v[n / 2]) / 2.0; }
    return v[n / 2];
  }

  /** The 0.5 percentile is the middle sample, or the mean of the two middle samples. */
  lemma MedianIsMiddle(s: seq<real>)
    ensures Percentile(s, 0.5) == MiddleOf(s)
  {
    if |s| >= 2 {
      var h := |s| / 2;
      if |s| % 2 == 0 { EvenMedian(s, h); } else { OddMedian(s, h); }
    }
  }

  lemma EvenMedian(s: seq<real>, h: nat)
    requires |s| == 2 * h && h >= 1
    ensures Percentile(s, 0.5) == (s[h - 1] + s[h]) / 2.0
  {
    hide Blend;
    PercentileAt(s, 0.5, 0.5 * (|s| - 1) as real, h - 1, h, 0.5);
    Mix(s[h - 1], s[h], 0.5);
  }

  lemma OddMedian(s: seq<real>, h: nat)
    requires |s| == 2 * h + 1 && h >= 1
    ensures Percentile(s, 0.5) == s[h]
  {
    hide Blend;
    var hi := if h + 1 < |s| - 1 then h + 1 else |s| - 1;
    PercentileAt(s, 0.5, 0.5 * (|s| - 1) as real, h, hi, 0.0);
    Mix(s[h], s[hi], 0.0);
  }

  lemma PercentileAt(s: seq<real>, p: real, idx: real, lo: int, hi: int, frac: real)
    requires |s| >= 2 && 0.0 <= p <= 1.0 && idx == p * (|s| - 1) as real
    requires idx == lo as real + frac && 0.0 <= frac < 1.0 && 0 <= lo < |s|
    requires hi == if lo + 1 < |s| - 1 then lo + 1 else |s| - 1
    ensures Percentile(s, p) == Blend(s[lo], s[hi], frac)
  {
    FloorIs(idx, lo, frac);
    assert idx - lo as real == frac;
  }

  lemma Mix(a: real, b: real, f: real)
    ensures f == 0.0 ==> Blend(a, b, f) == a
    ensures f == 0.5 ==> Blend(a, b, f) == (a + b) / 2.0
  {
  }

  lemma FloorIs(idx: real, lo: int, frac: real)
    requires idx == lo as real + frac && 0.0 <= frac < 1.0
    ensures idx.Floor == lo
  {
    var fl := idx.Floor;
    assert fl as real <= idx < fl as real + 1.0;
    NoGap(fl, lo);
    NoGap(lo, fl);
  }

  lemma NoGap(a: int, b: int)
    requires a as real < b as real + 1.0
    ensures a <= b
  {
    assert (b + 1) as real == b as real + 1.0;
  }

  // ------------------------------------------------------------------ the rotated schedule

  /** Among any n consecutive numbers exactly one has residue i. */
  lemma WindowHitsOnce(n: nat, a: nat, i: nat) returns (x: nat)
    requires i < n
    ensures a <= x < a + n && x % n == i
    ensures forall y: nat :: a <= y < a + n && y % n == i ==> y == x
  {
    var q, r := a / n, a % n;
    assert a == q * n + r && 0 <= r < n;
    var base := q * n;
    if i >= r {
      x := base + i;
      ModIs(x, n, q, i);
    } else {
      x := base + n + i;
      assert (q + 1) * n == base + n;
      ModIs(x, n, q + 1, i);
    }
    forall y: nat | a <= y < a + n && y % n == i ensures y == x {
      SameResidue(x, y, n);
    }
  }

  lemma SameResidue(x: nat, y: nat, n: nat)
    requires n > 0 && x % n == y % n && x < y + n && y < x + n
    ensures x == y
  {
    var p, q := x / n, y / n;
    assert x == p * n + x % n && y == q * n + y % n;
    assert x - y == (p - q) * n && y - x == (q - p) * n;
    if p > q { MulMono(1, p - q, n); } else if p < q { MulMono(1, q - p, n); }
  }

  /** The size measured at position k of trial t. */
  function Slot(n: nat, k: nat, t: nat): (si: nat)
    requires n > 0
    ensures si < n
  {
    (k + t) % n
  }

  /** The first trial goes through the sizes in order, and every further one starts one size later. */
  lemma RotatesByOne(n: nat, k: nat, t: nat)
    requires k < n
    ensures Slot(n, k, 0) == k
    ensures Slot(n, k, t + 1) == Slot(n, if k + 1 < n then k + 1 else 0, t)
  {
    ModIs(k, n, 0, k);
    ModAdd(n, t, n);
    ModIs(n, n, 1, 0);
  }

  /** In one trial every size is swept exactly once. */
  lemma TrialSweepsOnce(n: nat, t: nat, i: nat) returns (k: nat)
    requires i < n
    ensures k < n && Slot(n, k, t) == i && forall k': nat :: k' < n && Slot(n, k', t) == i ==> k' == k
  {
    var x := WindowHitsOnce(n, t, i);
    k := x - t;
    forall k': nat | k' < n && Slot(n, k', t) == i ensures k' == k {
      SameResidue(k' + t, x, n);
    }
  }

  /** In any n consecutive trials every size takes every position exactly once. */
  lemma PositionsBalance(n: nat, first: nat, k: nat, i: nat) returns (t: nat)
    requires i < n && k < n
    ensures first <= t < first + n && Slot(n, k, t) == i
    ensures forall t': nat :: first <= t' < first + n && Slot(n, k, t') == i ==> t' == t
  {
    var x := WindowHitsOnce(n, first + k, i);
    t := x - k;
    forall t': nat | first <= t' < first + n && Slot(n, k, t') == i ensures t' == t {
      SameResidue(k + t', x, n);
    }
  }

  ghost predicate Visited(n: nat, t: nat, k: nat, i: nat)
    requires n > 0
  {
    exists k': nat :: k' < k && Slot(n, k', t) == i
  }

  // ------------------------------------------------------------------ seeds and samples

  const TWO_64: nat := 0x1_0000_0000_0000_0000

  function Xor(a: nat, b: nat): nat
    decreases a + b
  {
    if a == 0 then b else if b == 0 then a else 2 * Xor(a / 2, b / 2) + (a % 2 + b % 2) % 2
  }

  function WarmupSeed(base: nat, m: nat): nat {
    Xor(Xor(base, m), 0x9E37_79B9_7F4A_7C15)
  }

  /** The 64-bit seed of trial t of size m. */
  function TrialSeed(base: nat, m: nat, t: nat): nat {
    (Xor(base, m) + t * 1009) % TWO_64
  }

  lemma {:induction false} XorCancels(a: nat, b: nat)
    ensures Xor(Xor(a, b), b) == a
    decreases a + b
  {
    if a > 0 && b > 0 {
      XorCancels(a / 2, b / 2);
      XorParts(a, b);
      var x := Xor(a, b);
      XorParts(x, b);
      BitTwice(a, b, x);
    } else {
      XorSelf(b);
    }
  }

  lemma {:induction false} XorSelf(b: nat)
    ensures Xor(b, b) == 0
  {
    if b > 0 { XorSelf(b / 2); }
  }

  /** Lowest bit and rest of an exclusive or. */
  lemma XorParts(a: nat, b: nat)
    ensures Xor(a, b) % 2 == (a % 2 + b % 2) % 2 && Xor(a, b) / 2 == Xor(a / 2, b / 2)
  {
    if a > 0 && b > 0 {
      var rest, bit := Xor(a / 2, b / 2), (a % 2 + b % 2) % 2;
      assert Xor(a, b) == 2 * rest + bit;
      hide Xor;
      LowBit(rest, bit);
    }
  }

  lemma LowBit(rest: nat, bit: nat)
    requires bit < 2
    ensures (2 * rest + bit) % 2 == bit && (2 * rest + bit) / 2 == rest
  {
  }

  lemma BitTwice(a: nat, b: nat, x: nat)
    requires x % 2 == (a % 2 + b % 2) % 2
    ensures (x % 2 + b % 2) % 2 == a % 2
  {
  }

  /** Different sizes start from different seeds, and the warm-up of a size from another one than its first trial. */
  lemma SeedsDiffer(base: nat, m: nat, m': nat)
    ensures Xor(base, m) == Xor(base, m') ==> m == m'
    ensures WarmupSeed(base, m) != Xor(base, m)
  {
    XorCancels(m, base);
    XorCancels(m', base);
    XorCommutes(base, m);
    XorCommutes(base, m');
    if WarmupSeed(base, m) == Xor(base, m) { XorFixed(Xor(base, m), 0x9E37_79B9_7F4A_7C15); }
  }

  lemma XorFixed(x: nat, c: nat)
    requires Xor(x, c) == x
    ensures c == 0
  {
    XorCommutes(x, c);
    XorCancels(c, x);
    XorSelf(x);
  }

  lemma {:induction false} XorCommutes(a: nat, b: nat)
    ensures Xor(a, b) == Xor(b, a)
    decreases a + b
  {
    if a > 0 && b > 0 { XorCommutes(a / 2, b / 2); }
  }

  /** The seeds of a size advance by 1009, so no two of its trials below 2^64 share one. */
  lemma TrialSeedsDiffer(base: nat, m: nat, t: nat, u: nat)
    requires t < u < TWO_64
    ensures TrialSeed(base, m, t + 1) == (TrialSeed(base, m, t) + 1009) % TWO_64
    ensures TrialSeed(base, m, t) != TrialSeed(base, m, u)
  {
    var x := Xor(base, m);
    ModAdd(x + t * 1009, 1009, TWO_64);
    if TrialSeed(base, m, t) == TrialSeed(base, m, u) {
      var d := (x + u * 1009) / TWO_64 - (x + t * 1009) / TWO_64;
      assert (u - t) * 1009 == d * TWO_64;
      OddStep(u - t, d);
    }
  }

  /** 1009 has an inverse modulo 2^64. */
  lemma OddStep(gap: int, d: int)
    requires gap * 1009 == d * TWO_64
    ensures gap <= 0 || gap >= TWO_64
  {
    var inverse, q := 6965519813759503633, 381;
    assert inverse * 1009 == q * TWO_64 + 1;
    assert gap == (d * inverse - gap * q) * TWO_64;
    var n := d * inverse - gap * q;
    if n >= 1 { MulMono(1, n, TWO_64); } else { MulMono(n, 0, TWO_64); }
  }

  /** One full query of size m with a seed; its time depends on nothing else. */
  type Query = (nat, nat) -> real

  /** Samples of one size from its first `count` trials, in trial order: the plain nested loop. */
  function Column(query: Query, base: nat, m: nat, count: nat): (c: seq<real>)
    ensures |c| == count
  {
    seq(count, t requires 0 <= t < count => query(m, TrialSeed(base, m, t)))
  }

  lemma VisitNext(n: nat, t: nat, k: nat)
    requires k < n
    ensures !Visited(n, t, k, Slot(n, k, t))
    ensures forall i: nat :: i < n ==> (Visited(n, t, k + 1, i) <==> Visited(n, t, k, i) || i == Slot(n, k, t))
  {
    if Visited(n, t, k, Slot(n, k, t)) {
      var k': nat :| k' < k && Slot(n, k', t) == Slot(n, k, t);
      SameResidue(k' + t, k + t, n);
    }
    hide Slot;
    assert Visited(n, t, k + 1, Slot(n, k, t));
  }

  lemma AllVisited(n: nat, t: nat, i: nat)
    requires i < n
    ensures Visited(n, t, n, i)
  {
    var k := TrialSweepsOnce(n, t, i);
  }

  /** Column t+1 extends column t by trial t. */
  lemma ColumnStep(query: Query, base: nat, m: nat, t: nat)
    ensures Column(query, base, m, t + 1) == Column(query, base, m, t) + [query(m, TrialSeed(base, m, t))]
  {
  }

  // ------------------------------------------------------------------ the raw series

  datatype Series = Series(warmupMs: real, warmupSeed: nat, measuredMs: seq<real>, measuredSeeds: seq<nat>)

  function Copies<T>(x: T, times: nat): (s: seq<T>)
    ensures |s| == times
  {
    seq(times, i => x)
  }

  /** x(0), ..., x(count - 1), each repeated. */
  function Repeated<T>(x: nat -> T, count: nat, times: nat): seq<T> {
    if count == 0 then [] else Repeated(x, count - 1, times) + Copies(x(count - 1), times)
  }

  function SeedOf(base: nat, m: nat): nat -> nat {
    (t: nat) => TrialSeed(base, m, t)
  }

  function TimeOf(query: Query, base: nat, m: nat): nat -> real {
    (t: nat) => query(m, TrialSeed(base, m, t))
  }

  /** A size that is listed once has exactly its column as raw series. */
  lemma {:induction false} RepeatedOnce(query: Query, base: nat, m: nat, count: nat)
    ensures Repeated(TimeOf(query, base, m), count, 1) == Column(query, base, m, count)
  {
    if count > 0 {
      RepeatedOnce(query, base, m, count - 1);
      ColumnStep(query, base, m, count - 1);
    }
  }

  /** The seed of trial t of a size, as 64-bit arithmetic gives it. */
  ghost predicate IsTrialSeed(seed: nat, base: nat, m: nat, t: nat) {
    seed == (Xor(base, m) + t * 1009) % 0x1_0000_0000_0000_0000
  }

  /** What is collected for one size: entry t is the time of its t-th trial, under that trial's seed. */
  ghost predicate IsColumn(c: seq<real>, query: Query, base: nat, m: nat, trials: nat) {
    |c| == trials && forall t: nat, seed :: t < trials && IsTrialSeed(seed, base, m, t) ==> c[t] == query(m, seed)
  }

  lemma ColumnIs(query: Query, base: nat, m: nat, trials: nat)
    ensures IsColumn(Column(query, base, m, trials), query, base, m, trials)
  {
    var c := Column(query, base, m, trials);
    forall t: nat, seed | t < trials && IsTrialSeed(seed, base, m, t) ensures c[t] == query(m, seed) {
      assert seed == TrialSeed(base, m, t);
    }
  }

  /** The raw series of a size that is listed once. */
  lemma SeriesOnce(query: Query, base: nat, m: nat, trials: nat)
    ensures var s := SeriesAfter(query, base, m, trials, 1, 0);
      && s.warmupSeed == Xor(Xor(base, m), 0x9E37_79B9_7F4A_7C15) && s.warmupMs == query(m, s.warmupSeed)
      && IsColumn(s.measuredMs, query, base, m, trials)
      && |s.measuredSeeds| == trials
      && forall t: nat :: t < trials ==> IsTrialSeed(s.measuredSeeds[t], base, m, t)
  {
    RepeatedOnce(query, base, m, trials);
    ColumnIs(query, base, m, trials);
    SeedsOnce(base, m, trials);
    hide Repeated, Column, Xor, IsColumn, IsTrialSeed;
    var times, seeds := Repeated(TimeOf(query, base, m), trials, 1), Repeated(SeedOf(base, m), trials, 1);
    assert times + [] == times && seeds + [] == seeds;
    assert Copies(TimeOf(query, base, m)(trials), 0) == [] && Copies(SeedOf(base, m)(trials), 0) == [];
  }

  lemma {:induction false} SeedsOnce(base: nat, m: nat, count: nat)
    ensures var seeds := Repeated(SeedOf(base, m), count, 1);
      |seeds| == count && forall t: nat :: t < count ==> IsTrialSeed(seeds[t], base, m, t)
  {
    if count > 0 { SeedsOnce(base, m, count - 1); }
  }

  /** The first k sizes of trial t, in its rotated order. */
  function Sweep(sizes: seq<nat>, t: nat, k: nat): (s: seq<nat>)
    requires sizes != []
    ensures |s| == k
  {
    seq(k, i requires 0 <= i < k => sizes[Slot(|sizes|, i, t)])
  }

  lemma SlotIs(n: nat, k: nat, t: nat, o: nat)
    requires k < n && o == t % n
    ensures Slot(n, k, t) == if k + o < n then k + o else k + o - n
  {
    ModAdd(k, t, n);
    ModIs(k + o, n, if k + o < n then 0 else 1, if k + o < n then k + o else k + o - n);
  }

  /** A whole sweep measures every entry of the size list once. */
  lemma WholeSweep(sizes: seq<nat>, t: nat)
    requires sizes != []
    ensures multiset(Sweep(sizes, t, |sizes|)) == multiset(sizes)
  {
    var n := |sizes|;
    var o := t % n;
    forall k | 0 <= k < n ensures Sweep(sizes, t, n)[k] == (sizes[o..] + sizes[..o])[k] {
      SlotIs(n, k, t, o);
    }
    assert Sweep(sizes, t, n) == sizes[o..] + sizes[..o];
    assert sizes == sizes[..o] + sizes[o..];
  }

  /** The series of every size after t full trials and k sizes of the next. */
  ghost predicate RawAfter(raw: map<nat, Series>, query: Query, base: nat, sizes: seq<nat>, t: nat, k: nat)
    requires sizes != []
  {
    && (forall m :: m in raw <==> m in sizes)
    && forall m :: m in sizes
        ==> raw[m] == SeriesAfter(query, base, m, t, multiset(sizes)[m], multiset(Sweep(sizes, t, k))[m])
  }

  /** t full trials that measure m `times` times each, and `more` measurements in trial t. */
  function SeriesAfter(query: Query, base: nat, m: nat, t: nat, times: nat, more: nat): Series {
    var warm, time, seed := WarmupSeed(base, m), TimeOf(query, base, m), SeedOf(base, m);
    Series(query(m, warm), warm, Repeated(time, t, times) + Copies(time(t), more),
           Repeated(seed, t, times) + Copies(seed(t), more))
  }

  lemma CopiesMore<T>(x: T, times: nat)
    ensures Copies(x, times) + [x] == Copies(x, times + 1)
  {
  }

  function Extended(s: Series, ms: real, seed: nat): Series {
    s.(measuredMs := s.measuredMs + [ms], measuredSeeds := s.measuredSeeds + [seed])
  }

  lemma SeriesMore(query: Query, base: nat, m: nat, t: nat, times: nat, more: nat)
    ensures Extended(SeriesAfter(query, base, m, t, times, more), query(m, TrialSeed(base, m, t)),
                     TrialSeed(base, m, t))
         == SeriesAfter(query, base, m, t, times, more + 1)
  {
    var ms, seed := query(m, TrialSeed(base, m, t)), TrialSeed(base, m, t);
    CopiesMore(ms, more);
    CopiesMore(seed, more);
    var a, b := Repeated(TimeOf(query, base, m), t, times), Repeated(SeedOf(base, m), t, times);
    assert a + Copies(ms, more) + [ms] == a + (Copies(ms, more) + [ms]);
    assert b + Copies(seed, more) + [seed] == b + (Copies(seed, more) + [seed]);
  }

  lemma SeriesNextTrial(query: Query, base: nat, m: nat, t: nat, times: nat)
    ensures SeriesAfter(query, base, m, t, times, times) == SeriesAfter(query, base, m, t + 1, times, 0)
  {
  }

  lemma SweepStep(sizes: seq<nat>, t: nat, k: nat)
    requires k < |sizes|
    ensures multiset(Sweep(sizes, t, k + 1)) == multiset(Sweep(sizes, t, k)) + multiset{sizes[Slot(|sizes|, k, t)]}
  {
    assert Sweep(sizes, t, k + 1) == Sweep(sizes, t, k) + [sizes[Slot(|sizes|, k, t)]];
  }

  lemma RawStep(raw: map<nat, Series>, query: Query, base: nat, sizes: seq<nat>, t: nat, k: nat)
    requires k < |sizes| && RawAfter(raw, query, base, sizes, t, k)
    ensures var m := sizes[Slot(|sizes|, k, t)];
      m in raw && RawAfter(raw[m := Extended(raw[m], query(m, TrialSeed(base, m, t)), TrialSeed(base, m, t))],
                           query, base, sizes, t, k + 1)
  {
    hide Extended, SeriesAfter, TrialSeed;
    var m := sizes[Slot(|sizes|, k, t)];
    SweepStep(sizes, t, k);
    SeriesMore(query, base, m, t, multiset(sizes)[m], multiset(Sweep(sizes, t, k))[m]);
  }

  lemma RawNextTrial(raw: map<nat, Series>, query: Query, base: nat, sizes: seq<nat>, t: nat)
    requires sizes != [] && RawAfter(raw, query, base, sizes, t, |sizes|)
    ensures RawAfter(raw, query, base, sizes, t + 1, 0)
  {
    hide SeriesAfter;
    WholeSweep(sizes, t);
    forall m | m in sizes ensures raw[m] == SeriesAfter(query, base, m, t + 1, multiset(sizes)[m], 0) {
      SeriesNextTrial(query, base, m, t, multiset(sizes)[m]);
    }
  }

  /** The discarded warm-up of every size. */
  method WarmUp(query: Query, base: nat, sizes: seq<nat>) returns (raw: map<nat, Series>)
    ensures sizes != [] ==> RawAfter(raw, query, base, sizes, 0, 0)
  {
    raw := map[];
    for i := 0 to |sizes|
      invariant forall m :: m in raw <==> m in sizes[..i]
      invariant forall m :: m in raw ==> raw[m] == SeriesAfter(query, base, m, 0, multiset(sizes)[m], 0)
    {
      var m := sizes[i];
      var seed := WarmupSeed(base, m);
      raw := raw[m := Series(query(m, seed), seed, [], [])];
      assert sizes[..i + 1] == sizes[..i] + [m];
    }
    assert sizes[..|sizes|] == sizes;
  }

  /**
   MeasureQueriesSamples: the rotated, interleaved loops collect the same samples, in the
   same order, as measuring one size after the other.  The raw series of a size holds its
   warm-up and every measurement with its seed, repeated as often as the size is listed.
   */
  method MeasureQueriesSamples(sizes: seq<nat>, trials: nat, base: nat, query: Query)
    returns (samples: seq<seq<real>>, raw: map<nat, Series>)
    ensures |samples| == |sizes| && forall i :: 0 <= i < |sizes| ==> samples[i] == Column(query, base, sizes[i], trials)
    ensures forall i :: 0 <= i < |sizes| ==> IsColumn(samples[i], query, base, sizes[i], trials)
    ensures forall m :: m in raw <==> m in sizes
    ensures forall m :: m in sizes ==> raw[m] == SeriesAfter(query, base, m, trials, multiset(sizes)[m], 0)
  {
    hide SeriesAfter, Slot, TrialSeed, Extended;
    var nsz := |sizes|;
    samples := seq(nsz, i => []);
    raw := WarmUp(query, base, sizes);
    if nsz == 0 { return [], map[]; }
    for t := 0 to trials
      invariant |samples| == nsz && forall i :: 0 <= i < nsz ==> samples[i] == Column(query, base, sizes[i], t)
      invariant RawAfter(raw, query, base, sizes, t, 0)
    {
      samples, raw := MeasureTrial(sizes, t, base, query, samples, raw);
    }
    NoSweep(sizes, trials);
    forall i | 0 <= i < nsz ensures IsColumn(samples[i], query, base, sizes[i], trials) {
      ColumnIs(query, base, sizes[i], trials);
    }
  }

  lemma NoSweep(sizes: seq<nat>, t: nat)
    requires sizes != []
    ensures Sweep(sizes, t, 0) == []
  {
  }

  /** One trial: every size once, in rotated order. */
  method MeasureTrial(sizes: seq<nat>, t: nat, base: nat, query: Query, samples0: seq<seq<real>>,
                      raw0: map<nat, Series>)
    returns (samples: seq<seq<real>>, raw: map<nat, Series>)
    requires sizes != [] && |samples0| == |sizes| && RawAfter(raw0, query, base, sizes, t, 0)
    requires forall i :: 0 <= i < |sizes| ==> samples0[i] == Column(query, base, sizes[i], t)
    ensures |samples| == |sizes| && forall i :: 0 <= i < |sizes| ==> samples[i] == Column(query, base, sizes[i], t + 1)
    ensures RawAfter(raw, query, base, sizes, t + 1, 0)
  {
    hide RawAfter, Column, TrialSeed, Visited;
    var nsz := |sizes|;
    samples, raw := samples0, raw0;
    NoneVisited(nsz, t);
    for k := 0 to nsz
      invariant |samples| == nsz && RawAfter(raw, query, base, sizes, t, k)
      invariant forall i :: 0 <= i < nsz ==>
        samples[i] == Column(query, base, sizes[i], if Visited(nsz, t, k, i) then t + 1 else t)
    {
      var si := Slot(nsz, k, t);
      var m := sizes[si];
      var seed := TrialSeed(base, m, t);
      var ms := query(m, seed);
      VisitNext(nsz, t, k);
      ColumnStep(query, base, m, t);
      RawStep(raw, query, base, sizes, t, k);
      samples := samples[si := samples[si] + [ms]];
      raw := raw[m := Extended(raw[m], ms, seed)];
    }
    RawNextTrial(raw, query, base, sizes, t);
    forall i | 0 <= i < nsz ensures samples[i] == Column(query, base, sizes[i], t + 1) {
      AllVisited(nsz, t, i);
    }
  }

  lemma NoneVisited(n: nat, t: nat)
    requires n > 0
    ensures forall i :: 0 <= i < n ==> !Visited(n, t, 0, i)
  {
  }
}
