/**
 How many deletions a bottom structure survives, as `src/analysis/deletion_survival.cpp`
 computes it: n members, depth d, k independent hash functions, deletions in random order.

 `long double` is modelled as `real`, and exp(k * log1p(-q)) as the power (1 - q)^k.
 */
module DeletionSurvival {
  import opened Num
  import opened Wrappers
  import opened Subsets
  import opened BottomStructures

  datatype SurvivalConfig = SurvivalConfig(setSize: nat, depth: nat, hashCount: nat) {
    predicate Accepts(completed: nat) {
      setSize > 0 && depth > 0 && depth <= setSize && hashCount > 0 && completed <= setSize
    }
  }

  // ------------------------------------------------------------------ exhaustion of one row

  /** (t/n) * ((t-1)/(n-1)) * ... with d factors */
  function Factors(n: nat, t: nat, d: nat): real
    requires d <= n
  {
    if d == 0 then 1.0 else Factors(n, t, d - 1) * ((t - (d - 1)) as real / (n - (d - 1)) as real)
  }

  /** The probability that all of the d smallest hashes have been deleted. */
  function Exhaustion(c: SurvivalConfig, t: nat): real
    requires c.Accepts(t)
  {
    if t < c.depth then 0.0 else Factors(c.setSize, t, c.depth)
  }

  lemma Cancel(f: real, q: real, d: real, n: real, t: real, a: real, b: real, u: real, v: real)
    requires d > 0.0 && q * n == t && f * a == u && d * b == n * a && d * v == t * u
    ensures (f * q) * b == v
  {
    var fq := f * q;
    assert t * u == (q * n) * (f * a);
    assert (q * n) * (f * a) == fq * (n * a);
    assert fq * (d * b) == d * (fq * b);
    assert d * (v - fq * b) == 0.0;
  }

  lemma QuotientTimes(t: real, n: real)
    requires n > 0.0
    ensures (t / n) * n == t
  {
  }

  lemma StepAsReal(n: nat, k: nat)
    ensures (k + 1) as real * Choose(n, k + 1) as real == (n - k) as real * Choose(n, k) as real
  {
    hide Choose;
    ChooseStep(n, k);
    ProductsAsReal(k + 1, Choose(n, k + 1), n - k, Choose(n, k));
  }

  lemma ProductsAsReal(a: int, b: int, c: int, d: int)
    requires a * b == c * d
    ensures a as real * b as real == c as real * d as real
  {
    ProductAsReal(a, b);
    ProductAsReal(c, d);
  }

  lemma ProductAsReal(a: int, b: int)
    ensures (a * b) as real == a as real * b as real
  {
  }

  /** The product of the factors is a quotient of two binomial coefficients. */
  lemma {:induction false} FactorsCount(n: nat, t: nat, d: nat)
    requires d <= n
    ensures Factors(n, t, d) * Choose(n, d) as real == Choose(t, d) as real
  {
    hide Factors, Choose;
    if d == 0 {
      NoFactors(n, t);
    } else {
      FactorsCount(n, t, d - 1);
      StepAsReal(n, d - 1);
      StepAsReal(t, d - 1);
      var q := FactorsStep(n, t, d);
      Cancel(Factors(n, t, d - 1), q, d as real, (n - (d - 1)) as real, (t - (d - 1)) as real,
             Choose(n, d - 1) as real, Choose(n, d) as real, Choose(t, d - 1) as real, Choose(t, d) as real);
    }
  }

  lemma NoFactors(n: nat, t: nat)
    ensures Factors(n, t, 0) == 1.0 && Choose(n, 0) == Choose(t, 0) == 1
  {
  }

  lemma FactorsStep(n: nat, t: nat, d: nat) returns (q: real)
    requires 0 < d <= n
    ensures Factors(n, t, d) == Factors(n, t, d - 1) * q && q * (n - (d - 1)) as real == (t - (d - 1)) as real
  {
    q := (t - (d - 1)) as real / (n - (d - 1)) as real;
    QuotientTimes((t - (d - 1)) as real, (n - (d - 1)) as real);
  }

  lemma ExhaustionCount(c: SurvivalConfig, t: nat)
    requires c.Accepts(t)
    ensures Choose(c.setSize, c.depth) > 0
    ensures Exhaustion(c, t) * Choose(c.setSize, c.depth) as real == Choose(t, c.depth) as real
  {
    hide Choose, Factors;
    FactorsCount(c.setSize, t, c.depth);
    ChoosePositive(t, c.depth);
    ChoosePositive(c.setSize, c.depth);
  }

  /**
   What the product means: of all choices of the d members with the smallest hashes, the
   fraction that lies inside the deleted ones.
   */
  lemma ExhaustionIsFraction(c: SurvivalConfig, members: set<nat>, deleted: set<nat>)
    requires deleted <= members && |members| == c.setSize && c.Accepts(|deleted|)
    ensures |SubsetsOf(members, c.depth)| > 0
    ensures Exhaustion(c, |deleted|) * |SubsetsOf(members, c.depth)| as real == |SubsetsOf(deleted, c.depth)| as real
  {
    hide Choose, Exhaustion, SubsetsOf;
    ExhaustionCount(c, |deleted|);
    CountSubsets(members, c.depth);
    CountSubsets(deleted, c.depth);
  }

  /** Deleting a list of hashes from a row, one by one. */
  function DeleteEach(row: seq<nat>, ws: seq<nat>): seq<nat> {
    if ws == [] then row else DeleteRow(DeleteEach(row, ws[..|ws| - 1]), ws[|ws| - 1])
  }

  lemma {:induction false} DeleteEachKeeps(row: seq<nat>, ws: seq<nat>)
    requires Ascending(row)
    ensures Ascending(DeleteEach(row, ws)) && forall x :: x in DeleteEach(row, ws) <==> x in row && x !in ws
  {
    if ws != [] {
      var front, w := ws[..|ws| - 1], ws[|ws| - 1];
      DeleteEachKeeps(row, front);
      var r, pos := DeleteCases(DeleteEach(row, front), w);
      hide DeleteRow, Ascending;
      assert ws == front + [w];
    }
  }

  /** The rows that the deletions empty are the ones the fraction counts. */
  lemma EmptiedRow(row: seq<nat>, ws: seq<nat>, d: nat)
    requires Ascending(row) && |row| == d
    ensures DeleteEach(row, ws) == [] <==> Elems(row) in SubsetsOf(Elems(ws), d)
  {
    DeleteEachKeeps(row, ws);
    DistinctCount(row);
    hide DeleteEach, Ascending;
    if DeleteEach(row, ws) == [] {
      forall x | x in Elems(row) ensures x in Elems(ws) { assert x !in DeleteEach(row, ws); }
    } else {
      var x := DeleteEach(row, ws)[0];
      assert x in DeleteEach(row, ws);
      assert x in Elems(row) && x !in Elems(ws);
    }
  }

  lemma {:induction false} DistinctCount(row: seq<nat>)
    requires Ascending(row)
    ensures |Elems(row)| == |row|
  {
    if row != [] {
      var last := |row| - 1;
      DistinctCount(row[..last]);
      assert Elems(row) == Elems(row[..last]) + {row[last]};
      assert row[last] !in Elems(row[..last]);
    } else {
      assert Elems(row) == {};
    }
  }

  lemma QuotientRange(q: real, n: real, x: real)
    requires n > 0.0 && q * n == x && 0.0 <= x <= n
    ensures 0.0 <= q <= 1.0 && (q == 0.0 <==> x == 0.0) && (q == 1.0 <==> x == n)
  {
    assert (q - 1.0) * n == x - n && (1.0 - q) * n == n - x && (-q) * n == -x;
    if q < 0.0 { RealPositive(-q, n, (-q) * n); }
    if q > 1.0 { RealPositive(q - 1.0, n, (q - 1.0) * n); }
    if q > 0.0 { RealPositive(q, n, x); }
    if q < 1.0 { RealPositive(1.0 - q, n, (1.0 - q) * n); }
  }

  lemma QuotientOrder(q: real, r: real, n: real, x: real, y: real)
    requires n > 0.0 && q * n == x && r * n == y && x <= y
    ensures q <= r
  {
    assert (q - r) * n == x - y;
    if q > r { RealPositive(q - r, n, (q - r) * n); }
  }

  /** A probability: impossible below d deletions, certain only when every member is gone. */
  lemma ExhaustionRange(c: SurvivalConfig, t: nat)
    requires c.Accepts(t)
    ensures 0.0 <= Exhaustion(c, t) <= 1.0
    ensures Exhaustion(c, t) == 0.0 <==> t < c.depth
    ensures Exhaustion(c, t) == 1.0 <==> t == c.setSize
  {
    hide Choose, Exhaustion;
    ExhaustionCount(c, t);
    ChooseMono(t, c.setSize, c.depth);
    ChoosePositive(t, c.depth);
    QuotientRange(Exhaustion(c, t), Choose(c.setSize, c.depth) as real, Choose(t, c.depth) as real);
  }

  lemma ExhaustionMono(c: SurvivalConfig, t: nat, u: nat)
    requires t <= u && c.Accepts(u)
    ensures Exhaustion(c, t) <= Exhaustion(c, u)
  {
    hide Choose, Exhaustion;
    ExhaustionCount(c, t);
    ExhaustionCount(c, u);
    ChooseMono(t, u, c.depth);
    QuotientOrder(Exhaustion(c, t), Exhaustion(c, u), Choose(c.setSize, c.depth) as real,
                  Choose(t, c.depth) as real, Choose(u, c.depth) as real);
  }

  lemma FactorsNext(n: nat, t: nat, i: nat)
    requires i < n
    ensures Factors(n, t, i + 1) == Factors(n, t, i) * ((t - i) as real / (n - i) as real)
  {
  }

  lemma ExhaustionIs(c: SurvivalConfig, t: nat)
    requires c.Accepts(t) && t >= c.depth
    ensures Exhaustion(c, t) == Factors(c.setSize, t, c.depth)
  {
  }

  method BottomExhaustionProbability(config: SurvivalConfig, completed: nat) returns (r: Result<real>)
    ensures r.Ok? <==> 0 < config.depth <= config.setSize && config.hashCount > 0 && completed <= config.setSize
    ensures r.Ok? ==> r.value == Exhaustion(config, completed) && 0.0 <= r.value <= 1.0
  {
    if !config.Accepts(completed) { return Err(InvalidArgument("invalid deletion survival configuration")); }
    ExhaustionRange(config, completed);
    if completed < config.depth { return Ok(0.0); }
    ExhaustionIs(config, completed);
    NoFactors(config.setSize, completed);
    hide Exhaustion, Factors;
    var ratio := 1.0;
    for i := 0 to config.depth
      invariant ratio == Factors(config.setSize, completed, i)
    {
      FactorsNext(config.setSize, completed, i);
      ratio := ratio * ((completed - i) as real / (config.setSize - i) as real);
    }
    return Ok(ratio);
  }

  // ------------------------------------------------------------------ survival of all rows

  function Power(x: real, k: nat): real {
    if k == 0 then 1.0 else x * Power(x, k - 1)
  }

  lemma {:induction false} PowerMono(x: real, y: real, k: nat)
    requires 0.0 <= x <= y
    ensures 0.0 <= Power(x, k) <= Power(y, k)
  {
    if k > 0 {
      PowerMono(x, y, k - 1);
      ProductMono(x, y, Power(x, k - 1), Power(y, k - 1));
    }
  }

  lemma ProductMono(x: real, y: real, p: real, q: real)
    requires 0.0 <= x <= y && 0.0 <= p <= q
    ensures 0.0 <= x * p <= y * q
  {
    RealProduct(x, p, x * p);
    RealProduct(x, q - p, x * (q - p));
    RealProduct(y - x, q, (y - x) * q);
    assert y * q - x * p == (y - x) * q + x * (q - p);
  }

  lemma {:induction false} PowerRange(x: real, k: nat)
    requires 0.0 <= x <= 1.0 && k > 0
    ensures 0.0 <= Power(x, k) <= x
    ensures x > 0.0 ==> Power(x, k) > 0.0
    ensures x == 1.0 ==> Power(x, k) == 1.0
  {
    var p := Power(x, k - 1);
    if k > 1 { PowerRange(x, k - 1); }
    assert Power(x, k) == x * p && 0.0 <= p <= 1.0;
    hide Power;
    RealProduct(x, p, x * p);
    RealProduct(x, 1.0 - p, x * (1.0 - p));
    assert x * (1.0 - p) == x - x * p;
    if x > 0.0 { RealPositive(x, p, x * p); }
  }

  /** Bernoulli's inequality, strict where it can be. */
  lemma {:induction false} Bernoulli(q: real, k: nat)
    requires 0.0 <= q <= 1.0
    ensures Power(1.0 - q, k) >= 1.0 - k as real * q
    ensures k >= 2 && q > 0.0 ==> Power(1.0 - q, k) > 1.0 - k as real * q
  {
    if k > 0 {
      Bernoulli(q, k - 1);
      var p := Power(1.0 - q, k - 1);
      assert Power(1.0 - q, k) == (1.0 - q) * p;
      hide Power;
      BernoulliStep(q, (k - 1) as real, p, (1.0 - q) * p);
      assert k as real == (k - 1) as real + 1.0;
    }
  }

  lemma BernoulliStep(q: real, k: real, p: real, next: real)
    requires 0.0 <= q <= 1.0 && k >= 0.0 && p >= 1.0 - k * q && next == (1.0 - q) * p
    ensures next >= 1.0 - (k + 1.0) * q && (k > 0.0 && q > 0.0 ==> next > 1.0 - (k + 1.0) * q)
  {
    var kq := k * q;
    RealProduct(1.0 - q, p - (1.0 - kq), (1.0 - q) * (p - (1.0 - kq)));
    assert (1.0 - q) * (p - (1.0 - kq)) == next - (1.0 - q) * (1.0 - kq);
    assert (1.0 - q) * (1.0 - kq) == 1.0 - q - kq + q * kq;
    assert (k + 1.0) * q == kq + q;
    RealProduct(k, q, kq);
    RealProduct(q, kq, q * kq);
    if k > 0.0 && q > 0.0 {
      RealPositive(k, q, kq);
      RealPositive(q, kq, q * kq);
    }
  }

  function Survival(c: SurvivalConfig, t: nat): real
    requires c.Accepts(t)
  {
    Power(1.0 - Exhaustion(c, t), c.hashCount)
  }

  lemma {:induction false} PowerOfFraction(x: real, a: nat, b: nat, k: nat)
    requires x * a as real == b as real
    ensures Power(x, k) * Exp(a, k) as real == Exp(b, k) as real
  {
    hide Power, Exp;
    PowersAre(x, a, k);
    PowersAre(x, b, k);
    if k > 0 {
      PowerOfFraction(x, a, b, k - 1);
      var p, u, v := Power(x, k - 1), Exp(a, k - 1), Exp(b, k - 1);
      ProductAsReal(a, u);
      ProductAsReal(b, v);
      FractionStep(x, p, a as real, u as real, b as real, v as real);
    }
  }

  lemma PowersAre(x: real, a: nat, k: nat)
    ensures Power(x, k) == if k == 0 then 1.0 else x * Power(x, k - 1)
    ensures Exp(a, k) == if k == 0 then 1 else a * Exp(a, k - 1)
  {
  }

  lemma FractionStep(x: real, p: real, a: real, u: real, b: real, v: real)
    requires x * a == b && p * u == v
    ensures (x * p) * (a * u) == b * v
  {
    assert (x * p) * (a * u) == (x * a) * (p * u);
  }

  ghost predicate NoneInside(rows: seq<set<nat>>, deleted: set<nat>) {
    forall i :: 0 <= i < |rows| ==> !(rows[i] <= deleted)
  }

  /** The choices of one bottom row for each of k hash functions of which none lies inside the deleted members. */
  ghost function SurvivingChoices(members: set<nat>, deleted: set<nat>, d: nat, k: nat): set<seq<set<nat>>> {
    set rows | rows in ListsOf(SubsetsOf(members, d), k) && |rows| == k && NoneInside(rows, deleted)
  }

  lemma ChoicesAre(members: set<nat>, deleted: set<nat>, d: nat, k: nat)
    requires deleted <= members
    ensures SurvivingChoices(members, deleted, d, k) == ListsOf(SubsetsOf(members, d) - SubsetsOf(deleted, d), k)
    ensures |SubsetsOf(members, d) - SubsetsOf(deleted, d)| == |SubsetsOf(members, d)| - |SubsetsOf(deleted, d)|
  {
    var all, gone := SubsetsOf(members, d), SubsetsOf(deleted, d);
    assert gone <= all;
    hide ListsOf;
    forall rows ensures rows in SurvivingChoices(members, deleted, d, k) <==> rows in ListsOf(all - gone, k) {
      ListMember(all, k, rows);
      ListMember(all - gone, k, rows);
      if |rows| == k { ChoiceSurvives(members, deleted, d, k, rows); }
    }
  }

  lemma ChoiceSurvives(members: set<nat>, deleted: set<nat>, d: nat, k: nat, rows: seq<set<nat>>)
    requires |rows| == k
    ensures (forall i :: 0 <= i < k ==> rows[i] in SubsetsOf(members, d) - SubsetsOf(deleted, d)) <==>
      (forall i :: 0 <= i < k ==> rows[i] in SubsetsOf(members, d)) && NoneInside(rows, deleted)
  {
  }

  /**
   What survival means: of all choices of bottom rows, one for each of the k independent
   hash functions, the fraction in which no row is exhausted.
   */
  lemma SurvivalIsFraction(c: SurvivalConfig, members: set<nat>, deleted: set<nat>)
    requires deleted <= members && |members| == c.setSize && c.Accepts(|deleted|)
    ensures var all := ListsOf(SubsetsOf(members, c.depth), c.hashCount);
      |all| > 0
      && Survival(c, |deleted|) * |all| as real
         == |SurvivingChoices(members, deleted, c.depth, c.hashCount)| as real
  {
    hide Exhaustion, SubsetsOf, ListsOf, SurvivingChoices, Power, Exp;
    var d, k := c.depth, c.hashCount;
    var q, all, gone := Exhaustion(c, |deleted|), |SubsetsOf(members, d)|, |SubsetsOf(deleted, d)|;
    ExhaustionIsFraction(c, members, deleted);
    ChoicesAre(members, deleted, d, k);
    CountLists(SubsetsOf(members, d), k);
    CountLists(SubsetsOf(members, d) - SubsetsOf(deleted, d), k);
    assert (1.0 - q) * all as real == all as real - gone as real;
    PowerOfFraction(1.0 - q, all, all - gone, k);
    ExpPositive(all, k);
  }

  lemma {:induction false} ExpPositive(b: nat, k: nat)
    requires b > 0
    ensures Exp(b, k) > 0
  {
    if k > 0 {
      ExpPositive(b, k - 1);
      MulMono(1, Exp(b, k - 1), b);
    }
  }

  /** The union bound subtracts the exhausted choices of every single row. */
  lemma UnionBoundCounts(c: SurvivalConfig, members: set<nat>, deleted: set<nat>)
    requires deleted <= members && |members| == c.setSize && c.Accepts(|deleted|)
    ensures var all, lost := |SubsetsOf(members, c.depth)|, c.hashCount * |SubsetsOf(deleted, c.depth)|;
      if lost >= all then UnionBound(c, |deleted|) == 0.0
      else UnionBound(c, |deleted|) * all as real == (all - lost) as real
  {
    hide Exhaustion, SubsetsOf;
    var all, gone, k := |SubsetsOf(members, c.depth)|, |SubsetsOf(deleted, c.depth)|, c.hashCount;
    var q := Exhaustion(c, |deleted|);
    ExhaustionIsFraction(c, members, deleted);
    var lost := k * gone;
    ProductAsReal(k, gone);
    BoundTimes(1.0 - k as real * q, q, k as real, all as real, gone as real, lost as real);
  }

  lemma BoundTimes(bound: real, q: real, k: real, all: real, gone: real, lost: real)
    requires all > 0.0 && q * all == gone && lost == k * gone && bound == 1.0 - k * q
    ensures bound * all == all - lost && (lost >= all ==> bound <= 0.0) && (lost < all ==> bound > 0.0)
  {
    assert (k * q) * all == k * (q * all);
    assert (-bound) * all == lost - all;
    if bound > 0.0 { RealPositive(bound, all, bound * all); }
    if bound <= 0.0 { RealProduct(-bound, all, (-bound) * all); }
  }

  /** Survival is a probability: certain exactly below d deletions, impossible exactly when the set is empty. */
  lemma SurvivalRange(c: SurvivalConfig, t: nat)
    requires c.Accepts(t)
    ensures 0.0 <= Survival(c, t) <= 1.0
    ensures Survival(c, t) == 1.0 <==> t < c.depth
    ensures Survival(c, t) == 0.0 <==> t == c.setSize
  {
    hide Exhaustion;
    ExhaustionRange(c, t);
    PowerRange(1.0 - Exhaustion(c, t), c.hashCount);
  }

  /** More deletions survive no better. */
  lemma SurvivalMono(c: SurvivalConfig, t: nat, u: nat)
    requires t <= u && c.Accepts(u)
    ensures Survival(c, u) <= Survival(c, t)
  {
    hide Exhaustion;
    ExhaustionMono(c, t, u);
    ExhaustionRange(c, u);
    PowerMono(1.0 - Exhaustion(c, u), 1.0 - Exhaustion(c, t), c.hashCount);
  }

  method ExactDeletionSurvival(config: SurvivalConfig, completed: nat) returns (r: Result<real>)
    ensures r.Ok? <==> 0 < config.depth <= config.setSize && config.hashCount > 0 && completed <= config.setSize
    ensures r.Ok? ==> r.value == Survival(config, completed)
  {
    var probability := BottomExhaustionProbability(config, completed);
    var q :- probability;
    SurvivalRange(config, completed);
    ExhaustionRange(config, completed);
    if q == 1.0 { return Ok(0.0); }
    return Ok(Power(1.0 - q, config.hashCount));
  }

  function UnionBound(c: SurvivalConfig, t: nat): real
    requires c.Accepts(t)
  {
    var bound := 1.0 - c.hashCount as real * Exhaustion(c, t);
    if bound < 0.0 then 0.0 else bound
  }

  method UnionBoundDeletionSurvival(config: SurvivalConfig, completed: nat) returns (r: Result<real>)
    ensures r.Ok? <==> 0 < config.depth <= config.setSize && config.hashCount > 0 && completed <= config.setSize
    ensures r.Ok? ==> r.value == UnionBound(config, completed)
  {
    var probability := BottomExhaustionProbability(config, completed);
    var q :- probability;
    var bound := 1.0 - config.hashCount as real * q;
    return Ok(if bound < 0.0 then 0.0 else bound);
  }

  /** The union bound never exceeds the survival, and meets it exactly in the trivial cases. */
  lemma UnionBoundBelow(c: SurvivalConfig, t: nat)
    requires c.Accepts(t)
    ensures UnionBound(c, t) <= Survival(c, t)
    ensures UnionBound(c, t) == Survival(c, t) <==> c.hashCount == 1 || t < c.depth || t == c.setSize
  {
    var q, k := Exhaustion(c, t), c.hashCount;
    ExhaustionRange(c, t);
    SurvivalRange(c, t);
    Bernoulli(q, k);
    if k == 1 { assert Power(1.0 - q, 0) == 1.0; }
    assert UnionBound(c, t) == (if 1.0 - k as real * q < 0.0 then 0.0 else 1.0 - k as real * q);
    hide Exhaustion, Power, UnionBound;
    BoundProduct(q, k);
  }

  lemma BoundProduct(q: real, k: nat)
    requires 0.0 <= q <= 1.0 && k > 0
    ensures k == 1 ==> k as real * q == q
    ensures q == 0.0 ==> k as real * q == 0.0
    ensures q == 1.0 ==> k as real * q >= 1.0
  {
  }

  // ------------------------------------------------------------------ the summary

  /** Sum of the survivals of 0, ..., t - 1 deletions. */
  ghost function SurvivalSum(c: SurvivalConfig, t: nat): real
    requires c.Accepts(t)
  {
    if t == 0 then 0.0 else SurvivalSum(c, t - 1) + Survival(c, t - 1)
  }

  lemma {:induction false} SumRange(c: SurvivalConfig, t: nat)
    requires c.Accepts(t)
    ensures (if t < c.depth then t else c.depth) as real <= SurvivalSum(c, t) <= t as real
  {
    hide Survival;
    if t > 0 {
      SumRange(c, t - 1);
      SurvivalRange(c, t - 1);
    }
  }

  /** Sum over u = 1, ..., t of u times the probability that deletion u is the first to exhaust a row. */
  ghost function FailureSum(c: SurvivalConfig, t: nat): real
    requires c.Accepts(t)
  {
    if t == 0 then 0.0 else FailureSum(c, t - 1) + t as real * (Survival(c, t - 1) - Survival(c, t))
  }

  /** The sum of the survivals is the expected number of the first failing deletion. */
  lemma {:induction false} SumIsExpectation(c: SurvivalConfig, t: nat)
    requires c.Accepts(t)
    ensures SurvivalSum(c, t) == FailureSum(c, t) + t as real * Survival(c, t)
    ensures t == c.setSize ==> SurvivalSum(c, t) == FailureSum(c, t)
  {
    hide Survival;
    if t > 0 {
      SumIsExpectation(c, t - 1);
      var a, b := Survival(c, t - 1), Survival(c, t);
      assert t as real * (a - b) == (t - 1) as real * a + a - t as real * b;
    }
    SurvivalRange(c, t);
  }

  datatype SurvivalSummary = SurvivalSummary(maximumSafe: nat, firstFailure: real, safeDeletions: real)

  /** The greatest number of deletions that survives with the required probability. */
  ghost predicate IsMaximum(c: SurvivalConfig, required: real, max: nat)
    requires c.Accepts(0)
  {
    max <= c.setSize && forall t: nat :: t <= c.setSize ==> (Survival(c, t) >= required <==> t <= max)
  }

  /**
   AnalyzeDeletionSurvival: the binary search finds the greatest admissible count, which is
   at least d - 1 and leaves at least one member; for certainty it is d - 1 exactly.
   */
  method AnalyzeDeletionSurvival(config: SurvivalConfig, required: real) returns (r: Result<SurvivalSummary>)
    ensures r.Ok? <==> 0 < config.depth <= config.setSize && config.hashCount > 0 && 0.0 < required <= 1.0
    ensures r.Ok? ==> IsMaximum(config, required, r.value.maximumSafe)
    ensures r.Ok? ==> config.depth - 1 <= r.value.maximumSafe < config.setSize
    ensures r.Ok? && required == 1.0 ==> r.value.maximumSafe == config.depth - 1
    ensures r.Ok? ==> r.value.firstFailure == FailureSum(config, config.setSize)
    ensures r.Ok? ==> r.value.safeDeletions == r.value.firstFailure - 1.0
    ensures r.Ok? ==> config.depth as real <= r.value.firstFailure <= config.setSize as real
  {
    if !config.Accepts(0) { return Err(InvalidArgument("invalid deletion survival configuration")); }
    if required <= 0.0 || required > 1.0 {
      return Err(InvalidArgument("required survival must be finite and in (0, 1]"));
    }
    hide Survival;
    var low: nat, high: nat := 0, config.setSize;
    SurvivalRange(config, 0);
    while low < high
      invariant low <= high <= config.setSize && Survival(config, low) >= required
      invariant forall t: nat :: high < t <= config.setSize ==> Survival(config, t) < required
      decreases high - low
    {
      var interval := high - low;
      var candidate := low + interval / 2 + interval % 2;
      var survival := ExactDeletionSurvival(config, candidate);
      if survival.value >= required {
        low := candidate;
      } else {
        forall t: nat | candidate <= t <= config.setSize ensures Survival(config, t) < required {
          SurvivalMono(config, candidate, t);
        }
        high := candidate - 1;
      }
    }
    MaximumFound(config, required, low);
    var firstFailure := 0.0;
    for completed := 0 to config.setSize
      invariant firstFailure == SurvivalSum(config, completed)
    {
      var survival := ExactDeletionSurvival(config, completed);
      firstFailure := firstFailure + survival.value;
    }
    SumRange(config, config.setSize);
    SumIsExpectation(config, config.setSize);
    return Ok(SurvivalSummary(low, firstFailure, firstFailure - 1.0));
  }

  lemma MaximumFound(c: SurvivalConfig, required: real, max: nat)
    requires c.Accepts(max) && 0.0 < required <= 1.0 && Survival(c, max) >= required
    requires forall t: nat :: max < t <= c.setSize ==> Survival(c, t) < required
    ensures IsMaximum(c, required, max) && c.depth - 1 <= max < c.setSize
    ensures required == 1.0 ==> max == c.depth - 1
  {
    hide Survival;
    forall t: nat | t <= c.setSize ensures Survival(c, t) >= required <==> t <= max {
      if t <= max { SurvivalMono(c, t, max); }
    }
    SurvivalRange(c, c.depth - 1);
    SurvivalRange(c, c.setSize);
    SurvivalRange(c, max);
  }

  /** With one hash function the expected first failure has a closed form. */
  lemma SingleHashMean(c: SurvivalConfig)
    requires c.Accepts(0) && c.hashCount == 1
    ensures SurvivalSum(c, c.setSize) * (c.depth + 1) as real == (c.depth * (c.setSize + 1)) as real
  {
    hide Choose, SurvivalSum, Survival;
    var n, d := c.setSize, c.depth;
    SingleHashSum(c, n);
    HockeyStick(n, d);
    ChoosePositive(n, d);
    StepAsReal(n, d);
    MeanFrom(SurvivalSum(c, n), n as real, d as real, Choose(n, d) as real, Choose(n, d + 1) as real);
    assert (d * (n + 1)) as real == d as real * (n + 1) as real by { ProductAsReal(d, n + 1); }
  }

  lemma MeanFrom(sum: real, n: real, d: real, a: real, b: real)
    requires a > 0.0 && sum * a == n * a - b && (d + 1.0) * b == (n - d) * a
    ensures sum * (d + 1.0) == d * (n + 1.0)
  {
    assert (sum * a) * (d + 1.0) == (n * a) * (d + 1.0) - b * (d + 1.0);
    assert (sum * (d + 1.0)) * a == (sum * a) * (d + 1.0);
    assert (d * (n + 1.0)) * a == (n * a) * (d + 1.0) - (n - d) * a;
    var gap := sum * (d + 1.0) - d * (n + 1.0);
    assert gap * a == 0.0;
  }

  lemma {:induction false} SingleHashSum(c: SurvivalConfig, t: nat)
    requires c.Accepts(t) && c.hashCount == 1
    ensures var all := Choose(c.setSize, c.depth) as real;
      SurvivalSum(c, t) * all == t as real * all - ChooseSum(t, c.depth) as real
  {
    hide Choose, Exhaustion, Survival, Power;
    if t > 0 {
      SingleHashSum(c, t - 1);
      ExhaustionCount(c, t - 1);
      var q, all := Exhaustion(c, t - 1), Choose(c.setSize, c.depth) as real;
      SingleSurvival(c, t - 1);
      SumsStep(c, t);
      hide SurvivalSum, ChooseSum, Survival, Power;
      OneMoreTerm(SurvivalSum(c, t - 1), q, all, (t - 1) as real, ChooseSum(t - 1, c.depth) as real,
                  Choose(t - 1, c.depth) as real);
    }
  }

  lemma SingleSurvival(c: SurvivalConfig, t: nat)
    requires c.Accepts(t) && c.hashCount == 1
    ensures Survival(c, t) == 1.0 - Exhaustion(c, t)
  {
    hide Exhaustion;
    assert Power(1.0 - Exhaustion(c, t), 0) == 1.0;
  }

  lemma SumsStep(c: SurvivalConfig, t: nat)
    requires t > 0 && c.Accepts(t)
    ensures SurvivalSum(c, t) == SurvivalSum(c, t - 1) + Survival(c, t - 1)
    ensures ChooseSum(t, c.depth) == ChooseSum(t - 1, c.depth) + Choose(t - 1, c.depth)
  {
    hide Survival, Choose;
  }

  lemma OneMoreTerm(sum: real, q: real, all: real, t: real, counted: real, next: real)
    requires sum * all == t * all - counted && q * all == next
    ensures (sum + (1.0 - q)) * all == (t + 1.0) * all - (counted + next)
  {
  }
}
