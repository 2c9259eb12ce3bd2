/**
 The manifest-bound execution trace (`benchmarks/comparison_workload.cpp`) and the
 dispatch loop that drives it (`benchmarks/bench_review_comparison.cpp`).
 */
module Trace {
  import opened Num
  import opened Wrappers
  import opened Codec

  datatype TrialKind = Warmup | Timing | Accuracy | Correctness

  datatype Trial = Trial(
    kind: TrialKind, index: nat, seed: nat, hashSeed: nat, setA: seq<nat>, setB: seq<nat>,
    exactIntersection: nat, exactUnion: nat, exactJaccard: (nat, nat))

  /** The comparison of the trace builder; the derived Jaccard fraction takes no part. */
  predicate SameTrial(a: Trial, b: Trial) {
    && a.kind == b.kind && a.index == b.index && a.seed == b.seed && a.hashSeed == b.hashSeed
    && a.setA == b.setA && a.setB == b.setB
    && a.exactIntersection == b.exactIntersection && a.exactUnion == b.exactUnion
  }

  datatype Workload = Workload(methods: seq<Text>, trials: seq<Trial>) {
    /** The suite policy lists at least one method and no method twice. */
    ghost predicate Valid() {
      methods != [] && forall i, j :: 0 <= i < j < |methods| ==> methods[i] != methods[j]
    }
  }

  // ------------------------------------------------------------------ cyclic order

  function Rotation(methods: seq<Text>, offset: nat): (order: seq<Text>)
    requires offset <= |methods|
    ensures |order| == |methods|
  {
    methods[offset..] + methods[..offset]
  }

  function Order(w: Workload, i: nat): (order: seq<Text>)
    requires w.methods != [] && i < |w.trials|
    ensures |order| == |w.methods|
  {
    Rotation(w.methods, w.trials[i].seed % |w.methods|)
  }

  lemma OrderIs(w: Workload, i: nat, order: seq<Text>)
    requires w.methods != [] && i < |w.trials| && order == Rotation(w.methods, w.trials[i].seed % |w.methods|)
    ensures order == Order(w, i)
  {
  }

  /** Index arithmetic modulo the list length walks the rotation. */
  lemma WrapAround(offset: nat, i: nat, count: nat)
    requires offset < count && i < count
    ensures (offset + i) % count == if offset + i < count then offset + i else offset + i - count
  {
    if offset + i < count {
      ModIs(offset + i, count, 0, offset + i);
    } else {
      ModIs(offset + i, count, 1, offset + i - count);
    }
  }

  lemma RotationAt(methods: seq<Text>, offset: nat, i: nat)
    requires offset < |methods| && i < |methods|
    ensures 0 <= (offset + i) % |methods| < |methods|
      && Rotation(methods, offset)[i] == methods[(offset + i) % |methods|]
    ensures Rotation(methods, offset)[..i + 1] == Rotation(methods, offset)[..i] + [Rotation(methods, offset)[i]]
  {
    WrapAround(offset, i, |methods|);
  }

  method ExecutionOrder(methods: seq<Text>, seed: nat) returns (r: Result<seq<Text>>)
    ensures methods == [] ==> r.Err? && r.error.LogicError?
    ensures methods != [] ==> r == Ok(Rotation(methods, seed % |methods|))
    ensures methods != [] ==> |r.value| == |methods| && forall i :: 0 <= i < |methods| ==>
              r.value[i] == methods[(seed + i) % |methods|]
  {
    var count := |methods|;
    if count == 0 {
      return Err(LogicError("workload method list is empty"));
    }
    hide Rotation;
    var order: seq<Text> := [];
    var offset := seed % count;
    for i := 0 to count
      invariant order == Rotation(methods, offset)[..i]
    {
      RotationAt(methods, offset, i);
      order := order + [methods[(offset + i) % count]];
    }
    assert Rotation(methods, offset)[..count] == Rotation(methods, offset);
    forall i | 0 <= i < count ensures Rotation(methods, offset)[i] == methods[(seed + i) % count] {
      RotationAt(methods, offset, i);
      ModAdd(seed, i, count);
    }
    return Ok(order);
  }

  /** The names are the first methods of trial i, counted cyclically from its seed. */
  ghost predicate InOrder(w: Workload, i: nat, names: seq<Text>)
    requires w.methods != [] && i < |w.trials|
  {
    |names| <= |w.methods|
    && forall j :: 0 <= j < |names| ==> names[j] == w.methods[(w.trials[i].seed + j) % |w.methods|]
  }

  lemma OrderAt(w: Workload, i: nat, j: nat)
    requires w.methods != [] && i < |w.trials| && j < |w.methods|
    ensures 0 <= (w.trials[i].seed + j) % |w.methods| < |w.methods|
    ensures Order(w, i)[j] == w.methods[(w.trials[i].seed + j) % |w.methods|]
  {
    RotationAt(w.methods, w.trials[i].seed % |w.methods|, j);
    ModAdd(w.trials[i].seed, j, |w.methods|);
  }

  lemma PrefixInOrder(w: Workload, i: nat, names: seq<Text>)
    requires w.methods != [] && i < |w.trials|
    ensures names <= Order(w, i) <==> InOrder(w, i, names)
  {
    hide Order;
    if names <= Order(w, i) {
      forall j | 0 <= j < |names| ensures names[j] == w.methods[(w.trials[i].seed + j) % |w.methods|] {
        OrderAt(w, i, j);
      }
    }
    if InOrder(w, i, names) {
      forall j | 0 <= j < |names| ensures names[j] == Order(w, i)[j] {
        OrderAt(w, i, j);
      }
      assert names == Order(w, i)[..|names|];
    }
  }

  // ------------------------------------------------------------------ the trace builder

  datatype Status = Complete | AdapterFailure

  datatype Record = Record(kind: TrialKind, index: nat, expectedMethods: nat, status: Status, dispatched: seq<Text>)

  /** Record i names trial i and has dispatched a prefix of its cyclic order. */
  ghost predicate IsRecord(w: Workload, i: nat, rec: Record)
    requires w.methods != []
  {
    && i < |w.trials|
    && rec.kind == w.trials[i].kind && rec.index == w.trials[i].index && rec.expectedMethods == |w.methods|
    && rec.dispatched <= Order(w, i)
  }

  ghost predicate IsClosed(w: Workload, i: nat, rec: Record)
    requires w.methods != []
  {
    && IsRecord(w, i, rec)
    && match rec.status
       case Complete => |rec.dispatched| == |w.methods|
       case AdapterFailure => rec.dispatched != []
  }

  ghost predicate Failed(records: seq<Record>) {
    records != [] && records[|records| - 1].status == AdapterFailure
  }

  /** Closed records of the first trials in order; only the last may have failed. */
  ghost predicate IsTrace(w: Workload, records: seq<Record>)
    requires w.methods != []
  {
    && |records| <= |w.trials|
    && (forall i :: 0 <= i < |records| ==> IsClosed(w, i, records[i]))
    && (forall i :: 0 <= i < |records| - 1 ==> records[i].status == Complete)
  }

  lemma ExtendsPrefix(done: seq<Text>, name: Text, expected: seq<Text>)
    requires done <= expected
    ensures done + [name] <= expected <==> |done| < |expected| && name == expected[|done|]
  {
    if done + [name] <= expected { assert (done + [name])[|done|] == name; }
  }

  class ExecutionTrace {
    const workload: Workload
    var records: seq<Record>
    var current: Option<Record>
    var terminated: bool

    /** What every operation keeps, in whatever order the operations come. */
    ghost predicate Valid()
      reads this
    {
      && workload.Valid()
      && IsTrace(workload, records)
      && (terminated <==> Failed(records))
      && (current.Some? ==> !terminated && |records| < |workload.trials|
                            && IsRecord(workload, |records|, current.value) && current.value.status == Complete)
    }

    constructor (workload: Workload)
      requires workload.Valid()
      ensures Valid() && this.workload == workload && records == [] && current == None && !terminated
    {
      this.workload, records, current, terminated := workload, [], None, false;
    }

    method BeginRecord(trial: Trial) returns (r: Result<()>)
      requires Valid()
      modifies this
      ensures Valid() && records == old(records) && terminated == old(terminated)
      ensures r.Ok? <==> !terminated && old(current).None? && |records| < |workload.trials|
                         && var next := workload.trials[|records|];
                            && trial.kind == next.kind && trial.index == next.index && trial.seed == next.seed
                            && trial.hashSeed == next.hashSeed && trial.setA == next.setA && trial.setB == next.setB
                            && trial.exactIntersection == next.exactIntersection
                            && trial.exactUnion == next.exactUnion
      ensures r.Err? ==> current == old(current)
      ensures r.Ok? ==> current == Some(Record(trial.kind, trial.index, |workload.methods|, Complete, []))
    {
      if terminated { return Err(LogicError("execution trace already terminated")); }
      if current.Some? { return Err(LogicError("trace record already open")); }
      if |records| >= |workload.trials| || !SameTrial(trial, workload.trials[|records|]) {
        return Err(InvalidArgument("trace record is not the next manifest trial"));
      }
      current := Some(Record(trial.kind, trial.index, |workload.methods|, Complete, []));
      return Ok(());
    }

    method AppendDispatch(name: Text) returns (r: Result<()>)
      requires Valid()
      modifies this
      ensures Valid() && records == old(records) && terminated == old(terminated)
      ensures r.Ok? <==> old(current).Some? && old(current).value.dispatched + [name] <= Order(workload, |records|)
      ensures r.Ok? <==> old(current).Some? && InOrder(workload, |records|, old(current).value.dispatched + [name])
      ensures r.Err? ==> current == old(current)
      ensures r.Ok? ==> current == Some(old(current).value.(dispatched := old(current).value.dispatched + [name]))
    {
      if current.None? { return Err(LogicError("no open trace record")); }
      var trial := workload.trials[|records|];
      var ordered := ExecutionOrder(workload.methods, trial.seed);
      var expected := ordered.value;
      var done := current.value.dispatched;
      ExtendsPrefix(done, name, expected);
      PrefixInOrder(workload, |records|, done + [name]);
      if |done| >= |expected| || name != expected[|done|] {
        return Err(InvalidArgument("dispatch does not match cyclic method order"));
      }
      current := Some(current.value.(dispatched := done + [name]));
      return Ok(());
    }

    method CompleteRecord() returns (r: Result<()>)
      requires Valid()
      modifies this
      ensures Valid() && terminated == old(terminated)
      ensures r.Ok? <==> old(current).Some? && |old(current).value.dispatched| == |workload.methods|
      ensures r.Err? ==> current == old(current) && records == old(records)
      ensures r.Ok? ==> current == None && records == old(records) + [old(current).value]
    {
      if current.None? { return Err(LogicError("no open trace record")); }
      if |current.value.dispatched| != current.value.expectedMethods {
        return Err(LogicError("complete trace record is missing dispatches"));
      }
      records := records + [current.value.(status := Complete)];
      current := None;
      return Ok(());
    }

    method FailRecord() returns (r: Result<()>)
      requires Valid()
      modifies this
      ensures Valid()
      ensures r.Ok? <==> old(current).Some? && old(current).value.dispatched != []
      ensures r.Err? ==> current == old(current) && records == old(records) && terminated == old(terminated)
      ensures r.Ok? ==>
        terminated && current == None
        && records == old(records) + [old(current).value.(status := AdapterFailure)]
    {
      if current.None? { return Err(LogicError("no open trace record")); }
      if current.value.dispatched == [] || |current.value.dispatched| > current.value.expectedMethods {
        return Err(LogicError("adapter failure requires a dispatched adapter"));
      }
      records := records + [current.value.(status := AdapterFailure)];
      current := None;
      terminated := true;
      return Ok(());
    }
  }

  // ------------------------------------------------------------------ the dispatch loop

  /** One adapter invocation, for the record and method it was made for. */
  datatype Call = Call(record: nat, name: Text)

  function CallsFor(i: nat, names: seq<Text>): (calls: seq<Call>)
    ensures |calls| == |names|
  {
    seq(|names|, j requires 0 <= j < |names| => Call(i, names[j]))
  }

  /** The dispatches a list of records stands for. */
  ghost function CallsOf(records: seq<Record>): seq<Call> {
    if records == [] then [] else
      var last := |records| - 1;
      CallsOf(records[..last]) + CallsFor(last, records[last].dispatched)
  }

  /** Every dispatch of the first n trials, each in its cyclic order. */
  ghost function Plan(w: Workload, n: nat): seq<Call>
    requires w.methods != [] && n <= |w.trials|
  {
    if n == 0 then [] else Plan(w, n - 1) + CallsFor(n - 1, Order(w, n - 1))
  }

  /** Call j of trial i, in the plan of the first n trials. */
  lemma {:induction false} PlanAt(w: Workload, n: nat, i: nat, j: nat, at: nat)
    requires w.methods != [] && i < n <= |w.trials| && j < |w.methods| && at == i * |w.methods| + j
    ensures |Plan(w, n)| == n * |w.methods| && at < |Plan(w, n)|
    ensures Plan(w, n)[at] == Call(i, w.methods[(w.trials[i].seed + j) % |w.methods|])
  {
    hide Order;
    var m := |w.methods|;
    PlanLength(w, n - 1);
    assert n * m == (n - 1) * m + m;
    if i < n - 1 {
      PlanAt(w, n - 1, i, j, at);
    } else {
      OrderAt(w, i, j);
    }
  }

  lemma {:induction false} PlanLength(w: Workload, n: nat)
    requires w.methods != [] && n <= |w.trials|
    ensures |Plan(w, n)| == n * |w.methods|
  {
    if n > 0 {
      PlanLength(w, n - 1);
      assert n * |w.methods| == (n - 1) * |w.methods| + |w.methods|;
    }
  }

  /** The observations of the successful calls of one method on one kind of trial, in call order. */
  ghost function Observed<O>(w: Workload, calls: seq<Call>, outcome: nat -> Option<O>,
                         name: Text, kind: TrialKind): seq<O> {
    if calls == [] then [] else
      var last := |calls| - 1;
      var before := Observed(w, calls[..last], outcome, name, kind);
      if Concerns(w, calls[last], name, kind) && outcome(last).Some? then before + [outcome(last).value] else before
  }

  ghost predicate Concerns(w: Workload, call: Call, name: Text, kind: TrialKind) {
    call.name == name && call.record < |w.trials| && w.trials[call.record].kind == kind
  }

  /** The successful calls of one method on one kind of trial. */
  ghost function Concerned<O>(w: Workload, calls: seq<Call>, outcome: nat -> Option<O>, name: Text,
                              kind: TrialKind): set<int> {
    set c | 0 <= c < |calls| && calls[c].name == name && calls[c].record < |w.trials|
            && w.trials[calls[c].record].kind == kind && outcome(c).Some?
  }

  ghost function Earlier(calls: set<int>, c: int): set<int> {
    set c' | c' in calls && c' < c
  }

  /** Every one of them is observed once, at the place given by how many came earlier. */
  lemma {:induction false} ObservedAt<O>(w: Workload, calls: seq<Call>, outcome: nat -> Option<O>, name: Text,
                                         kind: TrialKind, c: int)
    ensures var seen, all := Observed(w, calls, outcome, name, kind), Concerned(w, calls, outcome, name, kind);
      |seen| == |all|
      && (c in all ==> |Earlier(all, c)| < |seen| && Some(seen[|Earlier(all, c)|]) == outcome(c))
  {
    hide Concerned, Observed, Earlier;
    var all := Concerned(w, calls, outcome, name, kind);
    ConcernedStep(w, calls, outcome, name, kind);
    if calls != [] {
      var last := |calls| - 1;
      var before := Concerned(w, calls[..last], outcome, name, kind);
      ObservedAt(w, calls[..last], outcome, name, kind, c);
      if all == before + {last} { EarlierStep(before, last, c); }
    }
  }

  lemma ConcernedStep<O>(w: Workload, calls: seq<Call>, outcome: nat -> Option<O>, name: Text, kind: TrialKind)
    ensures var seen, all := Observed(w, calls, outcome, name, kind), Concerned(w, calls, outcome, name, kind);
      if calls == [] then seen == [] && all == {} else
      var last := |calls| - 1;
      var seen', before := Observed(w, calls[..last], outcome, name, kind),
          Concerned(w, calls[..last], outcome, name, kind);
      && (forall c :: c in before ==> c < last)
      && if last in all then outcome(last).Some? && seen == seen' + [outcome(last).value] && all == before + {last}
         else seen == seen' && all == before
  {
    if calls != [] {
      var last := |calls| - 1;
      var all, before := Concerned(w, calls, outcome, name, kind), Concerned(w, calls[..last], outcome, name, kind);
      forall c ensures c in all <==> c in before || (c == last && last in all) {}
    }
  }

  lemma EarlierStep(before: set<int>, last: int, c: int)
    requires forall c' :: c' in before ==> c' < last
    ensures Earlier(before + {last}, last) == before
    ensures c in before ==> Earlier(before + {last}, c) == Earlier(before, c)
  {
  }

  /** Aggregates exist for timing trials, and for accuracy trials when there are any. */
  predicate IsAggregated(kind: TrialKind, hasAccuracy: bool) {
    kind == Timing || (kind == Accuracy && hasAccuracy)
  }

  ghost predicate Aggregates<O>(w: Workload, hasAccuracy: bool, aggregates: map<(Text, TrialKind), seq<O>>,
                                calls: seq<Call>, outcome: nat -> Option<O>)
  {
    forall name, kind :: name in w.methods && (kind == Timing || (kind == Accuracy && hasAccuracy)) ==>
      (name, kind) in aggregates && aggregates[(name, kind)] == Observed(w, calls, outcome, name, kind)
  }

  /** The state between two records. */
  ghost predicate Progress<O>(trace: ExecutionTrace, w: Workload, i: nat, calls: seq<Call>, outcome: nat -> Option<O>)
    requires i <= |w.trials|
    reads trace
  {
    && trace.workload == w && trace.Valid() && !trace.terminated && |trace.records| == i
    && calls == CallsOf(trace.records) == Plan(w, i)
    && forall c :: 0 <= c < |calls| ==> outcome(c).Some?
  }

  /** The open record has dispatched the first j methods of its order. */
  ghost predicate Open(trace: ExecutionTrace, w: Workload, i: nat, j: nat)
    requires w.methods != [] && i < |w.trials|
    reads trace
  {
    trace.current.Some? && j <= |w.methods| && trace.current.value.dispatched == Order(w, i)[..j]
  }

  lemma CallsForStep(i: nat, order: seq<Text>, j: nat, before: seq<Call>)
    requires j < |order|
    ensures order[..j] + [order[j]] == order[..j + 1]
    ensures before + CallsFor(i, order[..j]) + [Call(i, order[j])] == before + CallsFor(i, order[..j + 1])
  {
    assert CallsFor(i, order[..j + 1]) == CallsFor(i, order[..j]) + [Call(i, order[j])];
  }

  lemma NoCalls(i: nat, order: seq<Text>, before: seq<Call>)
    ensures before + CallsFor(i, order[..0]) == before
  {
  }

  lemma CallsOfAppend(records: seq<Record>, rec: Record)
    ensures CallsOf(records + [rec]) == CallsOf(records) + CallsFor(|records|, rec.dispatched)
  {
    assert (records + [rec])[..|records|] == records;
  }

  /** A successful timing or accuracy call adds its observation to its aggregate. */
  function Aggregated<O>(aggregates: map<(Text, TrialKind), seq<O>>, hasAccuracy: bool, name: Text, kind: TrialKind,
                         observation: Option<O>): map<(Text, TrialKind), seq<O>>
    requires IsAggregated(kind, hasAccuracy) ==> (name, kind) in aggregates
  {
    if observation.Some? && IsAggregated(kind, hasAccuracy)
    then aggregates[(name, kind) := aggregates[(name, kind)] + [observation.value]]
    else aggregates
  }

  /** One more call adds its observation to its own aggregate and to no other. */
  lemma AggregatedIs<O>(w: Workload, hasAccuracy: bool, aggregates: map<(Text, TrialKind), seq<O>>, calls: seq<Call>,
                        outcome: nat -> Option<O>, i: nat, name: Text)
    requires i < |w.trials| && name in w.methods && Aggregates(w, hasAccuracy, aggregates, calls, outcome)
    ensures var kind := w.trials[i].kind;
      && (IsAggregated(kind, hasAccuracy) ==> (name, kind) in aggregates)
      && Aggregates(w, hasAccuracy, Aggregated(aggregates, hasAccuracy, name, kind, outcome(|calls|)),
                    calls + [Call(i, name)], outcome)
  {
    assert (calls + [Call(i, name)])[..|calls|] == calls;
  }

  /** The dispatches of one record: announce, invoke, aggregate, until an adapter fails. */
  method RunRecord<O>(trace: ExecutionTrace, w: Workload, hasAccuracy: bool, i: nat, outcome: nat -> Option<O>,
                      calls0: seq<Call>, aggregates0: map<(Text, TrialKind), seq<O>>)
    returns (ok: bool, calls: seq<Call>, aggregates: map<(Text, TrialKind), seq<O>>)
    requires i < |w.trials| && Progress(trace, w, i, calls0, outcome) && trace.current == None
    requires Aggregates(w, hasAccuracy, aggregates0, calls0, outcome)
    requires w.trials[i].kind == Accuracy ==> hasAccuracy
    modifies trace
    ensures trace.workload == w && trace.Valid() && trace.records == old(trace.records)
    ensures trace.terminated == old(trace.terminated) && trace.current.Some?
    ensures calls == calls0 + CallsFor(i, trace.current.value.dispatched) && |calls0| <= |calls|
    ensures ok ==> trace.current.value.dispatched == Order(w, i)
    ensures ok ==> forall c :: |calls0| <= c < |calls| ==> outcome(c).Some?
    ensures !ok ==> |calls| > |calls0| && outcome(|calls| - 1).None?
    ensures !ok ==> forall c :: |calls0| <= c < |calls| - 1 ==> outcome(c).Some?
    ensures Aggregates(w, hasAccuracy, aggregates, calls, outcome)
  {
    hide Aggregates, CallsFor, CallsOf, Plan, IsTrace, Failed, Order, Aggregated;
    var trial := w.trials[i];
    var begun := trace.BeginRecord(trial);
    assert begun.Ok?;
    var ordered := ExecutionOrder(w.methods, trial.seed);
    var order := ordered.value;
    OrderIs(w, i, order);
    calls, aggregates := calls0, aggregates0;
    NoCalls(i, order, calls0);
    for j := 0 to |order|
      invariant trace.workload == w && trace.Valid() && trace.records == old(trace.records)
      invariant trace.terminated == old(trace.terminated) && Open(trace, w, i, j)
      invariant calls == calls0 + CallsFor(i, order[..j])
      invariant forall c :: |calls0| <= c < |calls| ==> outcome(c).Some?
      invariant Aggregates(w, hasAccuracy, aggregates, calls, outcome)
    {
      CallsForStep(i, order, j, calls0);
      assert order[..j + 1] <= order;
      var appended := trace.AppendDispatch(order[j]);
      assert appended.Ok?;
      var observation := outcome(|calls|);
      assert order[j] in w.methods;
      AggregatedIs(w, hasAccuracy, aggregates, calls, outcome, i, order[j]);
      aggregates := Aggregated(aggregates, hasAccuracy, order[j], trial.kind, observation);
      calls := calls + [Call(i, order[j])];
      if observation.None? {
        return false, calls, aggregates;
      }
    }
    assert order[..|order|] == order;
    ok := true;
  }

  lemma {:induction false} PlanGrows(w: Workload, i: nat, n: nat)
    requires w.methods != [] && i <= n <= |w.trials|
    ensures Plan(w, i) <= Plan(w, n)
  {
    if i < n { PlanGrows(w, i, n - 1); }
  }

  lemma CallsForPrefix(i: nat, some: seq<Text>, all: seq<Text>)
    requires some <= all
    ensures CallsFor(i, some) <= CallsFor(i, all)
  {
  }

  lemma PlanStart(w: Workload)
    requires w.methods != []
    ensures Plan(w, 0) == [] == CallsOf([])
  {
  }

  lemma PlanStep(w: Workload, i: nat)
    requires w.methods != [] && i < |w.trials|
    ensures Plan(w, i + 1) == Plan(w, i) + CallsFor(i, Order(w, i))
  {
  }

  lemma ExtendPrefix(front: seq<Call>, some: seq<Call>, all: seq<Call>, whole: seq<Call>)
    requires some <= all && front + all <= whole
    ensures front + some <= whole
  {
    assert (front + all)[..|front + some|] == front + some;
  }

  /** A failed call inside record i ends a prefix of the plan. */
  lemma PartialPlan(w: Workload, i: nat, done: seq<Text>)
    requires w.methods != [] && i < |w.trials| && done <= Order(w, i)
    ensures Plan(w, i) + CallsFor(i, done) <= Plan(w, |w.trials|)
  {
    hide Plan, CallsFor, Order;
    CallsForPrefix(i, done, Order(w, i));
    PlanGrows(w, i + 1, |w.trials|);
    PlanStep(w, i);
    ExtendPrefix(Plan(w, i), CallsFor(i, done), CallsFor(i, Order(w, i)), Plan(w, |w.trials|));
  }

  /** The initial aggregates: one empty list per method and aggregated kind. */
  method EmptyAggregates<O>(w: Workload, hasAccuracy: bool, ghost outcome: nat -> Option<O>)
    returns (aggregates: map<(Text, TrialKind), seq<O>>)
    ensures Aggregates(w, hasAccuracy, aggregates, [], outcome)
  {
    aggregates := map[];
    for j := 0 to |w.methods|
      invariant forall t, kind :: 0 <= t < j && (kind == Timing || (kind == Accuracy && hasAccuracy)) ==>
                  (w.methods[t], kind) in aggregates && aggregates[(w.methods[t], kind)] == []
    {
      aggregates := aggregates[(w.methods[j], Timing) := []];
      if hasAccuracy {
        aggregates := aggregates[(w.methods[j], Accuracy) := []];
      }
    }
  }

  /**
   The whole loop.  `outcome(c)` is what the c-th adapter invocation yields, None when it
   throws.  The trace stands for exactly the calls made, the calls are a prefix of the
   plan up to and including the first failing one, and a failure ends the trace.
   */
  method RunTrials<O>(w: Workload, hasAccuracy: bool, outcome: nat -> Option<O>)
    returns (ok: bool, trace: ExecutionTrace, calls: seq<Call>, aggregates: map<(Text, TrialKind), seq<O>>)
    requires w.Valid() && forall i :: 0 <= i < |w.trials| && w.trials[i].kind == Accuracy ==> hasAccuracy
    ensures fresh(trace) && trace.Valid() && trace.workload == w && trace.current == None
    ensures CallsOf(trace.records) == calls <= Plan(w, |w.trials|)
    ensures ok ==> !trace.terminated && |trace.records| == |w.trials| && calls == Plan(w, |w.trials|)
    ensures ok ==> forall c :: 0 <= c < |calls| ==> outcome(c).Some?
    ensures !ok ==> trace.terminated && calls != [] && outcome(|calls| - 1).None?
    ensures !ok ==> forall c :: 0 <= c < |calls| - 1 ==> outcome(c).Some?
    ensures Aggregates(w, hasAccuracy, aggregates, calls, outcome)
  {
    hide Aggregates, IsTrace, Order, CallsFor, CallsOf, Plan, Failed;
    PlanStart(w);
    trace := new ExecutionTrace(w);
    calls := [];
    aggregates := EmptyAggregates(w, hasAccuracy, outcome);
    for i := 0 to |w.trials|
      invariant fresh(trace) && Progress(trace, w, i, calls, outcome) && trace.current == None
      invariant Aggregates(w, hasAccuracy, aggregates, calls, outcome)
    {
      ghost var before, recorded := calls, trace.records;
      ok, calls, aggregates := RunRecord(trace, w, hasAccuracy, i, outcome, calls, aggregates);
      ghost var rec := trace.current.value;
      if !ok {
        var closed := trace.FailRecord();
        assert closed.Ok?;
        CallsOfAppend(recorded, rec.(status := AdapterFailure));
        PartialPlan(w, i, rec.dispatched);
        return;
      }
      var closed := trace.CompleteRecord();
      assert closed.Ok?;
      CallsOfAppend(recorded, rec);
      PlanStep(w, i);
    }
    ok := true;
  }

  // ------------------------------------------------------------------ what a run amounts to

  ghost function CountKind(trials: seq<Trial>, kind: TrialKind): nat {
    if trials == [] then 0 else
      var last := |trials| - 1;
      CountKind(trials[..last], kind) + if trials[last].kind == kind then 1 else 0
  }

  lemma OrderDistinct(w: Workload, i: nat)
    requires w.Valid() && i < |w.trials|
    ensures forall a, b :: 0 <= a < b < |w.methods| ==> Order(w, i)[a] != Order(w, i)[b]
    ensures forall name :: name in w.methods <==> name in Order(w, i)
  {
    var offset := w.trials[i].seed % |w.methods|;
    assert w.methods == w.methods[..offset] + w.methods[offset..];
  }

  /** The first j calls of a record contribute one observation to the aggregates of their methods. */
  lemma {:induction false} RecordObserved<O>(w: Workload, before: seq<Call>, i: nat, order: seq<Text>, j: nat,
                                             outcome: nat -> Option<O>, name: Text, kind: TrialKind)
    requires i < |w.trials| && j <= |order| && (forall a, b :: 0 <= a < b < |order| ==> order[a] != order[b])
    requires forall c :: 0 <= c < |before| + j ==> outcome(c).Some?
    ensures |Observed(w, before + CallsFor(i, order[..j]), outcome, name, kind)|
         == |Observed(w, before, outcome, name, kind)| + if w.trials[i].kind == kind && name in order[..j] then 1 else 0
  {
    hide Observed;
    if j == 0 {
      NoCalls(i, order, before);
    } else {
      RecordObserved(w, before, i, order, j - 1, outcome, name, kind);
      CallsForStep(i, order, j - 1, before);
      OneMoreCall(w, before + CallsFor(i, order[..j - 1]), i, order[j - 1], outcome, name, kind);
      PrefixMember(order, j, name);
    }
  }

  lemma PrefixMember(order: seq<Text>, j: nat, name: Text)
    requires 0 < j <= |order| && forall a, b :: 0 <= a < b < |order| ==> order[a] != order[b]
    ensures name in order[..j] <==> name in order[..j - 1] || name == order[j - 1]
    ensures order[j - 1] !in order[..j - 1]
  {
    assert order[..j] == order[..j - 1] + [order[j - 1]];
  }

  lemma OneMoreCall<O>(w: Workload, calls: seq<Call>, i: nat, called: Text, outcome: nat -> Option<O>, name: Text,
                       kind: TrialKind)
    requires i < |w.trials| && outcome(|calls|).Some?
    ensures |Observed(w, calls + [Call(i, called)], outcome, name, kind)|
         == |Observed(w, calls, outcome, name, kind)| + if w.trials[i].kind == kind && name == called then 1 else 0
  {
    assert (calls + [Call(i, called)])[..|calls|] == calls;
  }

  /** On a fully successful plan every method has one observation per trial of the kind. */
  lemma {:induction false} PlanObserved<O>(w: Workload, n: nat, outcome: nat -> Option<O>, name: Text, kind: TrialKind)
    requires w.Valid() && n <= |w.trials| && name in w.methods
    requires forall c :: 0 <= c < |Plan(w, n)| ==> outcome(c).Some?
    ensures |Observed(w, Plan(w, n), outcome, name, kind)| == CountKind(w.trials[..n], kind)
  {
    hide Observed, CountKind, Order, Plan, CallsFor;
    if n == 0 {
      NothingYet(w, outcome, name, kind);
    } else {
      PlanStep(w, n - 1);
      PlanObserved(w, n - 1, outcome, name, kind);
      OrderDistinct(w, n - 1);
      var order := Order(w, n - 1);
      assert order[..|order|] == order;
      RecordObserved(w, Plan(w, n - 1), n - 1, order, |order|, outcome, name, kind);
      CountStep(w.trials, n - 1, kind);
    }
  }

  lemma NothingYet<O>(w: Workload, outcome: nat -> Option<O>, name: Text, kind: TrialKind)
    requires w.methods != []
    ensures Observed(w, Plan(w, 0), outcome, name, kind) == [] && CountKind(w.trials[..0], kind) == 0
  {
  }

  lemma CountStep(trials: seq<Trial>, n: nat, kind: TrialKind)
    requires n < |trials|
    ensures CountKind(trials[..n + 1], kind) == CountKind(trials[..n], kind) + if trials[n].kind == kind then 1 else 0
  {
    assert trials[..n + 1][..n] == trials[..n];
  }

  /** One warm-up, then the timing, accuracy and correctness trials, each made from its kind and index. */
  function Records(timing: nat, accuracy: nat, correctness: nat, make: (TrialKind, nat) -> Trial): seq<Trial> {
    [make(Warmup, 0)] + OfKind(Timing, timing, make) + OfKind(Accuracy, accuracy, make)
        + OfKind(Correctness, correctness, make)
  }

  function OfKind(kind: TrialKind, n: nat, make: (TrialKind, nat) -> Trial): seq<Trial> {
    seq(n, i requires 0 <= i < n => make(kind, i))
  }

  ghost predicate MakesKinds(make: (TrialKind, nat) -> Trial) {
    forall kind, i :: make(kind, i).kind == kind
  }

  lemma {:induction false} CountConcat(a: seq<Trial>, b: seq<Trial>, kind: TrialKind)
    ensures CountKind(a + b, kind) == CountKind(a, kind) + CountKind(b, kind)
  {
    if b == [] {
      assert a + b == a;
    } else {
      assert (a + b)[..|a + b| - 1] == a + b[..|b| - 1];
      CountConcat(a, b[..|b| - 1], kind);
    }
  }

  lemma {:induction false} CountOfKind(of: TrialKind, n: nat, make: (TrialKind, nat) -> Trial, kind: TrialKind)
    requires MakesKinds(make)
    ensures CountKind(OfKind(of, n, make), kind) == if of == kind then n else 0
  {
    if n > 0 {
      CountOfKind(of, n - 1, make, kind);
      assert OfKind(of, n, make)[..n - 1] == OfKind(of, n - 1, make);
    }
  }

  /**
   A successful run gives every timing aggregate exactly its timing trials,
   and every accuracy aggregate its accuracy trials.
   */
  lemma SuccessCounts<O>(w: Workload, timing: nat, accuracy: nat, correctness: nat, make: (TrialKind, nat) -> Trial,
                         aggregates: map<(Text, TrialKind), seq<O>>, outcome: nat -> Option<O>,
                         name: Text, kind: TrialKind)
    requires MakesKinds(make) && w.Valid() && w.trials == Records(timing, accuracy, correctness, make)
      && name in w.methods
    requires kind == Timing || (kind == Accuracy && accuracy != 0)
    requires Aggregates(w, accuracy != 0, aggregates, Plan(w, |w.trials|), outcome)
    requires forall c :: 0 <= c < |Plan(w, |w.trials|)| ==> outcome(c).Some?
    ensures (name, kind) in aggregates && |aggregates[(name, kind)]| == if kind == Timing then timing else accuracy
  {
    PlanObserved(w, |w.trials|, outcome, name, kind);
    assert w.trials[..|w.trials|] == w.trials;
    RecordsCount(timing, accuracy, correctness, make, kind);
  }

  lemma RecordsCount(timing: nat, accuracy: nat, correctness: nat, make: (TrialKind, nat) -> Trial, kind: TrialKind)
    requires kind == Timing || kind == Accuracy
    requires MakesKinds(make)
    ensures CountKind(Records(timing, accuracy, correctness, make), kind) == if kind == Timing then timing else accuracy
  {
    var w, t, a, c := [make(Warmup, 0)], OfKind(Timing, timing, make),
                      OfKind(Accuracy, accuracy, make), OfKind(Correctness, correctness, make);
    CountConcat(w + t + a, c, kind);
    CountConcat(w + t, a, kind);
    CountConcat(w, t, kind);
    CountOfKind(Timing, timing, make, kind);
    CountOfKind(Accuracy, accuracy, make, kind);
    CountOfKind(Correctness, correctness, make, kind);
    assert w[..0] == [];
  }
}
