/**
 The bottom structure as an object, the static signature it must agree with
 (`src/core/minhash.cpp`), the insert/delete probe batch with its guarded rebuilds
 (`benchmarks/dynamic_probe_workload.cpp`), and the protocol run over two structures
 (`src/protocol/dynamic_piccard.cpp`).
 */
module ProbeWorkload {
  import opened Wrappers
  import opened Num
  import opened BottomStructures
  import opened Bfv
  import opened Encoding
  import opened Protocol

  const MAX_64: nat := 0xFFFF_FFFF_FFFF_FFFF

  /** Ranks are 64-bit words. */
  ghost predicate WordHashes(cfg: Config) {
    forall i, e :: cfg.h(i, e) <= MAX_64
  }

  // ------------------------------------------------------------------ the object

  lemma InsertNonEmpty(row: seq<nat>, w: nat, d: nat)
    requires d > 0
    ensures InsertRow(row, w, d) != []
  {
  }

  class BottomStructure {
    const cfg: Config
    const seed: nat
    var bottom: seq<seq<nat>>
    var requiresRebuild: bool

    ghost function Abs(): State
      reads this
    {
      State(bottom, requiresRebuild)
    }

    /** A usable structure has no empty row. */
    ghost predicate Valid()
      reads this
    {
      cfg.Valid() && |bottom| == cfg.k && (!requiresRebuild ==> NoEmptyRow(Abs()))
    }

    constructor (cfg: Config, seed: nat)
      requires cfg.Valid()
      ensures Valid() && this.cfg == cfg && this.seed == seed
      ensures requiresRebuild && bottom == seq(cfg.k, i => [])
    {
      this.cfg, this.seed := cfg, seed;
      bottom, requiresRebuild := seq(cfg.k, i => []), true;
    }

    method InsertIntoSorted(i: nat, w: nat)
      requires |bottom| == cfg.k && i < cfg.k
      modifies this
      ensures bottom == old(bottom)[i := InsertRow(old(bottom)[i], w, cfg.d)] && requiresRebuild == old(requiresRebuild)
    {
      var arr := bottom[i];
      var pos := LowerBound(arr, w);
      if pos < |arr| && arr[pos] == w {
        return;
      }
      if |arr| < cfg.d || (|arr| > 0 && w < arr[|arr| - 1]) {
        arr := arr[..pos] + [w] + arr[pos..];
        if |arr| > cfg.d {
          arr := arr[..|arr| - 1];
        }
        bottom := bottom[i := arr];
      }
    }

    method InsertHashes(elem: nat)
      requires |bottom| == cfg.k
      modifies this
      ensures Abs() == InsertState(cfg, old(Abs()), elem)
    {
      for i := 0 to cfg.k
        invariant |bottom| == cfg.k && requiresRebuild == old(requiresRebuild)
        invariant forall j :: 0 <= j < i ==> bottom[j] == InsertRow(old(bottom)[j], cfg.h(j, elem), cfg.d)
        invariant forall j :: i <= j < cfg.k ==> bottom[j] == old(bottom)[j]
      {
        InsertIntoSorted(i, cfg.h(i, elem));
      }
      assert bottom == InsertState(cfg, old(Abs()), elem).bottom;
    }

    /** Algorithm 3. */
    method Initialize(elems: seq<nat>) returns (r: Result<()>)
      requires Valid()
      modifies this
      ensures Valid() && (elems == [] <==> r.Err?)
      ensures elems == [] ==> Abs() == old(Abs())
      ensures elems != [] ==> Abs() == InitState(cfg, elems)
    {
      if elems == [] {
        return Err(InvalidArgument("Set must not be empty"));
      }
      bottom := seq(cfg.k, i => []);
      for t := 0 to |elems|
        invariant |bottom| == cfg.k && bottom == InitState(cfg, elems[..t]).bottom
      {
        assert elems[..t + 1][..t] == elems[..t];
        InsertHashes(elems[t]);
        assert bottom == InitState(cfg, elems[..t + 1]).bottom;
      }
      requiresRebuild := false;
      assert elems[..|elems|] == elems;
      InitializeKnows(cfg, elems);
      return Ok(());
    }

    /** Algorithm 4. */
    method Insert(elem: nat) returns (r: Result<()>)
      requires Valid()
      modifies this
      ensures Valid() && (r.Err? <==> old(requiresRebuild))
      ensures Abs() == if old(requiresRebuild) then old(Abs()) else InsertState(cfg, old(Abs()), elem)
    {
      if requiresRebuild {
        return Err(LogicError("BottomStructure requires full nonempty Initialize()"));
      }
      InsertHashes(elem);
      forall i | 0 <= i < cfg.k ensures bottom[i] != [] {
        InsertNonEmpty(old(bottom)[i], cfg.h(i, elem), cfg.d);
      }
      return Ok(());
    }

    method Erase(i: nat, w: nat)
      requires |bottom| == cfg.k && i < cfg.k
      modifies this
      ensures bottom == old(bottom)[i := DeleteRow(old(bottom)[i], w)] && requiresRebuild == old(requiresRebuild)
    {
      var row := bottom[i];
      var pos := LowerBound(row, w);
      if pos < |row| && row[pos] == w {
        bottom := bottom[i := row[..pos] + row[pos + 1..]];
      }
    }

    /** Algorithm 5. */
    method Delete(elem: nat) returns (r: Result<()>)
      requires Valid()
      modifies this
      ensures Valid() && (r.Err? <==> old(requiresRebuild))
      ensures Abs() == if old(requiresRebuild) then old(Abs()) else DeleteState(cfg, old(Abs()), elem)
    {
      hide DeleteRow;
      if requiresRebuild {
        return Err(LogicError("BottomStructure requires full nonempty Initialize()"));
      }
      for i := 0 to cfg.k
        invariant |bottom| == cfg.k
        invariant forall j :: 0 <= j < i ==> bottom[j] == DeleteRow(old(bottom)[j], cfg.h(j, elem))
        invariant forall j :: i <= j < cfg.k ==> bottom[j] == old(bottom)[j]
        invariant requiresRebuild <==> [] in bottom[..i]
      {
        Erase(i, cfg.h(i, elem));
        assert bottom[..i + 1] == bottom[..i] + [bottom[i]];
        if bottom[i] == [] {
          requiresRebuild := true;
        }
      }
      assert bottom == DeleteState(cfg, old(Abs()), elem).bottom;
      assert bottom[..cfg.k] == bottom;
      return Ok(());
    }

    method GetSignature() returns (r: Result<seq<nat>>)
      requires Valid()
      ensures r.Err? <==> requiresRebuild
      ensures r.Err? ==> r.error.LogicError?
      ensures r.Ok? ==> r.value == SignatureOf(Abs())
    {
      if requiresRebuild {
        return Err(LogicError("BottomStructure requires full nonempty Initialize()"));
      }
      return Ok(seq(cfg.k, i requires 0 <= i < cfg.k reads this requires Valid() && !requiresRebuild => bottom[i][0]));
    }
  }

  // ------------------------------------------------------------------ the probe batch

  /** Probe elements base+lo .. base+hi-1. */
  function Probes(base: nat, lo: nat, hi: nat): (s: seq<nat>)
    requires lo <= hi
  {
    seq(hi - lo, i requires 0 <= i < hi - lo => base + lo + i)
  }

  /** The members still in the set when probes 0..i-1 are gone. */
  ghost function Members(owner: seq<nat>, base: nat, i: nat, n: nat): set<nat>
    requires i <= n
  {
    Elems(owner + Probes(base, i, n))
  }

  function Inserted(cfg: Config, st: State, base: nat, t: nat): (r: State)
    requires |st.bottom| == cfg.k
    ensures |r.bottom| == cfg.k && r.armed == st.armed
  {
    if t == 0 then st else InsertState(cfg, Inserted(cfg, st, base, t - 1), base + t - 1)
  }

  /** State of the delete phase: the sketch, the rebuilds so far, the deletes since the last Initialize. */
  datatype Progress = Progress(state: State, rebuilds: nat, age: nat)

  /** The guard in front of delete i: rebuild over the owner's set and the remaining probes. */
  function Guarded(cfg: Config, owner: seq<nat>, base: nat, n: nat, i: nat, pr: Progress): (r: Progress)
    requires i <= n && |pr.state.bottom| == cfg.k
    ensures |r.state.bottom| == cfg.k && !r.state.armed
  {
    if pr.state.armed then Progress(InitState(cfg, owner + Probes(base, i, n)), pr.rebuilds + 1, 0) else pr
  }

  /** The delete phase after i of its n iterations. */
  function Undo(cfg: Config, owner: seq<nat>, base: nat, n: nat, st: State, i: nat): (r: Progress)
    requires i <= n && |st.bottom| == cfg.k
    ensures |r.state.bottom| == cfg.k
  {
    if i == 0 then Progress(st, 0, 0) else
      var g := Guarded(cfg, owner, base, n, i - 1, Undo(cfg, owner, base, n, st, i - 1));
      Progress(DeleteState(cfg, g.state, base + i - 1), g.rebuilds, g.age + 1)
  }

  method InsertPhase(probe: BottomStructure, base: nat, numOps: nat)
    requires probe.Valid() && !probe.requiresRebuild
    modifies probe
    ensures probe.Valid() && probe.Abs() == Inserted(probe.cfg, old(probe.Abs()), base, numOps)
  {
    hide InsertState;
    for i := 0 to numOps
      invariant probe.Valid() && probe.Abs() == Inserted(probe.cfg, old(probe.Abs()), base, i)
    {
      var inserted := probe.Insert(base + i);
      assert inserted.Ok?;
    }
  }

  method Guard(probe: BottomStructure, owner: seq<nat>, base: nat, numOps: nat, i: nat) returns (rebuilt: bool)
    requires probe.Valid() && i < numOps
    modifies probe
    ensures probe.Valid() && rebuilt == old(probe.requiresRebuild)
    ensures probe.Abs() == if rebuilt then InitState(probe.cfg, owner + Probes(base, i, numOps)) else old(probe.Abs())
  {
    rebuilt := probe.requiresRebuild;
    if rebuilt {
      var rebuildSet := owner;
      for j := i to numOps
        invariant rebuildSet == owner + Probes(base, i, j)
      {
        assert Probes(base, i, j + 1) == Probes(base, i, j) + [base + j];
        rebuildSet := rebuildSet + [base + j];
      }
      assert rebuildSet != [];
      var initialized := probe.Initialize(rebuildSet);
      assert initialized.Ok?;
    }
  }

  method DeletePhase(probe: BottomStructure, owner: seq<nat>, base: nat, numOps: nat) returns (rebuildCount: nat)
    requires probe.Valid()
    modifies probe
    ensures probe.Valid()
    ensures var u := Undo(probe.cfg, owner, base, numOps, old(probe.Abs()), numOps);
      probe.Abs() == u.state && rebuildCount == u.rebuilds
  {
    hide InitState, DeleteState, NoEmptyRow;
    rebuildCount := 0;
    ghost var st := probe.Abs();
    for i := 0 to numOps
      invariant probe.Valid()
      invariant probe.Abs() == Undo(probe.cfg, owner, base, numOps, st, i).state
      invariant rebuildCount == Undo(probe.cfg, owner, base, numOps, st, i).rebuilds
    {
      ghost var pr := Undo(probe.cfg, owner, base, numOps, st, i);
      var rebuilt := Guard(probe, owner, base, numOps, i);
      assert probe.Abs() == Guarded(probe.cfg, owner, base, numOps, i, pr).state;
      if rebuilt { rebuildCount := rebuildCount + 1; }
      var deleted := probe.Delete(base + i);
      assert deleted.Ok?;
    }
  }

  /**
   RunProbeWorkload: on a usable structure no Insert, Delete or Initialize is ever
   refused, for any hash family, owner set and batch.
   */
  method RunProbeWorkload(probe: BottomStructure, owner: seq<nat>, base: nat, numOps: nat) returns (rebuildCount: nat)
    requires probe.Valid() && !probe.requiresRebuild
    modifies probe
    ensures probe.Valid()
    ensures var u := Undo(probe.cfg, owner, base, numOps, Inserted(probe.cfg, old(probe.Abs()), base, numOps), numOps);
      probe.Abs() == u.state && rebuildCount == u.rebuilds
  {
    InsertPhase(probe, base, numOps);
    rebuildCount := DeletePhase(probe, owner, base, numOps);
  }

  // ------------------------------------------------------------------ what the delete phase keeps

  /** Every probe is new and shares no hash with another member. */
  ghost predicate SeparateProbes(cfg: Config, owner: seq<nat>, base: nat, n: nat) {
    forall i :: 0 <= i < n ==> SeparateProbe(cfg, owner, base, n, i)
  }

  ghost predicate SeparateProbe(cfg: Config, owner: seq<nat>, base: nat, n: nat, i: nat) {
    base + i !in owner && cfg.Separate(base + i, Members(owner, base, 0, n))
  }

  /** The delete phase of a whole batch, started from a freshly initialised structure. */
  ghost function Phase(cfg: Config, owner: seq<nat>, base: nat, n: nat, i: nat): (r: Progress)
    requires i <= n
    ensures |r.state.bottom| == cfg.k
  {
    Undo(cfg, owner, base, n, Inserted(cfg, InitState(cfg, owner), base, n), i)
  }

  /** The same, after the guard of iteration i. */
  ghost function PhaseGuarded(cfg: Config, owner: seq<nat>, base: nat, n: nat, i: nat): (r: Progress)
    requires i < n
    ensures |r.state.bottom| == cfg.k
  {
    Guarded(cfg, owner, base, n, i, Phase(cfg, owner, base, n, i))
  }

  /** Each row lists the smallest hashes of the members, at most d of them. */
  ghost predicate RowsArePrefixes(cfg: Config, st: State, members: set<nat>) {
    |st.bottom| == cfg.k && forall j :: 0 <= j < cfg.k ==>
      IsPrefix(st.bottom[j], cfg.Hashes(j, members)) && |st.bottom[j]| <= cfg.d
  }

  ghost predicate Sound(cfg: Config, pr: Progress, members: set<nat>, i: nat) {
    && RowsArePrefixes(cfg, pr.state, members)
    && KnowsAll(cfg, pr.state, members, cfg.d - pr.age)
    && (!pr.state.armed ==> NoEmptyRow(pr.state))
    && (pr.state.armed ==> !NoEmptyRow(pr.state))
    && cfg.d * pr.rebuilds + pr.age <= i
  }

  lemma {:induction false} InsertedKnows(cfg: Config, owner: seq<nat>, base: nat, t: nat)
    requires cfg.Valid() && owner != []
    ensures var r := Inserted(cfg, InitState(cfg, owner), base, t);
      KnowsAll(cfg, r, Elems(owner + Probes(base, 0, t)), cfg.d) && NoEmptyRow(r) && !r.armed
  {
    if t == 0 {
      InitializeKnows(cfg, owner);
      assert owner + Probes(base, 0, 0) == owner;
    } else {
      InsertedKnows(cfg, owner, base, t - 1);
      InsertKnowsAll(cfg, Inserted(cfg, InitState(cfg, owner), base, t - 1), Elems(owner + Probes(base, 0, t - 1)),
                     base + t - 1, cfg.d);
      assert owner + Probes(base, 0, t) == owner + Probes(base, 0, t - 1) + [base + t - 1];
      assert Elems(owner + Probes(base, 0, t)) == Elems(owner + Probes(base, 0, t - 1)) + {base + t - 1};
    }
  }

  lemma FreshIsSound(cfg: Config, pr: Progress, members: set<nat>, i: nat)
    requires KnowsAll(cfg, pr.state, members, cfg.d) && NoEmptyRow(pr.state) && !pr.state.armed
    requires pr.age == 0 && cfg.d * pr.rebuilds <= i
    ensures Sound(cfg, pr, members, i)
  {
    forall j | 0 <= j < cfg.k
      ensures IsPrefix(pr.state.bottom[j], cfg.Hashes(j, members)) && |pr.state.bottom[j]| <= cfg.d
    {
      FullKnowledgeIsPrefix(pr.state.bottom[j], cfg.Hashes(j, members), cfg.d);
    }
  }

  /** An armed flag before delete i means d deletes have been spent, so the rebuild is paid for. */
  lemma GuardKeepsSound(cfg: Config, owner: seq<nat>, base: nat, n: nat, i: nat, pr: Progress)
    requires cfg.Valid() && i < n && |pr.state.bottom| == cfg.k && Sound(cfg, pr, Members(owner, base, i, n), i)
    ensures var g := Guarded(cfg, owner, base, n, i, pr);
      Sound(cfg, g, Members(owner, base, i, n), i) && NoEmptyRow(g.state)
  {
    var members := Members(owner, base, i, n);
    if pr.state.armed {
      assert members != {} by {
        assert Probes(base, i, n)[0] == base + i;
        assert (owner + Probes(base, i, n))[|owner|] == base + i;
        assert base + i in members;
      }
      if cfg.d - pr.age >= 1 {
        KnowledgeIsNotEmpty(cfg, pr.state, members, cfg.d - pr.age);
        assert false;
      }
      var g := Guarded(cfg, owner, base, n, i, pr);
      InitializeKnows(cfg, owner + Probes(base, i, n));
      PaidFor(cfg.d, pr.rebuilds, pr.age, i);
      FreshIsSound(cfg, g, members, i);
    }
  }

  lemma PaidFor(d: nat, rebuilds: nat, age: nat, i: nat)
    requires d * rebuilds + age <= i && age >= d
    ensures d * (rebuilds + 1) <= i
  {
    assert d * (rebuilds + 1) == d * rebuilds + d;
  }

  lemma MembersDelete(owner: seq<nat>, base: nat, i: nat, n: nat)
    requires i < n && base + i !in owner
    ensures Members(owner, base, i, n) - {base + i} == Members(owner, base, i + 1, n)
  {
    assert Probes(base, i, n) == [base + i] + Probes(base, i + 1, n);
    assert base + i !in Probes(base, i + 1, n);
    assert owner + Probes(base, i, n) == owner + [base + i] + Probes(base, i + 1, n);
  }

  lemma {:induction false} MembersShrink(owner: seq<nat>, base: nat, i: nat, n: nat)
    requires i <= n
    ensures Members(owner, base, i, n) <= Members(owner, base, 0, n)
  {
    assert Probes(base, 0, n) == Probes(base, 0, i) + Probes(base, i, n);
  }

  lemma DeleteKeepsSound(cfg: Config, pr: Progress, members: set<nat>, e: nat, i: nat)
    requires cfg.Valid() && |pr.state.bottom| == cfg.k && Sound(cfg, pr, members, i) && NoEmptyRow(pr.state)
      && !pr.state.armed
    requires cfg.Separate(e, members)
    ensures Sound(cfg, Progress(DeleteState(cfg, pr.state, e), pr.rebuilds, pr.age + 1), members - {e}, i + 1)
  {
    var st := DeleteState(cfg, pr.state, e);
    DeleteKnowsAll(cfg, pr.state, members, e, cfg.d - pr.age);
    forall j | 0 <= j < cfg.k
      ensures IsPrefix(st.bottom[j], cfg.Hashes(j, members - {e})) && |st.bottom[j]| <= cfg.d
    {
      DeleteKeepsPrefix(pr.state.bottom[j], cfg.Hashes(j, members), cfg.h(j, e));
      DeleteKnows(pr.state.bottom[j], cfg.Hashes(j, members), cfg.h(j, e), cfg.d, cfg.d - pr.age);
      HashesDelete(cfg, j, members, e);
    }
  }

  lemma SeparateFromFewer(cfg: Config, e: nat, fewer: set<nat>, more: set<nat>)
    requires cfg.Separate(e, more) && fewer <= more
    ensures cfg.Separate(e, fewer)
  {
  }

  lemma UndoStep(cfg: Config, owner: seq<nat>, base: nat, n: nat, i: nat)
    requires cfg.Valid() && i < n && SeparateProbe(cfg, owner, base, n, i)
    requires Sound(cfg, Phase(cfg, owner, base, n, i), Members(owner, base, i, n), i)
    ensures Sound(cfg, PhaseGuarded(cfg, owner, base, n, i), Members(owner, base, i, n), i)
    ensures NoEmptyRow(PhaseGuarded(cfg, owner, base, n, i).state)
    ensures Sound(cfg, Phase(cfg, owner, base, n, i + 1), Members(owner, base, i + 1, n), i + 1)
  {
    hide Sound, DeleteState, NoEmptyRow, Inserted, InitState, Members;
    GuardKeepsSound(cfg, owner, base, n, i, Phase(cfg, owner, base, n, i));
    MembersShrink(owner, base, i, n);
    MembersDelete(owner, base, i, n);
    SeparateFromFewer(cfg, base + i, Members(owner, base, i, n), Members(owner, base, 0, n));
    DeleteKeepsSound(cfg, PhaseGuarded(cfg, owner, base, n, i), Members(owner, base, i, n), base + i, i);
  }

  lemma PhaseStart(cfg: Config, owner: seq<nat>, base: nat, n: nat)
    requires cfg.Valid() && owner != []
    ensures Sound(cfg, Phase(cfg, owner, base, n, 0), Members(owner, base, 0, n), 0)
  {
    InsertedKnows(cfg, owner, base, n);
    FreshIsSound(cfg, Phase(cfg, owner, base, n, 0), Members(owner, base, 0, n), 0);
  }

  lemma {:induction false} PhaseSound(cfg: Config, owner: seq<nat>, base: nat, n: nat, i: nat)
    requires cfg.Valid() && owner != [] && i <= n && SeparateProbes(cfg, owner, base, n)
    ensures Sound(cfg, Phase(cfg, owner, base, n, i), Members(owner, base, i, n), i)
  {
    hide Sound, Phase, Members, SeparateProbe;
    if i == 0 {
      PhaseStart(cfg, owner, base, n);
    } else {
      PhaseSound(cfg, owner, base, n, i - 1);
      UndoStep(cfg, owner, base, n, i - 1);
    }
  }

  /**
   At every delete, after the guard, each row is the ascending list of the smallest
   hashes of the owner's set and the remaining probes, with 1 to d entries.
   */
  lemma DeleteIteration(cfg: Config, owner: seq<nat>, base: nat, n: nat, i: nat, j: nat)
    requires cfg.Valid() && owner != [] && i < n && j < cfg.k && SeparateProbes(cfg, owner, base, n)
    ensures var row := PhaseGuarded(cfg, owner, base, n, i).state.bottom[j];
      IsPrefix(row, cfg.Hashes(j, Members(owner, base, i, n))) && 1 <= |row| <= cfg.d
  {
    hide Phase, PhaseGuarded, Members, IsPrefix;
    PhaseSound(cfg, owner, base, n, i);
    UndoStep(cfg, owner, base, n, i);
  }

  /** With separate probes every rebuild has been preceded by d deletes of its own. */
  lemma RebuildBound(cfg: Config, owner: seq<nat>, base: nat, n: nat)
    requires cfg.Valid() && owner != [] && n >= 1 && SeparateProbes(cfg, owner, base, n)
    ensures cfg.d * Phase(cfg, owner, base, n, n).rebuilds <= n - 1
  {
    hide Phase, PhaseGuarded, Members, RowsArePrefixes, KnowsAll, SeparateProbe, NoEmptyRow;
    PhaseSound(cfg, owner, base, n, n - 1);
    UndoStep(cfg, owner, base, n, n - 1);
    LastDelete(cfg, owner, base, n);
  }

  lemma LastDelete(cfg: Config, owner: seq<nat>, base: nat, n: nat)
    requires n >= 1
    ensures Phase(cfg, owner, base, n, n).rebuilds == PhaseGuarded(cfg, owner, base, n, n - 1).rebuilds
  {
  }

  // ------------------------------------------------------------------ the budget without separation

  /** The amortised bound: the rebuilds are paid for by d deletes each. */
  ghost predicate WithinBudget(cfg: Config, owner: seq<nat>, base: nat, n: nat) {
    cfg.d * Phase(cfg, owner, base, n, n).rebuilds <= n - 1
  }

  /** The owner's set has at least c distinct hashes in every row. */
  ghost predicate HashesInEveryRow(cfg: Config, owner: seq<nat>, c: nat) {
    forall j :: 0 <= j < cfg.k ==> |cfg.Hashes(j, Elems(owner))| >= c
  }

  /** Every row still has d - age entries, whatever its hashes stand for. */
  ghost predicate Funded(cfg: Config, pr: Progress, i: nat) {
    && |pr.state.bottom| == cfg.k
    && (forall j :: 0 <= j < cfg.k ==> Ascending(pr.state.bottom[j]) && |pr.state.bottom[j]| >= cfg.d - pr.age)
    && (pr.state.armed <==> !NoEmptyRow(pr.state))
    && cfg.d * pr.rebuilds + pr.age <= i
  }

  lemma MoreHashes(cfg: Config, j: nat, some: set<nat>, all: set<nat>)
    requires some <= all
    ensures |cfg.Hashes(j, some)| <= |cfg.Hashes(j, all)|
  {
    var a, b := cfg.Hashes(j, some), cfg.Hashes(j, all);
    forall w | w in a ensures w in b {
      var e :| e in some && cfg.h(j, e) == w;
      assert e in all;
    }
    assert b == a + (b - a);
    assert |a + (b - a)| == |a| + |b - a|;
  }

  /** Full knowledge of at least d hashes is a row of length d. */
  lemma FullRow(row: seq<nat>, s: set<nat>, d: nat)
    requires Knows(row, s, d, d) && |s| >= d
    ensures |row| == d
  {
    if |row| < d {
      assert s <= Elems(row);
      assert Elems(row) == s + (Elems(row) - s);
      assert |s + (Elems(row) - s)| == |s| + |Elems(row) - s|;
      ListAtLeastSet(row);
    }
  }

  lemma RichRows(cfg: Config, pr: Progress, owner: seq<nat>, members: set<nat>, i: nat)
    requires cfg.Valid() && KnowsAll(cfg, pr.state, members, cfg.d) && NoEmptyRow(pr.state) && !pr.state.armed
    requires HashesInEveryRow(cfg, owner, cfg.d) && Elems(owner) <= members
    requires pr.age == 0 && cfg.d * pr.rebuilds <= i
    ensures Funded(cfg, pr, i)
  {
    forall j | 0 <= j < cfg.k ensures Ascending(pr.state.bottom[j]) && |pr.state.bottom[j]| >= cfg.d {
      MoreHashes(cfg, j, Elems(owner), members);
      FullRow(pr.state.bottom[j], cfg.Hashes(j, members), cfg.d);
    }
  }

  lemma OwnerAmongMembers(owner: seq<nat>, more: seq<nat>)
    ensures Elems(owner) <= Elems(owner + more)
  {
  }

  lemma GuardFunded(cfg: Config, owner: seq<nat>, base: nat, n: nat, i: nat, pr: Progress)
    requires cfg.Valid() && owner != [] && i < n && HashesInEveryRow(cfg, owner, cfg.d) && Funded(cfg, pr, i)
    ensures Funded(cfg, Guarded(cfg, owner, base, n, i, pr), i) && NoEmptyRow(Guarded(cfg, owner, base, n, i, pr).state)
  {
    if pr.state.armed {
      var elems := owner + Probes(base, i, n);
      InitializeKnows(cfg, elems);
      PaidFor(cfg.d, pr.rebuilds, pr.age, i);
      OwnerAmongMembers(owner, Probes(base, i, n));
      hide InitState, KnowsAll;
      RichRows(cfg, Guarded(cfg, owner, base, n, i, pr), owner, Elems(elems), i);
    }
  }

  lemma DeleteFunded(cfg: Config, pr: Progress, e: nat, i: nat)
    requires cfg.Valid() && Funded(cfg, pr, i) && !pr.state.armed
    ensures Funded(cfg, Progress(DeleteState(cfg, pr.state, e), pr.rebuilds, pr.age + 1), i + 1)
  {
    var st := DeleteState(cfg, pr.state, e);
    forall j | 0 <= j < cfg.k ensures Ascending(st.bottom[j]) && |st.bottom[j]| >= |pr.state.bottom[j]| - 1 {
      var r, _ := DeleteCases(pr.state.bottom[j], cfg.h(j, e));
    }
  }

  lemma {:induction false} PhaseFunded(cfg: Config, owner: seq<nat>, base: nat, n: nat, i: nat)
    requires cfg.Valid() && owner != [] && i <= n && HashesInEveryRow(cfg, owner, cfg.d)
    ensures Funded(cfg, Phase(cfg, owner, base, n, i), i)
  {
    hide Funded, DeleteState, InitState, HashesInEveryRow;
    if i == 0 {
      InsertedKnows(cfg, owner, base, n);
      OwnerAmongMembers(owner, Probes(base, 0, n));
      RichRows(cfg, Phase(cfg, owner, base, n, 0), owner, Elems(owner + Probes(base, 0, n)), 0);
    } else {
      PhaseFunded(cfg, owner, base, n, i - 1);
      GuardFunded(cfg, owner, base, n, i - 1, Phase(cfg, owner, base, n, i - 1));
      DeleteFunded(cfg, PhaseGuarded(cfg, owner, base, n, i - 1), base + i - 1, i - 1);
    }
  }

  /** An owner with d distinct hashes in every row keeps the bound, however the probes collide. */
  lemma RichOwnerBound(cfg: Config, owner: seq<nat>, base: nat, n: nat)
    requires cfg.Valid() && owner != [] && n >= 1 && HashesInEveryRow(cfg, owner, cfg.d)
    ensures WithinBudget(cfg, owner, base, n)
  {
    PhaseFunded(cfg, owner, base, n, n - 1);
    GuardFunded(cfg, owner, base, n, n - 1, Phase(cfg, owner, base, n, n - 1));
    LastDelete(cfg, owner, base, n);
    hide Phase, PhaseGuarded;
  }

  /** One coordinate that hashes to the residue modulo c. */
  function Residues(c: nat, d: nat): Config
    requires c > 0
  {
    Config(1, d, (i, e) => if c == 0 then 0 else e % c)
  }

  lemma ProbeResidue(c: nat, t: nat)
    requires c > 0 && t <= c
    ensures (c + t) % c == if t < c then t else 0
  {
    if t < c { ModIs(c + t, c, 1, t); } else { ModIs(c + t, c, 2, 0); }
  }

  /** Initialising on 0..c-1, or on them and more, keeps exactly those residues when c < d. */
  lemma ResiduesInit(c: nat, d: nat, more: seq<nat>)
    requires 0 < c < d
    ensures InitState(Residues(c, d), Range(0, c) + more) == State([Range(0, c)], false)
  {
    var cfg, elems := Residues(c, d), Range(0, c) + more;
    InitRowKnows(cfg, 0, elems);
    ResidueHashes(c, d, more);
    FullKnowledgeUnique(InitRow(cfg, 0, elems), Range(0, c), cfg.Hashes(0, Elems(elems)), d);
    assert InitState(cfg, elems).bottom == [Range(0, c)];
  }

  lemma ResidueHashes(c: nat, d: nat, more: seq<nat>)
    requires 0 < c < d
    ensures Knows(Range(0, c), Residues(c, d).Hashes(0, Elems(Range(0, c) + more)), d, d)
  {
    var cfg, row, elems := Residues(c, d), Range(0, c), Range(0, c) + more;
    var s := cfg.Hashes(0, Elems(elems));
    forall x | x in row ensures x in s {
      assert x in elems;
      ModIs(x, c, 0, x);
      assert cfg.h(0, x) == x;
    }
    forall x | x in s ensures x in row {
      assert row[x] == x;
    }
  }

  /** Inserting a hash that is present changes nothing. */
  lemma PresentInsert(c: nat, d: nat, e: nat)
    requires 0 < c < d
    ensures InsertState(Residues(c, d), State([Range(0, c)], false), e) == State([Range(0, c)], false)
  {
    var row, w := Range(0, c), e % c;
    assert row[w] == w;
    PresentIsMember(row, w);
    var r := InsertState(Residues(c, d), State([row], false), e);
    assert r.bottom[0] == InsertRow(row, Residues(c, d).h(0, e), d) == row;
    assert r.bottom == [row];
  }

  lemma {:induction false} ResidueInserts(c: nat, d: nat, t: nat)
    requires 0 < c < d
    ensures Inserted(Residues(c, d), InitState(Residues(c, d), Range(0, c)), c, t) == State([Range(0, c)], false)
  {
    hide InitState, InsertState, Range, Residues;
    if t == 0 {
      ResiduesInit(c, d, []);
      assert Range(0, c) + [] == Range(0, c);
    } else {
      ResidueInserts(c, d, t - 1);
      PresentInsert(c, d, c + t - 1);
    }
  }

  lemma ResidueHash(c: nat, d: nat, t: nat)
    requires t < c
    ensures Residues(c, d).k == 1 && Residues(c, d).h(0, c + t) == t
  {
    ProbeResidue(c, t);
  }

  lemma ResidueDelete(c: nat, d: nat, t: nat)
    requires 0 < c < d && t < c
    ensures DeleteState(Residues(c, d), State([Range(t, c)], false), c + t) == State([Range(t + 1, c)], t + 1 == c)
  {
    ResidueHash(c, d, t);
    hide DeleteRow, DeleteState, Range, Residues;
    RangeStep(t, c);
    DeleteHead(Range(t, c), t, Range(t + 1, c));
    DeleteOnlyRow(Residues(c, d), Range(t, c), c + t, Range(t + 1, c));
    assert |Range(t + 1, c)| == c - (t + 1);
  }

  /** c deletes use up the c residues. */
  lemma {:induction false} ResidueDeletes(c: nat, d: nat, i: nat)
    requires 0 < c < d && i <= c
    ensures var r := Phase(Residues(c, d), Range(0, c), c, c + 1, i);
      r.state == State([Range(i, c)], i == c) && r.rebuilds == 0
  {
    hide Inserted, InitState, DeleteState;
    if i == 0 {
      ResidueInserts(c, d, c + 1);
    } else {
      ResidueDeletes(c, d, i - 1);
      ResidueDelete(c, d, i - 1);
    }
  }

  /** With c < d residues the delete after the c-th needs a rebuild that c deletes do not pay for. */
  lemma PoorOwnerFails(c: nat, d: nat)
    requires 0 < c < d
    ensures HashesInEveryRow(Residues(c, d), Range(0, c), c)
    ensures !WithinBudget(Residues(c, d), Range(0, c), c, c + 1)
  {
    ResidueDeletes(c, d, c);
    assert Phase(Residues(c, d), Range(0, c), c, c + 1, c + 1).rebuilds == 1;
    DistinctResidues(c, d);
  }

  lemma DistinctResidues(c: nat, d: nat)
    requires 0 < c < d
    ensures |Residues(c, d).Hashes(0, Elems(Range(0, c)))| >= c
  {
    var s := Residues(c, d).Hashes(0, Elems(Range(0, c)));
    ResidueHashes(c, d, []);
    assert Range(0, c) + [] == Range(0, c);
    RangeSize(0, c);
    assert Elems(Range(0, c)) <= s;
    assert s == Elems(Range(0, c)) + (s - Elems(Range(0, c)));
  }

  lemma {:induction false} RangeSize(lo: nat, hi: nat)
    requires lo <= hi
    ensures |Elems(Range(lo, hi))| == hi - lo
    decreases hi - lo
  {
    if lo < hi {
      RangeSize(lo + 1, hi);
      RangeStep(lo, hi);
      assert lo !in Range(lo + 1, hi);
      assert Elems(Range(lo, hi)) == {lo} + Elems(Range(lo + 1, hi));
    } else {
      assert Elems(Range(lo, hi)) == {};
    }
  }

  /**
   The rebuild budget is exact: c distinct owner hashes in every row guarantee the bound,
   for every hash family, owner and batch, if and only if c is at least the depth.
   */
  lemma RebuildBudget(d: nat, c: nat)
    requires d >= 1 && c >= 1
    ensures c >= d <==>
      forall cfg: Config, owner: seq<nat>, base: nat, n: nat ::
        cfg.Valid() && cfg.d == d && owner != [] && n >= 1 && HashesInEveryRow(cfg, owner, c) ==>
          WithinBudget(cfg, owner, base, n)
  {
    if c >= d {
      forall cfg: Config, owner: seq<nat>, base: nat, n: nat
        | cfg.Valid() && cfg.d == d && owner != [] && n >= 1 && HashesInEveryRow(cfg, owner, c)
        ensures WithinBudget(cfg, owner, base, n)
      {
        RichOwnerBound(cfg, owner, base, n);
      }
    } else {
      PoorOwnerFails(c, d);
      hide WithinBudget, HashesInEveryRow;
      assert Residues(c, d).Valid() && Range(0, c) != [];
    }
  }

  /** If the batch ends unarmed, the sketch again signs for exactly the owner's set. */
  lemma ProbeRestoresSignature(cfg: Config, owner: seq<nat>, base: nat, n: nat)
    requires cfg.Valid() && owner != [] && SeparateProbes(cfg, owner, base, n)
    requires !Phase(cfg, owner, base, n, n).state.armed
    ensures var end := Phase(cfg, owner, base, n, n).state;
      NoEmptyRow(end) && IsSignature(cfg, SignatureOf(end), Elems(owner))
  {
    PhaseSound(cfg, owner, base, n, n);
    var end := Phase(cfg, owner, base, n, n).state;
    assert owner + Probes(base, n, n) == owner;
    forall j | 0 <= j < cfg.k ensures IsLeast(SignatureOf(end)[j], cfg.Hashes(j, Elems(owner))) {
      PrefixHeadIsLeast(end.bottom[j], cfg.Hashes(j, Elems(owner)));
    }
  }

  lemma PrefixHeadIsLeast(row: seq<nat>, s: set<nat>)
    requires IsPrefix(row, s) && row != []
    ensures IsLeast(row[0], s)
  {
    HeadIsLeast(row, s, |row|, |row|);
  }

  /** One coordinate, every hash 0. */
  function Colliding(d: nat): Config {
    Config(1, d, (i, e) => 0)
  }

  /** The extreme: with one constant hash every delete but the first needs a rebuild. */
  lemma ConstantHashRebuilds(d: nat, n: nat)
    requires d >= 2 && n >= 2
    ensures Phase(Colliding(d), [0], 1, n, n).rebuilds == n - 1
    ensures !WithinBudget(Colliding(d), [0], 1, n)
  {
    CollidingProbes(d, n, n);
    MulMono(2, d, n - 1);
  }

  lemma {:induction false} CollidingProbes(d: nat, n: nat, i: nat)
    requires d > 0 && i <= n
    ensures var cfg := Colliding(d);
      var r := Undo(cfg, [0], 1, n, Inserted(cfg, InitState(cfg, [0]), 1, n), i);
      r.state == (if i == 0 then State([[0]], false) else State([[]], true))
      && r.rebuilds == if i <= 1 then 0 else i - 1
  {
    var cfg := Colliding(d);
    if i == 0 {
      CollidingInserts(d, n);
    } else {
      hide Inserted, InitState, DeleteState;
      CollidingProbes(d, n, i - 1);
      CollidingInit(d, [0] + Probes(1, i - 1, n));
      CollidingDelete(d, i);
    }
  }

  lemma CollidingDelete(d: nat, e: nat)
    ensures DeleteState(Colliding(d), State([[0]], false), e) == State([[]], true)
  {
    DeleteHead([0], 0, []);
    assert DeleteState(Colliding(d), State([[0]], false), e).bottom == [[]];
  }

  lemma {:induction false} CollidingRow(d: nat, elems: seq<nat>)
    requires d > 0 && elems != []
    ensures InitRow(Colliding(d), 0, elems) == [0]
  {
    var last := |elems| - 1;
    if last > 0 { CollidingRow(d, elems[..last]); }
    assert LowerBound([0], 0) == 0 && LowerBound([], 0) == 0;
  }

  lemma CollidingInit(d: nat, elems: seq<nat>)
    requires d > 0 && elems != []
    ensures InitState(Colliding(d), elems) == State([[0]], false)
  {
    CollidingRow(d, elems);
    assert InitState(Colliding(d), elems).bottom == [[0]];
  }

  lemma {:induction false} CollidingInserts(d: nat, t: nat)
    requires d > 0
    ensures var cfg := Colliding(d);
      Inserted(cfg, InitState(cfg, [0]), 1, t) == State([[0]], false)
  {
    var cfg := Colliding(d);
    if t == 0 {
      CollidingInit(d, [0]);
    } else {
      CollidingInserts(d, t - 1);
      assert LowerBound([0], 0) == 0 && InsertRow([0], 0, d) == [0];
      var r := InsertState(cfg, State([[0]], false), t);
      assert r.bottom[0] == InsertRow([0], cfg.h(0, t), d);
      assert r.bottom == [[0]];
    }
  }

  // ------------------------------------------------------------------ the static signature

  /** The running minimum of coordinate i over the first elements: MAX_64 until something smaller is seen. */
  ghost predicate LeastSoFar(cfg: Config, i: nat, least: nat, seen: seq<nat>) {
    && least <= MAX_64
    && (forall e :: e in seen ==> least <= cfg.h(i, e))
    && (least == MAX_64 || exists e :: e in seen && least == cfg.h(i, e))
  }

  method LowerAll(cfg: Config, signature: seq<nat>, elem: nat, ghost seen: seq<nat>) returns (lowered: seq<nat>)
    requires |signature| == cfg.k && forall i :: 0 <= i < cfg.k ==> LeastSoFar(cfg, i, signature[i], seen)
    ensures |lowered| == cfg.k && forall i :: 0 <= i < cfg.k ==> LeastSoFar(cfg, i, lowered[i], seen + [elem])
  {
    lowered := signature;
    for i := 0 to cfg.k
      invariant |lowered| == cfg.k
      invariant forall j :: 0 <= j < i ==> LeastSoFar(cfg, j, lowered[j], seen + [elem])
      invariant forall j :: i <= j < cfg.k ==> lowered[j] == signature[j]
    {
      var h := cfg.h(i, elem);
      LowerOne(cfg, i, signature[i], elem, seen);
      lowered := lowered[i := if h < lowered[i] then h else lowered[i]];
    }
  }

  lemma LowerOne(cfg: Config, i: nat, least: nat, elem: nat, seen: seq<nat>)
    requires LeastSoFar(cfg, i, least, seen)
    ensures LeastSoFar(cfg, i, if cfg.h(i, elem) < least then cfg.h(i, elem) else least, seen + [elem])
  {
    assert elem in seen + [elem];
    if least != MAX_64 {
      var e :| e in seen && least == cfg.h(i, e);
      assert e in seen + [elem];
    }
  }

  /** MinHasher::ComputeSignature: the least hash of every coordinate. */
  method ComputeSignature(cfg: Config, elems: seq<nat>) returns (r: Result<seq<nat>>)
    requires cfg.Valid() && WordHashes(cfg)
    ensures r.Err? <==> elems == []
    ensures r.Ok? ==> IsSignature(cfg, r.value, Elems(elems))
  {
    if elems == [] {
      return Err(InvalidArgument("Set must not be empty"));
    }
    var signature: seq<nat> := seq(cfg.k, i => MAX_64);
    for t := 0 to |elems|
      invariant |signature| == cfg.k
      invariant forall i :: 0 <= i < cfg.k ==> LeastSoFar(cfg, i, signature[i], elems[..t])
    {
      signature := LowerAll(cfg, signature, elems[t], elems[..t]);
      assert elems[..t + 1] == elems[..t] + [elems[t]];
    }
    assert elems[..|elems|] == elems;
    forall i | 0 <= i < cfg.k ensures IsLeast(signature[i], cfg.Hashes(i, Elems(elems))) {
      LeastOfAll(cfg, i, signature[i], elems);
    }
    return Ok(signature);
  }

  lemma LeastOfAll(cfg: Config, i: nat, least: nat, elems: seq<nat>)
    requires WordHashes(cfg) && elems != [] && LeastSoFar(cfg, i, least, elems)
    ensures IsLeast(least, cfg.Hashes(i, Elems(elems)))
  {
    var e := elems[0];
    if least != MAX_64 {
      e :| e in elems && least == cfg.h(i, e);
    }
    assert least <= cfg.h(i, e) <= MAX_64;
    assert e in Elems(elems);
  }

  /**
   A structure that has been initialised and has since taken fewer than d deletes signs
   exactly like the static hasher on its current members, in whatever order they are listed.
   */
  lemma DynamicSignsLikeStatic(cfg: Config, start: seq<nat>, ops: seq<Op>, members: seq<nat>, hashed: seq<nat>)
    requires cfg.Valid() && Admissible(cfg, Elems(start), ops) && Deletes(ops) < cfg.d
    requires Elems(members) == SetAfter(Elems(start), ops) && IsSignature(cfg, hashed, Elems(members))
    ensures Faithful(cfg, start, ops) && SignatureOf(ApplyOps(cfg, InitState(cfg, start), ops).value) == hashed
  {
    FewDeletesFaithful(cfg, start, ops);
    FaithfulSignature(cfg, start, ops, hashed);
  }

  // ------------------------------------------------------------------ the dynamic protocol

  /** The first half of DynamicPiccard::Encrypt: foreign hash seeds are refused before the flag is looked at. */
  method CurrentSignature(hashSeed: nat, bs: BottomStructure) returns (r: Result<seq<nat>>)
    requires bs.Valid()
    ensures bs.seed != hashSeed ==> r.Err? && r.error.InvalidArgument?
    ensures bs.seed == hashSeed && bs.requiresRebuild ==> r.Err? && r.error.LogicError?
    ensures bs.seed == hashSeed && !bs.requiresRebuild ==> r == Ok(SignatureOf(bs.Abs()))
  {
    if bs.seed != hashSeed {
      return Err(InvalidArgument("MinHash signatures from different CRS are not comparable"));
    }
    r := bs.GetSignature();
  }

  /** DynamicPiccard::Run: the match count of the two current signatures. */
  method RunDynamic(params: PiccardParams, hashSeed: nat, ctx: Context, x: BottomStructure, y: BottomStructure)
    returns (r: Result<JaccardResult>)
    requires params.DerivedOneHot() && Realized(params, ctx) && x.Valid() && y.Valid()
    requires x.cfg.k == params.k && y.cfg.k == params.k
    ensures r.Ok? <==> x.seed == hashSeed && y.seed == hashSeed && !x.requiresRebuild && !y.requiresRebuild
    ensures r.Ok? ==> r.value.matchCount == MatchCount(SignatureOf(x.Abs()), SignatureOf(y.Abs()), params.m)
    ensures r.Ok? ==> r.value.Estimates(params.k, params.m)
  {
    var sx := CurrentSignature(hashSeed, x);
    var sigX :- sx;
    var sy := CurrentSignature(hashSeed, y);
    var sigY :- sy;
    r := RunPiccard(params, ctx, sigX, sigY);
  }
}
