/**
 The noise sweep's summary (`benchmarks/bench_noise.cpp`): rows are folded into cells,
 and per circuit and ring dimension the cheapest feasible cell is kept.
 */
module NoiseSelection {
  import opened Wrappers

  datatype Key = Key(circuit: string, ringDim: nat, depth: nat, sms: nat) {
    function InGroup(): Group {
      Group(circuit, ringDim)
    }
  }

  datatype Group = Group(circuit: string, ringDim: nat)

  /** One measured input pattern; `ok` is false when the measurement itself failed. */
  datatype Row = Row(
    key: Key, ok: bool, noise: real, logDelta: real, logQ: real,
    decryptOk: bool, ringGrew: bool, saturated: bool)

  datatype Cell = Cell(
    worstNoise: real, logDelta: real, logQ: real,
    allDecryptOk: bool, ringGrew: bool, saturated: bool)

  const NEW_CELL := Cell(-1.0, 0.0, 0.0, true, false, false)

  function Max(a: real, b: real): real {
    if a < b then b else a
  }

  function Fold(cell: Cell, row: Row): Cell {
    Cell(Max(cell.worstNoise, row.noise), row.logDelta, row.logQ, cell.allDecryptOk && row.decryptOk,
         cell.ringGrew || row.ringGrew, cell.saturated || row.saturated)
  }

  /** Measured rows of one cell. */
  function RowsOf(rows: seq<Row>, key: Key): seq<Row> {
    if rows == [] then [] else
      var last := rows[|rows| - 1];
      var front := RowsOf(rows[..|rows| - 1], key);
      if last.ok && last.key == key then front + [last] else front
  }

  function FoldAll(rows: seq<Row>): Cell {
    if rows == [] then NEW_CELL else Fold(FoldAll(rows[..|rows| - 1]), rows[|rows| - 1])
  }

  /** The map holds a cell for exactly the keys that were measured, each the fold of its rows in order. */
  ghost predicate AreCells(cells: map<Key, Cell>, rows: seq<Row>) {
    && (forall key :: key in cells <==> RowsOf(rows, key) != [])
    && (forall key :: key in cells ==> cells[key] == FoldAll(RowsOf(rows, key)))
  }

  /** Row i is a successful measurement of the key. */
  ghost predicate Measures(rows: seq<Row>, key: Key, i: int) {
    0 <= i < |rows| && rows[i].ok && rows[i].key == key
  }

  ghost predicate Measured(rows: seq<Row>, key: Key) {
    exists i :: Measures(rows, key, i)
  }

  ghost predicate LastOf(rows: seq<Row>, key: Key, i: int) {
    Measures(rows, key, i) && forall j :: i < j < |rows| ==> !Measures(rows, key, j)
  }

  /** The largest measured noise of the key, or the initial -1. */
  ghost predicate IsWorst(rows: seq<Row>, key: Key, worst: real) {
    && worst >= -1.0 && (forall j :: Measures(rows, key, j) ==> rows[j].noise <= worst)
    && (worst == -1.0 || exists j :: Measures(rows, key, j) && rows[j].noise == worst)
  }

  /** What a cell says about the rows of its key: the sizes of the last one, and of all of them the worst. */
  ghost predicate IsCell(rows: seq<Row>, key: Key, cell: Cell) {
    && (exists i :: LastOf(rows, key, i) && cell.logQ == rows[i].logQ && cell.logDelta == rows[i].logDelta)
    && IsWorst(rows, key, cell.worstNoise)
    && HasFlags(rows, key, cell)
  }

  ghost predicate HasFlags(rows: seq<Row>, key: Key, cell: Cell) {
    && (cell.allDecryptOk <==> forall j :: Measures(rows, key, j) ==> rows[j].decryptOk)
    && (cell.ringGrew <==> exists j :: Measures(rows, key, j) && rows[j].ringGrew)
    && (cell.saturated <==> exists j :: Measures(rows, key, j) && rows[j].saturated)
  }

  lemma {:induction false} CellOfRows(rows: seq<Row>, key: Key)
    ensures RowsOf(rows, key) != [] <==> Measured(rows, key)
    ensures RowsOf(rows, key) != [] ==> IsCell(rows, key, FoldAll(RowsOf(rows, key)))
  {
    if rows != [] {
      var last := |rows| - 1;
      CellOfRows(rows[..last], key);
      RowsStep(rows, last, key);
      assert rows[..last + 1] == rows;
      FoldMore(RowsOf(rows[..last], key), rows[last]);
      forall j | 0 <= j < last ensures Measures(rows, key, j) <==> Measures(rows[..last], key, j) {}
      CellStep(rows, key, FoldAll(RowsOf(rows[..last], key)));
    }
  }

  /** One more row. */
  lemma CellStep(rows: seq<Row>, key: Key, cell: Cell)
    requires rows != []
    requires var front := rows[..|rows| - 1];
      if Measured(front, key) then IsCell(front, key, cell) else cell == NEW_CELL
    ensures Measures(rows, key, |rows| - 1) ==> IsCell(rows, key, Fold(cell, rows[|rows| - 1]))
    ensures !Measures(rows, key, |rows| - 1) && Measured(rows[..|rows| - 1], key) ==> IsCell(rows, key, cell)
  {
    hide HasFlags, IsWorst;
    var last := |rows| - 1;
    var front := rows[..last];
    assert forall j :: Measures(rows, key, j) && j != last <==> Measures(front, key, j);
    if Measures(rows, key, last) {
      if !Measured(front, key) { NothingFolded(front, key); }
      assert LastOf(rows, key, last);
      WorstStep(rows, key, cell.worstNoise);
      FlagsStep(rows, key, cell);
    } else if Measured(front, key) {
      var i :| LastOf(front, key, i) && cell.logQ == front[i].logQ && cell.logDelta == front[i].logDelta;
      assert LastOf(rows, key, i);
      OtherRow(rows, key, cell);
    }
  }

  lemma NothingFolded(rows: seq<Row>, key: Key)
    requires !Measured(rows, key)
    ensures IsWorst(rows, key, NEW_CELL.worstNoise) && HasFlags(rows, key, NEW_CELL)
  {
  }

  lemma FlagsStep(rows: seq<Row>, key: Key, cell: Cell)
    requires rows != [] && Measures(rows, key, |rows| - 1)
    requires forall j :: Measures(rows, key, j) && j != |rows| - 1 <==> Measures(rows[..|rows| - 1], key, j)
    requires HasFlags(rows[..|rows| - 1], key, cell)
    ensures HasFlags(rows, key, Fold(cell, rows[|rows| - 1]))
  {
    assert rows[..|rows| - 1] + [rows[|rows| - 1]] == rows;
  }

  /** A row that does not measure the key changes nothing. */
  lemma OtherRow(rows: seq<Row>, key: Key, cell: Cell)
    requires rows != []
    requires forall j :: Measures(rows, key, j) <==> Measures(rows[..|rows| - 1], key, j)
    requires IsWorst(rows[..|rows| - 1], key, cell.worstNoise) && HasFlags(rows[..|rows| - 1], key, cell)
    ensures IsWorst(rows, key, cell.worstNoise) && HasFlags(rows, key, cell)
  {
  }

  lemma WorstStep(rows: seq<Row>, key: Key, worst: real)
    requires rows != [] && Measures(rows, key, |rows| - 1)
    requires forall j :: Measures(rows, key, j) && j != |rows| - 1 <==> Measures(rows[..|rows| - 1], key, j)
    requires IsWorst(rows[..|rows| - 1], key, worst)
    ensures IsWorst(rows, key, Max(worst, rows[|rows| - 1].noise))
  {
  }

  method FoldRows(rows: seq<Row>) returns (cells: map<Key, Cell>)
    ensures AreCells(cells, rows)
    ensures forall key :: key in cells <==> Measured(rows, key)
    ensures forall key :: key in cells ==> IsCell(rows, key, cells[key])
  {
    cells := map[];
    for i := 0 to |rows|
      invariant AreCells(cells, rows[..i])
    {
      var row := rows[i];
      ghost var before := cells;
      if row.ok {
        var cell := if row.key in cells then cells[row.key] else NEW_CELL;
        cells := cells[row.key := Fold(cell, row)];
      }
      FoldStep(before, rows, i, cells);
    }
    assert rows[..|rows|] == rows;
    forall key
      ensures key in cells <==> Measured(rows, key)
      ensures key in cells ==> IsCell(rows, key, cells[key])
    {
      CellOfRows(rows, key);
    }
  }

  lemma FoldStep(cells: map<Key, Cell>, rows: seq<Row>, i: nat, after: map<Key, Cell>)
    requires i < |rows| && AreCells(cells, rows[..i])
    requires var row := rows[i];
      after ==
        if !row.ok then cells
        else cells[row.key := Fold(if row.key in cells then cells[row.key] else NEW_CELL, row)]
    ensures AreCells(after, rows[..i + 1])
  {
    var row := rows[i];
    assert rows[..i + 1][..i] == rows[..i];
    forall key ensures key in after <==> RowsOf(rows[..i + 1], key) != []
      ensures key in after ==> after[key] == FoldAll(RowsOf(rows[..i + 1], key))
    {
      RowsStep(rows, i, key);
      FoldMore(RowsOf(rows[..i], key), row);
    }
  }

  lemma RowsStep(rows: seq<Row>, i: nat, key: Key)
    requires i < |rows|
    ensures RowsOf(rows[..i + 1], key) ==
      if rows[i].ok && rows[i].key == key then RowsOf(rows[..i], key) + [rows[i]] else RowsOf(rows[..i], key)
  {
    assert rows[..i + 1][..i] == rows[..i];
  }

  lemma FoldMore(rows: seq<Row>, row: Row)
    ensures FoldAll(rows + [row]) == Fold(FoldAll(rows), row)
  {
    assert (rows + [row])[..|rows|] == rows;
  }

  // ------------------------------------------------------------------ feasibility

  datatype Demand = Demand(margin: real, lambda: real) {
    /** The flooding inequality for one noise level. */
    predicate Clears(noise: real, logDelta: real) {
      noise + margin + lambda + 2.0 <= logDelta
    }

    /** What the selection loop lets through. */
    predicate Feasible(cell: Cell) {
      cell.allDecryptOk && !cell.saturated && !cell.ringGrew && Clears(cell.worstNoise, cell.logDelta)
    }

    /** One row decrypts, has no artefact, and clears the inequality against the given modulus headroom. */
    predicate RowClears(row: Row, logDelta: real) {
      row.decryptOk && !row.saturated && !row.ringGrew && Clears(row.noise, logDelta)
    }
  }

  /**
   A cell is feasible exactly when all its rows clear the headroom of its last row
   (and so does the initial noise -1).
   */
  lemma {:induction false} FeasibleExactly(d: Demand, rows: seq<Row>, logDelta: real)
    requires rows != []
    ensures FoldAll(rows).logDelta == rows[|rows| - 1].logDelta
    ensures d.Feasible(FoldAll(rows).(logDelta := logDelta)) <==>
      d.Clears(-1.0, logDelta) && forall i :: 0 <= i < |rows| ==> d.RowClears(rows[i], logDelta)
  {
    var last := |rows| - 1;
    if last > 0 {
      FeasibleExactly(d, rows[..last], logDelta);
      assert forall i :: 0 <= i < last ==> rows[..last][i] == rows[i];
    } else {
      assert FoldAll(rows[..0]) == NEW_CELL;
    }
    FoldClears(d, FoldAll(rows[..last]), rows[last], logDelta);
  }

  lemma FoldClears(d: Demand, cell: Cell, row: Row, logDelta: real)
    ensures d.Feasible(Fold(cell, row).(logDelta := logDelta))
      <==> d.Feasible(cell.(logDelta := logDelta)) && d.RowClears(row, logDelta)
  {
  }

  /** The modulus headroom of every row. */
  function Headrooms(rows: seq<Row>): (headrooms: seq<real>)
    ensures |headrooms| == |rows|
  {
    seq(|rows|, i requires 0 <= i < |rows| => rows[i].logDelta)
  }

  function Last(headrooms: seq<real>): real
    requires headrooms != []
  {
    headrooms[|headrooms| - 1]
  }

  /** No row has less headroom than the last one. */
  ghost predicate LastIsLeast(headrooms: seq<real>)
    requires headrooms != []
  {
    forall i :: 0 <= i < |headrooms| ==> Last(headrooms) <= headrooms[i]
  }

  /** Every pattern clears its own inequality. */
  ghost predicate EveryRowClears(d: Demand, rows: seq<Row>) {
    forall i :: 0 <= i < |rows| ==> d.RowClears(rows[i], rows[i].logDelta)
  }

  /** Whatever is measured under these headrooms, a feasible cell hides no failing row. */
  ghost predicate HidesNone(d: Demand, headrooms: seq<real>) {
    forall rows :: Headrooms(rows) == headrooms && d.Feasible(FoldAll(rows)) ==> EveryRowClears(d, rows)
  }

  /** Where no headroom is less than the last, a feasible cell means every pattern clears its own. */
  lemma FeasibleMeansEveryRow(d: Demand, rows: seq<Row>)
    requires rows != [] && LastIsLeast(Headrooms(rows)) && d.Feasible(FoldAll(rows))
    ensures EveryRowClears(d, rows)
  {
    var least := Last(Headrooms(rows));
    FeasibleExactly(d, rows, least);
    assert FoldAll(rows).(logDelta := least) == FoldAll(rows);
    forall i | 0 <= i < |rows| ensures d.RowClears(rows[i], rows[i].logDelta) {
      assert least <= Headrooms(rows)[i];
    }
  }

  /**
   The cells that can hide a failing row, exactly: some row has less headroom than the
   last, and the last leaves room for the initial noise.
   */
  lemma HidesNoneExactly(d: Demand, headrooms: seq<real>)
    requires headrooms != []
    ensures HidesNone(d, headrooms) <==> LastIsLeast(headrooms) || !d.Clears(-1.0, Last(headrooms))
  {
    if LastIsLeast(headrooms) || !d.Clears(-1.0, Last(headrooms)) {
      forall rows | Headrooms(rows) == headrooms && d.Feasible(FoldAll(rows)) ensures EveryRowClears(d, rows) {
        FeasibleExactly(d, rows, Last(headrooms));
        assert FoldAll(rows).(logDelta := Last(headrooms)) == FoldAll(rows);
        FeasibleMeansEveryRow(d, rows);
      }
    } else {
      var i :| 0 <= i < |headrooms| && headrooms[i] < Last(headrooms);
      HiddenRow(d, headrooms, i);
    }
  }

  /** Noise that just clears the last headroom, in a row that has less. */
  lemma HiddenRow(d: Demand, headrooms: seq<real>, i: nat)
    requires i < |headrooms| && headrooms[i] < Last(headrooms) && d.Clears(-1.0, Last(headrooms))
    ensures !HidesNone(d, headrooms)
  {
    var noise := Last(headrooms) - d.margin - d.lambda - 2.0;
    var rows := seq(|headrooms|, j requires 0 <= j < |headrooms| =>
      Row(Key("", 0, 0, 0), true, if j == i then noise else -1.0, headrooms[j], 1.0, true, false, false));
    assert Headrooms(rows) == headrooms;
    FeasibleExactly(d, rows, Last(headrooms));
    assert FoldAll(rows).(logDelta := Last(headrooms)) == FoldAll(rows);
    assert !d.RowClears(rows[i], rows[i].logDelta);
    assert !EveryRowClears(d, rows);
  }

  /** For all demands at once, and for those whose margin and lambda are not negative. */
  lemma HeadroomsHonest(headrooms: seq<real>)
    requires headrooms != []
    ensures (forall d: Demand :: HidesNone(d, headrooms)) <==> LastIsLeast(headrooms)
    ensures (forall d: Demand :: d.margin >= 0.0 && d.lambda >= 0.0 ==> HidesNone(d, headrooms)) <==>
      LastIsLeast(headrooms) || Last(headrooms) < 1.0
  {
    forall d: Demand
      ensures HidesNone(d, headrooms) <==> LastIsLeast(headrooms) || !d.Clears(-1.0, Last(headrooms))
    {
      HidesNoneExactly(d, headrooms);
    }
    assert Demand(Last(headrooms) - 1.0, 0.0).Clears(-1.0, Last(headrooms));
  }

  lemma FeasibleDecided(d: Demand, rows: seq<Row>)
    requires rows != [] && d.Feasible(FoldAll(rows))
    ensures LastIsLeast(Headrooms(rows)) ==> EveryRowClears(d, rows)
    ensures HidesNone(d, Headrooms(rows)) <==> LastIsLeast(Headrooms(rows))
  {
    hide HidesNone, EveryRowClears, LastIsLeast;
    if LastIsLeast(Headrooms(rows)) { FeasibleMeansEveryRow(d, rows); }
    FeasibleExactly(d, rows, Last(Headrooms(rows)));
    assert FoldAll(rows).(logDelta := Last(Headrooms(rows))) == FoldAll(rows);
    HidesNoneExactly(d, Headrooms(rows));
  }

  /** An instance: the headroom of the second row stands in for that of the first. */
  lemma LastHeadroomDecides(key: Key, d: Demand)
    requires d == Demand(0.0, 0.0)
    ensures var rows := [Row(key, true, 10.0, 5.0, 1.0, true, false, false),
                         Row(key, true, 1.0, 100.0, 1.0, true, false, false)];
      Headrooms(rows) == [5.0, 100.0] && !LastIsLeast(Headrooms(rows)) && !HidesNone(d, Headrooms(rows))
      && d.Feasible(FoldAll(rows)) && !EveryRowClears(d, rows)
  {
    var r0, r1 := Row(key, true, 10.0, 5.0, 1.0, true, false, false),
        Row(key, true, 1.0, 100.0, 1.0, true, false, false);
    FoldMore([r0], r1);
    FoldMore([], r0);
    assert [] + [r0] == [r0] && [r0] + [r1] == [r0, r1];
    assert !d.RowClears([r0, r1][0], r0.logDelta);
    assert Headrooms([r0, r1])[0] < Last(Headrooms([r0, r1]));
    HidesNoneExactly(d, Headrooms([r0, r1]));
  }

  // ------------------------------------------------------------------ selection

  /** Smaller log q, ties broken by the quieter cell. */
  predicate Cheaper(a: Cell, b: Cell) {
    a.logQ < b.logQ || (a.logQ == b.logQ && a.worstNoise < b.worstNoise)
  }

  /** The held entry of a group: one of its feasible cells among `keys`, and none of them cheaper. */
  ghost predicate IsCheapest(cells: map<Key, Cell>, keys: set<Key>, d: Demand, group: Group, key: Key, cell: Cell)
    requires keys <= cells.Keys
  {
    && key in keys && key.InGroup() == group && cell == cells[key] && d.Feasible(cell)
    && forall other :: other in keys && other.InGroup() == group && d.Feasible(cells[other])
        ==> !Cheaper(cells[other], cell)
  }

  ghost predicate HasFeasible(cells: map<Key, Cell>, keys: set<Key>, d: Demand, group: Group)
    requires keys <= cells.Keys
  {
    exists key :: key in keys && key.InGroup() == group && d.Feasible(cells[key])
  }

  /** A group is held exactly when it has a feasible cell, and then with its cheapest. */
  ghost predicate IsSelection(cells: map<Key, Cell>, keys: set<Key>, d: Demand, best: map<Group, (Key, Cell)>)
    requires keys <= cells.Keys
  {
    && (forall group :: group in best <==> HasFeasible(cells, keys, d, group))
    && (forall group :: group in best ==> IsCheapest(cells, keys, d, group, best[group].0, best[group].1))
  }

  /** The selection loop; its result is right in whatever order the cells are visited. */
  method SelectCheapest(cells: map<Key, Cell>, d: Demand) returns (best: map<Group, (Key, Cell)>)
    ensures IsSelection(cells, cells.Keys, d, best)
  {
    best := map[];
    var rest := cells.Keys;
    ghost var done: set<Key> := {};
    while rest != {}
      invariant done !! rest && done + rest == cells.Keys
      invariant IsSelection(cells, done, d, best)
      decreases rest
    {
      var key :| key in rest;
      var cell := cells[key];
      ghost var before := best;
      if d.Feasible(cell) {
        var group := key.InGroup();
        var better := group !in best || Cheaper(cell, best[group].1);
        if better { best := best[group := (key, cell)]; }
      }
      SelectStep(cells, done, d, before, key, best);
      done, rest := done + {key}, rest - {key};
    }
    assert done == cells.Keys;
  }

  lemma SelectStep(cells: map<Key, Cell>, done: set<Key>, d: Demand, best: map<Group, (Key, Cell)>, key: Key,
                   after: map<Group, (Key, Cell)>)
    requires done <= cells.Keys && key in cells.Keys && key !in done && IsSelection(cells, done, d, best)
    requires var cell, group := cells[key], key.InGroup();
      after ==
        if d.Feasible(cell) && (group !in best || Cheaper(cell, best[group].1)) then best[group := (key, cell)]
        else best
    ensures IsSelection(cells, done + {key}, d, after)
  {
    var more := done + {key};
    forall group ensures group in after <==> HasFeasible(cells, more, d, group)
      ensures group in after ==> IsCheapest(cells, more, d, group, after[group].0, after[group].1)
    {
      GroupStep(cells, done, d, best, key, after, group);
    }
  }

  lemma GroupStep(cells: map<Key, Cell>, done: set<Key>, d: Demand, best: map<Group, (Key, Cell)>, key: Key,
                  after: map<Group, (Key, Cell)>, group: Group)
    requires done <= cells.Keys && key in cells.Keys && key !in done && IsSelection(cells, done, d, best)
    requires var cell, g := cells[key], key.InGroup();
      after == if d.Feasible(cell) && (g !in best || Cheaper(cell, best[g].1)) then best[g := (key, cell)] else best
    ensures group in after <==> HasFeasible(cells, done + {key}, d, group)
    ensures group in after ==> IsCheapest(cells, done + {key}, d, group, after[group].0, after[group].1)
  {
    var more := done + {key};
    if HasFeasible(cells, done, d, group) {
      var k :| k in done && k.InGroup() == group && d.Feasible(cells[k]);
      assert k in more;
    }
    if key.InGroup() == group && d.Feasible(cells[key]) {
      assert key in more;
    }
    assert HasFeasible(cells, more, d, group) <==>
      HasFeasible(cells, done, d, group) || (key.InGroup() == group && d.Feasible(cells[key]));
  }

  ghost predicate InGroup(key: Key, group: Group) {
    key.circuit == group.circuit && key.ringDim == group.ringDim
  }

  /** A row without artefacts whose noise clears the flooding inequality against a headroom. */
  ghost predicate RowQualifies(row: Row, d: Demand, headroom: real) {
    row.decryptOk && !row.ringGrew && !row.saturated && row.noise + d.margin + d.lambda + 2.0 <= headroom
  }

  /** The key's last row is `last`; all its rows, and the initial noise, clear that row's headroom. */
  ghost predicate Qualifies(rows: seq<Row>, key: Key, d: Demand, last: int) {
    && LastOf(rows, key, last) && -1.0 + d.margin + d.lambda + 2.0 <= rows[last].logDelta
    && forall j :: Measures(rows, key, j) ==> RowQualifies(rows[j], d, rows[last].logDelta)
  }

  /** Some key of the group qualifies. */
  ghost predicate GroupQualifies(rows: seq<Row>, d: Demand, group: Group) {
    exists key, last :: InGroup(key, group) && Qualifies(rows, key, d, last)
  }

  /** What is reported costs no more than what the rows of another key say: by log q, then by the worst noise. */
  ghost predicate NoDearer(rows: seq<Row>, cell: Cell, other: Key, last: int)
    requires LastOf(rows, other, last)
  {
    cell.logQ < rows[last].logQ
    || (cell.logQ == rows[last].logQ && forall worst :: IsWorst(rows, other, worst) ==> cell.worstNoise <= worst)
  }

  /** No row of the key has less headroom than its last. */
  ghost predicate NoneBelow(rows: seq<Row>, key: Key, last: int) {
    LastOf(rows, key, last) && forall j :: Measures(rows, key, j) ==> rows[last].logDelta <= rows[j].logDelta
  }

  /** The entry held for a group, by the numbers of the rows alone. */
  ghost predicate IsReported(rows: seq<Row>, d: Demand, group: Group, key: Key, cell: Cell) {
    && InGroup(key, group) && IsCell(rows, key, cell)
    && (exists last :: Qualifies(rows, key, d, last))
    && (forall other, last :: InGroup(other, group) && Qualifies(rows, other, d, last) ==>
          NoDearer(rows, cell, other, last))
    && (forall last :: NoneBelow(rows, key, last) ==>
          forall j :: Measures(rows, key, j) ==> RowQualifies(rows[j], d, rows[j].logDelta))
  }

  lemma LastUnique(rows: seq<Row>, key: Key, i: int, j: int)
    requires LastOf(rows, key, i) && LastOf(rows, key, j)
    ensures i == j
  {
  }

  /** A cell is let through exactly when the rows of its key qualify. */
  lemma FeasibleRows(rows: seq<Row>, key: Key, d: Demand, cell: Cell)
    requires IsCell(rows, key, cell)
    ensures d.Feasible(cell) <==> exists last :: Qualifies(rows, key, d, last)
    ensures forall last :: LastOf(rows, key, last) ==>
      cell.logQ == rows[last].logQ && cell.logDelta == rows[last].logDelta
  {
    var i :| LastOf(rows, key, i) && cell.logQ == rows[i].logQ && cell.logDelta == rows[i].logDelta;
    forall last | LastOf(rows, key, last) ensures last == i { LastUnique(rows, key, last, i); }
    if d.Feasible(cell) {
      assert Qualifies(rows, key, d, i);
    }
  }

  lemma CheaperMeans(rows: seq<Row>, cell: Cell, other: Key, cell': Cell, last: int)
    requires IsCell(rows, other, cell') && LastOf(rows, other, last) && !Cheaper(cell', cell)
    requires cell'.logQ == rows[last].logQ
    ensures NoDearer(rows, cell, other, last)
  {
    forall worst | IsWorst(rows, other, worst) ensures worst == cell'.worstNoise {
      if worst != -1.0 {
        var j :| Measures(rows, other, j) && rows[j].noise == worst;
      }
      if cell'.worstNoise != -1.0 {
        var j :| Measures(rows, other, j) && rows[j].noise == cell'.worstNoise;
      }
    }
  }

  lemma Reported(rows: seq<Row>, d: Demand, cells: map<Key, Cell>, group: Group, key: Key, cell: Cell)
    requires forall k :: k in cells <==> Measured(rows, k)
    requires forall k :: k in cells ==> IsCell(rows, k, cells[k])
    requires IsCheapest(cells, cells.Keys, d, group, key, cell)
    ensures IsReported(rows, d, group, key, cell)
  {
    hide IsCell, Qualifies, NoDearer, Cheaper;
    FeasibleRows(rows, key, d, cell);
    assert key.InGroup() == group;
    forall other, last | InGroup(other, group) && Qualifies(rows, other, d, last)
      ensures LastOf(rows, other, last) && NoDearer(rows, cell, other, last)
    {
      QualifiesMeasured(rows, other, d, last);
      FeasibleRows(rows, other, d, cells[other]);
      assert other.InGroup() == group;
      CheaperMeans(rows, cell, other, cells[other], last);
    }
    OwnHeadrooms(rows, key, d);
  }

  lemma QualifiesMeasured(rows: seq<Row>, key: Key, d: Demand, last: int)
    requires Qualifies(rows, key, d, last)
    ensures LastOf(rows, key, last) && Measured(rows, key)
  {
  }

  /** Where no headroom is less than the last, every row of a qualifying key clears its own. */
  lemma OwnHeadrooms(rows: seq<Row>, key: Key, d: Demand)
    requires exists last :: Qualifies(rows, key, d, last)
    ensures forall last :: NoneBelow(rows, key, last) ==>
              forall j :: Measures(rows, key, j) ==> RowQualifies(rows[j], d, rows[j].logDelta)
  {
    var i :| Qualifies(rows, key, d, i);
    forall last | LastOf(rows, key, last) ensures last == i { LastUnique(rows, key, last, i); }
  }

  lemma GroupDecided(rows: seq<Row>, d: Demand, cells: map<Key, Cell>, group: Group)
    requires forall k :: k in cells <==> Measured(rows, k)
    requires forall k :: k in cells ==> IsCell(rows, k, cells[k])
    ensures HasFeasible(cells, cells.Keys, d, group) <==> GroupQualifies(rows, d, group)
  {
    hide IsCell, Qualifies;
    if HasFeasible(cells, cells.Keys, d, group) {
      var key :| key in cells.Keys && key.InGroup() == group && d.Feasible(cells[key]);
      FeasibleRows(rows, key, d, cells[key]);
      assert InGroup(key, group);
    }
    if GroupQualifies(rows, d, group) {
      var key, last :| InGroup(key, group) && Qualifies(rows, key, d, last);
      QualifiesMeasured(rows, key, d, last);
      FeasibleRows(rows, key, d, cells[key]);
      assert key.InGroup() == group;
    }
  }

  /**
   The whole summary: a circuit and ring dimension is reported exactly when one of its
   cells is feasible; the reported cell has the least (log q, worst noise), and, where none
   of its rows has less headroom than the last, every measured pattern of it clears the
   flooding inequality.
   */
  method Summarise(rows: seq<Row>, d: Demand) returns (best: map<Group, (Key, Cell)>)
    ensures forall group :: group in best <==> GroupQualifies(rows, d, group)
    ensures forall group :: group in best ==> IsReported(rows, d, group, best[group].0, best[group].1)
    ensures forall group :: group in best ==>
      var held := RowsOf(rows, best[group].0);
      held != [] && (HidesNone(d, Headrooms(held)) <==> LastIsLeast(Headrooms(held)))
  {
    var cells := FoldRows(rows);
    best := SelectCheapest(cells, d);
    hide HidesNone, EveryRowClears, LastIsLeast, IsCell, IsCheapest, HasFeasible, IsReported, GroupQualifies;
    forall group ensures group in best <==> GroupQualifies(rows, d, group) {
      GroupDecided(rows, d, cells, group);
    }
    forall group | group in best
      ensures IsReported(rows, d, group, best[group].0, best[group].1)
      ensures var held := RowsOf(rows, best[group].0);
        held != [] && (HidesNone(d, Headrooms(held)) <==> LastIsLeast(Headrooms(held)))
    {
      var key, cell := best[group].0, best[group].1;
      Reported(rows, d, cells, group, key, cell);
      HeldDecided(rows, d, cells, group, key, cell);
    }
  }

  lemma HeldDecided(rows: seq<Row>, d: Demand, cells: map<Key, Cell>, group: Group, key: Key, cell: Cell)
    requires AreCells(cells, rows) && IsCheapest(cells, cells.Keys, d, group, key, cell)
    ensures RowsOf(rows, key) != []
    ensures HidesNone(d, Headrooms(RowsOf(rows, key))) <==> LastIsLeast(Headrooms(RowsOf(rows, key)))
  {
    FeasibleDecided(d, RowsOf(rows, key));
  }
}
