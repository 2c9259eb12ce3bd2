/**
 The depth-d bottom structure (`src/core/bottom_structure.cpp`): per hash function
 the d smallest hashes of a set, kept under inserts and deletes, plus the flag that
 demands a rebuild once a row runs empty.

 A hash function is a parameter: `h(i, e)` is coordinate i's hash of element e.
 */
module BottomStructures {
  import opened Num
  import opened Wrappers

  datatype Config = Config(k: nat, d: nat, h: (nat, nat) -> nat) {
    predicate Valid() { k > 0 && d > 0 }

    /** Hashes of a set under coordinate i. */
    ghost function Hashes(i: nat, elems: set<nat>): set<nat> {
      set e | e in elems :: h(i, e)
    }

    /** No other element of u shares a hash with e. */
    ghost predicate Separate(e: nat, u: set<nat>) {
      forall i, f :: 0 <= i < k && f in u && f != e ==> h(i, f) != h(i, e)
    }
  }

  // ------------------------------------------------------------------ one row

  ghost predicate Ascending(row: seq<nat>) {
    forall i, j :: 0 <= i < j < |row| ==> row[i] < row[j]
  }

  /** Index of the first entry that is at least w. */
  function LowerBound(row: seq<nat>, w: nat): (pos: nat)
    ensures pos <= |row| && (pos < |row| ==> row[pos] >= w)
    ensures forall i :: 0 <= i < pos ==> row[i] < w
  {
    if row == [] || row[0] >= w then 0 else 1 + LowerBound(row[1..], w)
  }

  function Present(row: seq<nat>, w: nat): bool {
    var pos := LowerBound(row, w);
    pos < |row| && row[pos] == w
  }

  function InsertRow(row: seq<nat>, w: nat, d: nat): seq<nat> {
    var pos := LowerBound(row, w);
    if Present(row, w) then row
    else if |row| < d || (|row| > 0 && w < row[|row| - 1]) then
      var longer := row[..pos] + [w] + row[pos..];
      if |longer| > d then longer[..|longer| - 1] else longer
    else row
  }

  function DeleteRow(row: seq<nat>, w: nat): seq<nat> {
    var pos := LowerBound(row, w);
    if Present(row, w) then row[..pos] + row[pos + 1..] else row
  }

  /** The first c entries are the c smallest members of s. */
  ghost predicate FirstAre(row: seq<nat>, s: set<nat>, c: int) {
    c <= |row| && forall x, j :: x in s && x !in row && 0 <= j < c ==> row[j] < x
  }

  /**
   The row knows the c smallest of s, or all of s.  With c == d it is the list of
   the d smallest; every lost guarantee lowers c.
   */
  ghost predicate Knows(row: seq<nat>, s: set<nat>, d: nat, c: int) {
    && Ascending(row) && |row| <= d
    && (forall x :: x in row ==> x in s)
    && ((forall x :: x in s ==> x in row) || FirstAre(row, s, c))
  }

  /** The whole row is a prefix of s in ascending order. */
  ghost predicate IsPrefix(row: seq<nat>, s: set<nat>) {
    Ascending(row) && (forall x :: x in row ==> x in s) && FirstAre(row, s, |row|)
  }

  lemma PresentIsMember(row: seq<nat>, w: nat)
    requires Ascending(row)
    ensures Present(row, w) <==> w in row
  {
    var pos := LowerBound(row, w);
    assert pos < |row| ==> forall i :: pos < i < |row| ==> w <= row[pos] < row[i];
  }

  lemma BoundSeparates(row: seq<nat>, w: nat, pos: nat)
    requires Ascending(row) && w !in row && pos == LowerBound(row, w)
    ensures forall j :: 0 <= j < pos ==> row[j] < w
    ensures forall j :: pos <= j < |row| ==> w < row[j]
  {
    if pos < |row| {
      assert row[pos] in row;
      forall j | pos <= j < |row| ensures w < row[j] {
        assert row[pos] <= row[j];
      }
    }
  }

  /** The row with w put in at its place. */
  lemma LongerRow(row: seq<nat>, w: nat, pos: nat, longer: seq<nat>)
    requires Ascending(row) && pos <= |row| && longer == row[..pos] + [w] + row[pos..]
    requires (forall j :: 0 <= j < pos ==> row[j] < w) && forall j :: pos <= j < |row| ==> w < row[j]
    ensures |longer| == |row| + 1 && Ascending(longer) && (forall x :: x in longer <==> x in row || x == w)
    ensures forall j :: 0 <= j < |row| ==> longer[j] <= row[j]
  {
    LongerAt(row, w, pos, longer);
    LongerAscends(row, w, pos, longer);
    hide Ascending;
    forall x ensures x in longer <==> x in row || x == w {
      LongerMember(row, w, pos, longer, x);
    }
  }

  lemma LongerAt(row: seq<nat>, w: nat, pos: nat, longer: seq<nat>)
    requires Ascending(row) && pos <= |row| && longer == row[..pos] + [w] + row[pos..]
    requires (forall j :: 0 <= j < pos ==> row[j] < w) && forall j :: pos <= j < |row| ==> w < row[j]
    ensures |longer| == |row| + 1 && longer[pos] == w
    ensures forall j :: 0 <= j < pos ==> longer[j] == row[j]
    ensures forall j :: pos <= j < |row| ==> longer[j + 1] == row[j]
    ensures forall j :: 0 <= j < |row| ==> longer[j] <= row[j]
  {
    forall j | 0 <= j < |row| ensures longer[j] <= row[j] {
      if j > pos { assert longer[j] == row[j - 1]; }
    }
  }

  lemma LongerAscends(row: seq<nat>, w: nat, pos: nat, longer: seq<nat>)
    requires Ascending(row) && pos <= |row| && |longer| == |row| + 1 && longer[pos] == w
    requires (forall j :: 0 <= j < pos ==> row[j] < w) && forall j :: pos <= j < |row| ==> w < row[j]
    requires forall j :: 0 <= j < pos ==> longer[j] == row[j]
    requires forall j :: pos <= j < |row| ==> longer[j + 1] == row[j]
    ensures Ascending(longer)
  {
    forall a, b | 0 <= a < b < |longer| ensures longer[a] < longer[b] {
      if b > pos { assert longer[b] == row[b - 1]; }
      if a > pos { assert longer[a] == row[a - 1]; }
    }
  }

  lemma LongerMember(row: seq<nat>, w: nat, pos: nat, longer: seq<nat>, x: nat)
    requires pos <= |row| && |longer| == |row| + 1 && longer[pos] == w
    requires forall j :: 0 <= j < pos ==> longer[j] == row[j]
    requires forall j :: pos <= j < |row| ==> longer[j + 1] == row[j]
    ensures x in longer <==> x in row || x == w
  {
    if x in longer {
      var j :| 0 <= j < |longer| && longer[j] == x;
      if j > pos { assert row[j - 1] == x; }
    }
    if x in row {
      var j :| 0 <= j < |row| && row[j] == x;
      assert longer[if j < pos then j else j + 1] == x;
    }
  }

  lemma RoomLeft(row: seq<nat>, longer: seq<nat>, s: set<nat>, w: nat, d: nat, c: int)
    requires Knows(row, s, d, c) && |row| < d && |longer| == |row| + 1 && Ascending(longer)
    requires (forall x :: x in longer <==> x in row || x == w) && forall j :: 0 <= j < |row| ==> longer[j] <= row[j]
    ensures Knows(longer, s + {w}, d, c)
  {
  }

  lemma LargestEvicted(row: seq<nat>, longer: seq<nat>, s: set<nat>, w: nat, d: nat, c: int)
    requires Knows(row, s, d, c) && c <= d == |row| && |longer| == d + 1 && Ascending(longer)
    requires (forall x :: x in longer <==> x in row || x == w) && forall j :: 0 <= j < |row| ==> longer[j] <= row[j]
    ensures Knows(longer[..d], s + {w}, d, c)
  {
    var r := longer[..d];
    forall x, j | x in s + {w} && x !in r && 0 <= j < c ensures r[j] < x {
      if x in longer {
        assert x == longer[d];
      } else {
        assert longer[j] <= row[j];
      }
    }
  }

  lemma LargerIgnored(row: seq<nat>, s: set<nat>, w: nat, d: nat, c: int)
    requires Knows(row, s, d, c) && c <= d == |row| && d > 0 && row[d - 1] < w
    ensures Knows(row, s + {w}, d, c)
  {
    forall x, j | x in s + {w} && x !in row && 0 <= j < c ensures row[j] < x {
      assert row[j] <= row[d - 1];
    }
  }

  /** What InsertRow does to a sorted row without w: put w in its place, and drop the largest if too long. */
  lemma InsertCases(row: seq<nat>, w: nat, d: nat) returns (longer: seq<nat>)
    requires Ascending(row) && |row| <= d && d > 0 && w !in row
    ensures |longer| == |row| + 1 && Ascending(longer) && (forall x :: x in longer <==> x in row || x == w)
    ensures forall j :: 0 <= j < |row| ==> longer[j] <= row[j]
    ensures InsertRow(row, w, d) == if |row| < d then longer else if w < row[d - 1] then longer[..d] else row
  {
    PresentIsMember(row, w);
    var pos := LowerBound(row, w);
    longer := row[..pos] + [w] + row[pos..];
    assert InsertRow(row, w, d) == if |row| < d then longer else if w < row[d - 1] then longer[..d] else row;
    BoundSeparates(row, w, pos);
    hide InsertRow;
    LongerRow(row, w, pos, longer);
  }

  /** Inserting w keeps the row's knowledge, of the set joined with w. */
  lemma InsertKnows(row: seq<nat>, s: set<nat>, w: nat, d: nat, c: int)
    requires Knows(row, s, d, c) && c <= d && d > 0
    ensures Knows(InsertRow(row, w, d), s + {w}, d, c)
    ensures |row| <= |InsertRow(row, w, d)| && InsertRow(row, w, d) != []
  {
    hide FirstAre, LowerBound;
    PresentIsMember(row, w);
    if w in row {
      assert s + {w} == s;
    } else {
      var longer := InsertCases(row, w, d);
      hide InsertRow;
      if |row| < d {
        RoomLeft(row, longer, s, w, d, c);
      } else if w < row[d - 1] {
        LargestEvicted(row, longer, s, w, d, c);
      } else {
        assert row[d - 1] in row;
        LargerIgnored(row, s, w, d, c);
      }
    }
  }

  lemma ShorterRow(row: seq<nat>, pos: nat, shorter: seq<nat>)
    requires Ascending(row) && pos < |row| && shorter == row[..pos] + row[pos + 1..]
    ensures |shorter| == |row| - 1 && Ascending(shorter) && (forall x :: x in shorter <==> x in row && x != row[pos])
  {
    forall x ensures x in shorter <==> x in row && x != row[pos] {
      if x in row && x != row[pos] {
        var at :| 0 <= at < |row| && row[at] == x;
        assert at != pos;
        assert shorter[if at < pos then at else at - 1] == x;
      }
    }
  }

  /** What DeleteRow does to a sorted row: below pos it stays, from pos on it moves up. */
  lemma DeleteCases(row: seq<nat>, w: nat) returns (r: seq<nat>, pos: nat)
    requires Ascending(row)
    ensures r == DeleteRow(row, w) && (w !in row ==> r == row)
    ensures w in row ==> |r| == |row| - 1 && Ascending(r) && (forall x :: x in r <==> x in row && x != w)
    ensures w in row ==> pos < |row| && r == row[..pos] + row[pos + 1..]
  {
    PresentIsMember(row, w);
    pos := LowerBound(row, w);
    r := DeleteRow(row, w);
    if w in row {
      ShorterRow(row, pos, r);
    }
  }

  /** Deleting w costs at most one entry of knowledge. */
  lemma DeleteKnows(row: seq<nat>, s: set<nat>, w: nat, d: nat, c: int)
    requires Knows(row, s, d, c)
    ensures Knows(DeleteRow(row, w), s - {w}, d, c - 1)
    ensures |row| - 1 <= |DeleteRow(row, w)| <= |row|
  {
    hide DeleteRow, LowerBound;
    var r, pos := DeleteCases(row, w);
    if w in row && FirstAre(row, s, c) {
      forall x, j | x in s - {w} && x !in r && 0 <= j < c - 1 ensures r[j] < x {
        assert x !in row;
        var at := if j < pos then j else j + 1;
        assert row[at] < x;
      }
    }
  }

  /** A prefix stays a prefix under deletion. */
  lemma DeleteKeepsPrefix(row: seq<nat>, s: set<nat>, w: nat)
    requires IsPrefix(row, s)
    ensures IsPrefix(DeleteRow(row, w), s - {w})
  {
    hide DeleteRow, LowerBound;
    var r, pos := DeleteCases(row, w);
    if w in row {
      forall x, j | x in s - {w} && x !in r && 0 <= j < |r| ensures r[j] < x {
        assert x !in row;
        var at := if j < pos then j else j + 1;
        assert row[at] < x;
      }
    }
  }

  // ------------------------------------------------------------------ what knowledge is worth

  ghost predicate IsLeast(x: nat, s: set<nat>) {
    x in s && forall y :: y in s ==> x <= y
  }

  /** A non-empty row that knows at least one entry starts with the least hash. */
  lemma HeadIsLeast(row: seq<nat>, s: set<nat>, d: nat, c: int)
    requires Knows(row, s, d, c) && c >= 1 && row != []
    ensures IsLeast(row[0], s)
  {
    assert row[0] in row;
    forall y | y in s ensures row[0] <= y {
      if y in row {
        var at :| 0 <= at < |row| && row[at] == y;
      }
    }
  }

  /** With c >= 1 a row is empty only when the set is. */
  lemma EmptyRowEmptySet(row: seq<nat>, s: set<nat>, d: nat, c: int)
    requires Knows(row, s, d, c) && c >= 1 && row == []
    ensures s == {}
  {
  }

  /** Full knowledge (c == d) determines the row: it is the list of the d smallest. */
  lemma FullKnowledgeIsPrefix(row: seq<nat>, s: set<nat>, d: nat)
    requires Knows(row, s, d, d)
    ensures IsPrefix(row, s) && (|row| == d || forall x :: x in s ==> x in row)
  {
  }

  /** Two prefixes of one set agree wherever both are defined. */
  lemma {:induction false} PrefixesAgree(r1: seq<nat>, r2: seq<nat>, s: set<nat>, j: nat)
    requires IsPrefix(r1, s) && IsPrefix(r2, s) && j <= |r1| && j <= |r2|
    ensures r1[..j] == r2[..j]
  {
    if j > 0 {
      PrefixesAgree(r1, r2, s, j - 1);
      NextAgrees(r1, r2, s, j - 1);
      NextAgrees(r2, r1, s, j - 1);
      assert r1[..j] == r1[..j - 1] + [r1[j - 1]] && r2[..j] == r2[..j - 1] + [r2[j - 1]];
    }
  }

  lemma NextAgrees(r1: seq<nat>, r2: seq<nat>, s: set<nat>, j: nat)
    requires IsPrefix(r1, s) && IsPrefix(r2, s) && j < |r1| && j < |r2| && r1[..j] == r2[..j]
    ensures r2[j] <= r1[j]
  {
    var x := r1[j];
    assert x in r1;
    assert forall i :: 0 <= i < j ==> r2[i] == r2[..j][i] == r1[..j][i] == r1[i] < x;
    if x in r2 {
      var at :| 0 <= at < |r2| && r2[at] == x;
      assert at >= j;
    }
  }

  lemma FullKnowledgeUnique(r1: seq<nat>, r2: seq<nat>, s: set<nat>, d: nat)
    requires Knows(r1, s, d, d) && Knows(r2, s, d, d)
    ensures r1 == r2
  {
    FullKnowledgeIsPrefix(r1, s, d);
    FullKnowledgeIsPrefix(r2, s, d);
    NotLonger(r1, r2, s, d);
    NotLonger(r2, r1, s, d);
    PrefixesAgree(r1, r2, s, |r1|);
  }

  lemma NotLonger(r1: seq<nat>, r2: seq<nat>, s: set<nat>, d: nat)
    requires Knows(r1, s, d, d) && Knows(r2, s, d, d) && IsPrefix(r1, s) && IsPrefix(r2, s)
    ensures |r1| <= |r2|
  {
    if |r1| > |r2| {
      assert r1[|r2|] in r1;
      PrefixesAgree(r1, r2, s, |r2|);
    }
  }

  // ------------------------------------------------------------------ the structure as a value

  datatype State = State(bottom: seq<seq<nat>>, armed: bool)

  function InsertState(cfg: Config, st: State, e: nat): (r: State)
    requires |st.bottom| == cfg.k
    ensures |r.bottom| == cfg.k
  {
    State(seq(cfg.k, i requires 0 <= i < cfg.k => InsertRow(st.bottom[i], cfg.h(i, e), cfg.d)), st.armed)
  }

  /** A row that runs empty arms the rebuild flag. */
  function DeleteState(cfg: Config, st: State, e: nat): (r: State)
    requires |st.bottom| == cfg.k
    ensures |r.bottom| == cfg.k
  {
    var rows := seq(cfg.k, i requires 0 <= i < cfg.k => DeleteRow(st.bottom[i], cfg.h(i, e)));
    State(rows, st.armed || [] in rows)
  }

  function InitRow(cfg: Config, i: nat, elems: seq<nat>): seq<nat> {
    if elems == [] then [] else
      var last := |elems| - 1;
      InsertRow(InitRow(cfg, i, elems[..last]), cfg.h(i, elems[last]), cfg.d)
  }

  function InitState(cfg: Config, elems: seq<nat>): (r: State)
    ensures |r.bottom| == cfg.k
  {
    State(seq(cfg.k, i requires 0 <= i < cfg.k => InitRow(cfg, i, elems)), false)
  }

  /** Every row knows the c smallest hashes of the set. */
  ghost predicate KnowsAll(cfg: Config, st: State, elems: set<nat>, c: int) {
    |st.bottom| == cfg.k && forall i :: 0 <= i < cfg.k ==> Knows(st.bottom[i], cfg.Hashes(i, elems), cfg.d, c)
  }

  ghost predicate NoEmptyRow(st: State) {
    forall i :: 0 <= i < |st.bottom| ==> st.bottom[i] != []
  }

  lemma EmptyRowKnows(cfg: Config, i: nat)
    ensures Knows([], cfg.Hashes(i, {}), cfg.d, cfg.d)
  {
  }

  lemma {:induction false} InitRowKnows(cfg: Config, i: nat, elems: seq<nat>)
    requires cfg.Valid()
    ensures Knows(InitRow(cfg, i, elems), cfg.Hashes(i, Elems(elems)), cfg.d, cfg.d)
    ensures elems != [] ==> InitRow(cfg, i, elems) != []
  {
    hide InsertRow, FirstAre, Ascending;
    if elems != [] {
      var last := |elems| - 1;
      InitRowKnows(cfg, i, elems[..last]);
      InsertKnows(InitRow(cfg, i, elems[..last]), cfg.Hashes(i, Elems(elems[..last])), cfg.h(i, elems[last]),
                  cfg.d, cfg.d);
      assert elems == elems[..last] + [elems[last]];
      assert Elems(elems) == Elems(elems[..last]) + {elems[last]};
      HashesInsert(cfg, i, Elems(elems[..last]), elems[last]);
    } else {
      EmptyRowKnows(cfg, i);
      assert Elems(elems) == {};
    }
  }

  lemma HashesInsert(cfg: Config, i: nat, elems: set<nat>, e: nat)
    ensures cfg.Hashes(i, elems + {e}) == cfg.Hashes(i, elems) + {cfg.h(i, e)}
  {
    forall w | w in cfg.Hashes(i, elems) + {cfg.h(i, e)} ensures w in cfg.Hashes(i, elems + {e}) {
      if w in cfg.Hashes(i, elems) {
        var f :| f in elems && cfg.h(i, f) == w;
        assert f in elems + {e};
      } else {
        assert e in elems + {e};
      }
    }
  }

  lemma HashesDelete(cfg: Config, i: nat, elems: set<nat>, e: nat)
    requires i < cfg.k && cfg.Separate(e, elems)
    ensures cfg.Hashes(i, elems - {e}) == cfg.Hashes(i, elems) - {cfg.h(i, e)}
  {
    forall w | w in cfg.Hashes(i, elems) - {cfg.h(i, e)} ensures w in cfg.Hashes(i, elems - {e}) {
      var f :| f in elems && cfg.h(i, f) == w;
      assert f in elems - {e};
    }
  }

  /** After Initialize every row is the list of the d smallest hashes. */
  lemma InitializeKnows(cfg: Config, elems: seq<nat>)
    requires cfg.Valid()
    ensures KnowsAll(cfg, InitState(cfg, elems), Elems(elems), cfg.d)
    ensures elems != [] ==> NoEmptyRow(InitState(cfg, elems))
  {
    forall i | 0 <= i < cfg.k
      ensures Knows(InitRow(cfg, i, elems), cfg.Hashes(i, Elems(elems)), cfg.d, cfg.d)
      ensures elems != [] ==> InitRow(cfg, i, elems) != []
    {
      InitRowKnows(cfg, i, elems);
    }
  }

  lemma InsertKnowsAll(cfg: Config, st: State, elems: set<nat>, e: nat, c: int)
    requires cfg.Valid() && KnowsAll(cfg, st, elems, c) && c <= cfg.d
    ensures KnowsAll(cfg, InsertState(cfg, st, e), elems + {e}, c) && NoEmptyRow(InsertState(cfg, st, e))
  {
    forall i | 0 <= i < cfg.k
      ensures Knows(InsertRow(st.bottom[i], cfg.h(i, e), cfg.d), cfg.Hashes(i, elems + {e}), cfg.d, c)
      ensures InsertRow(st.bottom[i], cfg.h(i, e), cfg.d) != []
    {
      InsertKnows(st.bottom[i], cfg.Hashes(i, elems), cfg.h(i, e), cfg.d, c);
      HashesInsert(cfg, i, elems, e);
    }
  }

  lemma DeleteKnowsAll(cfg: Config, st: State, elems: set<nat>, e: nat, c: int)
    requires cfg.Valid() && KnowsAll(cfg, st, elems, c) && cfg.Separate(e, elems)
    ensures KnowsAll(cfg, DeleteState(cfg, st, e), elems - {e}, c - 1)
  {
    forall i | 0 <= i < cfg.k
      ensures Knows(DeleteRow(st.bottom[i], cfg.h(i, e)), cfg.Hashes(i, elems - {e}), cfg.d, c - 1)
    {
      DeleteKnows(st.bottom[i], cfg.Hashes(i, elems), cfg.h(i, e), cfg.d, c);
      HashesDelete(cfg, i, elems, e);
    }
  }

  /** While something is known of a non-empty set, no row is empty. */
  lemma KnowledgeIsNotEmpty(cfg: Config, st: State, elems: set<nat>, c: int)
    requires KnowsAll(cfg, st, elems, c) && c >= 1 && elems != {}
    ensures NoEmptyRow(st)
  {
    var e :| e in elems;
    forall i | 0 <= i < cfg.k ensures st.bottom[i] != [] {
      assert cfg.h(i, e) in cfg.Hashes(i, elems);
      if st.bottom[i] == [] { EmptyRowEmptySet(st.bottom[i], cfg.Hashes(i, elems), cfg.d, c); }
    }
  }

  // ------------------------------------------------------------------ signatures

  function SignatureOf(st: State): (sig: seq<nat>)
    requires NoEmptyRow(st)
    ensures |sig| == |st.bottom|
  {
    seq(|st.bottom|, i requires 0 <= i < |st.bottom| => st.bottom[i][0])
  }

  /** The signature of a set: the least hash of every coordinate. */
  ghost predicate IsSignature(cfg: Config, sig: seq<nat>, elems: set<nat>) {
    |sig| == cfg.k && forall i :: 0 <= i < cfg.k ==> IsLeast(sig[i], cfg.Hashes(i, elems))
  }

  lemma KnowledgeSigns(cfg: Config, st: State, elems: set<nat>, c: int)
    requires KnowsAll(cfg, st, elems, c) && c >= 1 && NoEmptyRow(st)
    ensures IsSignature(cfg, SignatureOf(st), elems)
  {
    forall i | 0 <= i < cfg.k ensures IsLeast(st.bottom[i][0], cfg.Hashes(i, elems)) {
      HeadIsLeast(st.bottom[i], cfg.Hashes(i, elems), cfg.d, c);
    }
  }

  lemma SignatureUnique(cfg: Config, s1: seq<nat>, s2: seq<nat>, elems: set<nat>)
    requires IsSignature(cfg, s1, elems) && IsSignature(cfg, s2, elems)
    ensures s1 == s2
  {
    forall i | 0 <= i < cfg.k ensures s1[i] == s2[i] {
      assert IsLeast(s1[i], cfg.Hashes(i, elems)) && IsLeast(s2[i], cfg.Hashes(i, elems));
    }
  }

  // ------------------------------------------------------------------ runs

  datatype Op = Insert(elem: nat) | Delete(elem: nat)

  function Apply(cfg: Config, st: State, op: Op): (r: State)
    requires |st.bottom| == cfg.k
    ensures |r.bottom| == cfg.k
  {
    match op case Insert(e) => InsertState(cfg, st, e) case Delete(e) => DeleteState(cfg, st, e)
  }

  /** A run from a state; every operation refuses an armed structure. */
  function ApplyOps(cfg: Config, st: State, ops: seq<Op>): (r: Result<State>)
    requires |st.bottom| == cfg.k
    ensures r.Ok? ==> |r.value.bottom| == cfg.k
  {
    if ops == [] then Ok(st) else
      var before :- ApplyOps(cfg, st, ops[..|ops| - 1]);
      if before.armed then Err(LogicError("BottomStructure requires full nonempty Initialize()"))
      else Ok(Apply(cfg, before, ops[|ops| - 1]))
  }

  ghost function SetAfter(start: set<nat>, ops: seq<Op>): set<nat> {
    if ops == [] then start else
      var before := SetAfter(start, ops[..|ops| - 1]);
      match ops[|ops| - 1] case Insert(e) => before + {e} case Delete(e) => before - {e}
  }

  ghost function Deletes(ops: seq<Op>): nat {
    if ops == [] then 0 else Deletes(ops[..|ops| - 1]) + if ops[|ops| - 1].Delete? then 1 else 0
  }

  /** Deleted elements share no hash with the set, and the set never runs empty. */
  ghost predicate Admissible(cfg: Config, start: set<nat>, ops: seq<Op>) {
    if ops == [] then start != {} else
      var front, op := ops[..|ops| - 1], ops[|ops| - 1];
      && Admissible(cfg, start, front)
      && (op.Delete? ==> cfg.Separate(op.elem, SetAfter(start, front)))
      && SetAfter(start, ops) != {}
  }

  /** The run ends usable, with the signature of the set it stands for. */
  ghost predicate Faithful(cfg: Config, start: seq<nat>, ops: seq<Op>) {
    var r := ApplyOps(cfg, InitState(cfg, start), ops);
    r.Ok? && !r.value.armed && NoEmptyRow(r.value)
        && IsSignature(cfg, SignatureOf(r.value), SetAfter(Elems(start), ops))
  }

  lemma NoEmptyRowUnarmed(st: State)
    requires NoEmptyRow(st)
    ensures [] !in st.bottom
  {
  }

  /** One step of a run that still has knowledge to spend. */
  lemma StepKnows(cfg: Config, st: State, elems: set<nat>, op: Op, c: int, after: set<nat>)
    requires cfg.Valid() && KnowsAll(cfg, st, elems, c) && c <= cfg.d && !st.armed
    requires after == (match op case Insert(e) => elems + {e} case Delete(e) => elems - {e}) && after != {}
    requires op.Delete? ==> cfg.Separate(op.elem, elems) && c > 1
    ensures var r := Apply(cfg, st, op);
      KnowsAll(cfg, r, after, if op.Delete? then c - 1 else c) && !r.armed && NoEmptyRow(r)
  {
    match op
    case Insert(e) => InsertKnowsAll(cfg, st, elems, e, c);
    case Delete(e) =>
      DeleteKnowsAll(cfg, st, elems, e, c);
      KnowledgeIsNotEmpty(cfg, DeleteState(cfg, st, e), after, c - 1);
      NoEmptyRowUnarmed(DeleteState(cfg, st, e));
  }

  /** Fewer than d deletes since Initialize: never armed, and every row still knows d - deletes of the smallest. */
  lemma {:induction false} RunKnows(cfg: Config, start: seq<nat>, ops: seq<Op>)
    requires cfg.Valid() && Admissible(cfg, Elems(start), ops) && Deletes(ops) < cfg.d
    ensures var r := ApplyOps(cfg, InitState(cfg, start), ops);
      r.Ok? && !r.value.armed && NoEmptyRow(r.value)
      && KnowsAll(cfg, r.value, SetAfter(Elems(start), ops), cfg.d - Deletes(ops))
  {
    if ops == [] {
      InitializeKnows(cfg, start);
    } else {
      var front, op := ops[..|ops| - 1], ops[|ops| - 1];
      RunKnows(cfg, start, front);
      var before := ApplyOps(cfg, InitState(cfg, start), front).value;
      StepKnows(cfg, before, SetAfter(Elems(start), front), op, cfg.d - Deletes(front), SetAfter(Elems(start), ops));
    }
  }

  /** Such a run ends with the signature of the current set. */
  lemma FewDeletesFaithful(cfg: Config, start: seq<nat>, ops: seq<Op>)
    requires cfg.Valid() && Admissible(cfg, Elems(start), ops) && Deletes(ops) < cfg.d
    ensures Faithful(cfg, start, ops)
  {
    RunKnows(cfg, start, ops);
    KnowledgeSigns(cfg, ApplyOps(cfg, InitState(cfg, start), ops).value, SetAfter(Elems(start), ops),
        cfg.d - Deletes(ops));
  }

  // ------------------------------------------------------------------ d deletes are too many

  /** One coordinate whose hash is the element itself. */
  function Identity(d: nat): Config {
    Config(1, d, (i, e) => e)
  }

  function DeleteRange(lo: nat, hi: nat): (ops: seq<Op>)
    requires lo <= hi
    ensures |ops| == hi - lo
  {
    seq(hi - lo, i requires 0 <= i < hi - lo => Delete(lo + i))
  }

  lemma DeleteRangeStep(lo: nat, hi: nat)
    requires lo < hi
    ensures DeleteRange(lo, hi) == DeleteRange(lo, hi - 1) + [Delete(hi - 1)]
  {
  }

  lemma DeleteHead(row: seq<nat>, x: nat, rest: seq<nat>)
    requires row == [x] + rest
    ensures DeleteRow(row, x) == rest
  {
    assert LowerBound(row, x) == 0;
  }

  lemma RangeStep(lo: nat, hi: nat)
    requires lo < hi
    ensures Range(lo, hi) == [lo] + Range(lo + 1, hi)
  {
  }

  /** Initialize over 0..n with n >= d keeps 0..d-1. */
  lemma InitRange(d: nat, n: nat)
    requires 0 < d <= n
    ensures InitState(Identity(d), Range(0, n + 1)) == State([Range(0, d)], false)
  {
    var cfg, elems := Identity(d), Range(0, n + 1);
    InitRowKnows(cfg, 0, elems);
    RangeHashes(d, n);
    FullKnowledgeUnique(InitRow(cfg, 0, elems), Range(0, d), cfg.Hashes(0, Elems(elems)), d);
  }

  lemma RangeHashes(d: nat, n: nat)
    requires 0 < d <= n
    ensures Knows(Range(0, d), Identity(d).Hashes(0, Elems(Range(0, n + 1))), d, d)
  {
    var row, s := Range(0, d), Identity(d).Hashes(0, Elems(Range(0, n + 1)));
    forall x | x in row ensures x in s {
      assert Range(0, n + 1)[x] == x;
      assert x in Elems(Range(0, n + 1));
      assert Identity(d).h(0, x) == x;
    }
    forall x: nat | x < d ensures x in row {
      assert row[x] == x;
    }
  }

  /** Deleting 0..t-1 leaves t..d-1, until the d-th delete arms the flag. */
  lemma {:induction false} DeletesFromRange(d: nat, n: nat, t: nat)
    requires 0 < d <= n && t <= d
    ensures ApplyOps(Identity(d), InitState(Identity(d), Range(0, n + 1)), DeleteRange(0, t))
      == Ok(State([Range(t, d)], t == d))
  {
    if t == 0 {
      InitRange(d, n);
    } else {
      DeletesFromRange(d, n, t - 1);
      DeleteRangeStep(0, t);
      assert DeleteRange(0, t)[..t - 1] == DeleteRange(0, t - 1);
      RangeStep(t - 1, d);
      DeleteHead(Range(t - 1, d), t - 1, Range(t, d));
      DeleteOnlyRow(Identity(d), Range(t - 1, d), t - 1, Range(t, d));
    }
  }

  /** Deleting from a structure with one row. */
  lemma DeleteOnlyRow(cfg: Config, row: seq<nat>, e: nat, rest: seq<nat>)
    requires cfg.k == 1 && DeleteRow(row, cfg.h(0, e)) == rest
    ensures DeleteState(cfg, State([row], false), e) == State([rest], rest == [])
  {
    hide DeleteRow;
    var rows := seq(1, i requires 0 <= i < 1 => DeleteRow([row][i], cfg.h(i, e)));
    assert rows == [rest];
    assert DeleteState(cfg, State([row], false), e).bottom == rows;
    assert [] in [rest] <==> rest == [];
  }

  /** Past the d-th delete the run has failed. */
  lemma {:induction false} DeletesBeyond(d: nat, n: nat, t: nat)
    requires 0 < d <= t <= n
    ensures var r := ApplyOps(Identity(d), InitState(Identity(d), Range(0, n + 1)), DeleteRange(0, t));
      r.Err? || r.value.armed
  {
    if t == d {
      DeletesFromRange(d, n, d);
    } else {
      DeletesBeyond(d, n, t - 1);
      DeleteRangeStep(0, t);
      assert DeleteRange(0, t)[..t - 1] == DeleteRange(0, t - 1);
    }
  }

  /** One more delete that leaves `kept` in the set. */
  lemma AppendDelete(d: nat, start: set<nat>, front: seq<Op>, e: nat, kept: nat, ops: seq<Op>)
    requires Admissible(Identity(d), start, front) && kept in SetAfter(start, front) && kept != e
      && ops == front + [Delete(e)]
    ensures Admissible(Identity(d), start, ops) && Deletes(ops) == Deletes(front) + 1 && kept in SetAfter(start, ops)
  {
    assert ops[..|ops| - 1] == front;
    assert ops[|ops| - 1] == Delete(e);
    forall i, f | 0 <= i < 1 && f in SetAfter(start, front) && f != e
      ensures Identity(d).h(i, f) != Identity(d).h(i, e)
    {
    }
  }

  lemma {:induction false} RangeAdmissible(d: nat, n: nat, t: nat)
    requires 0 < d <= n && t <= n
    ensures Admissible(Identity(d), Elems(Range(0, n + 1)), DeleteRange(0, t)) && Deletes(DeleteRange(0, t)) == t
    ensures n in SetAfter(Elems(Range(0, n + 1)), DeleteRange(0, t))
  {
    if t == 0 {
      assert Range(0, n + 1)[n] == n;
      assert n in Elems(Range(0, n + 1));
    } else {
      RangeAdmissible(d, n, t - 1);
      DeleteRangeStep(0, t);
      AppendDelete(d, Elems(Range(0, n + 1)), DeleteRange(0, t - 1), t - 1, n, DeleteRange(0, t));
    }
  }

  /**
   The budget is exact: every admissible run with n deletes ends usable and with the
   right signature if and only if n is below the depth.
   */
  lemma DeleteBudget(d: nat, n: nat)
    requires d > 0
    ensures n < d <==>
      forall cfg: Config, start: seq<nat>, ops: seq<Op> ::
        cfg.Valid() && cfg.d == d && Deletes(ops) == n && Admissible(cfg, Elems(start), ops) ==>
          Faithful(cfg, start, ops)
  {
    if n < d {
      forall cfg: Config, start: seq<nat>, ops: seq<Op>
        | cfg.Valid() && cfg.d == d && Deletes(ops) == n && Admissible(cfg, Elems(start), ops)
        ensures Faithful(cfg, start, ops)
      {
        FewDeletesFaithful(cfg, start, ops);
      }
    } else {
      RangeAdmissible(d, n, n);
      DeletesBeyond(d, n, n);
      assert !Faithful(Identity(d), Range(0, n + 1), DeleteRange(0, n));
    }
  }

  /** Delete 0, insert d + 1, delete 1..t-1. */
  function StaleRun(d: nat, t: nat): seq<Op>
    requires 1 <= t
  {
    [Delete(0), Insert(d + 1)] + DeleteRange(1, t)
  }

  lemma {:induction false} LowerBoundEnd(row: seq<nat>, w: nat)
    requires forall i :: 0 <= i < |row| ==> row[i] < w
    ensures LowerBound(row, w) == |row|
  {
    if row != [] { LowerBoundEnd(row[1..], w); }
  }

  lemma InsertAtEnd(d: nat, row: seq<nat>, w: nat)
    requires |row| < d && forall i :: 0 <= i < |row| ==> row[i] < w
    ensures InsertState(Identity(d), State([row], false), w) == State([row + [w]], false)
  {
    LowerBoundEnd(row, w);
    assert row[..|row|] + [w] + row[|row|..] == row + [w];
    assert InsertRow(row, w, d) == row + [w];
  }

  lemma StaleStart(d: nat)
    requires 2 <= d
    ensures ApplyOps(Identity(d), InitState(Identity(d), Range(0, d + 1)), [Delete(0), Insert(d + 1)])
         == Ok(State([Range(1, d) + [d + 1]], false))
  {
    hide DeleteRow, InsertRow, InitState, DeleteState, InsertState;
    InitRange(d, d);
    RangeStep(0, d);
    DeleteHead(Range(0, d), 0, Range(1, d));
    DeleteOnlyRow(Identity(d), Range(0, d), 0, Range(1, d));
    InsertAtEnd(d, Range(1, d), d + 1);
    TwoOps(Identity(d), State([Range(0, d)], false), Delete(0), Insert(d + 1), State([Range(1, d)], false));
  }

  lemma {:induction false} StaleRows(d: nat, t: nat)
    requires 2 <= d && 1 <= t <= d
    ensures ApplyOps(Identity(d), InitState(Identity(d), Range(0, d + 1)), StaleRun(d, t))
         == Ok(State([Range(t, d) + [d + 1]], false))
  {
    hide DeleteRow, InsertRow, InitState, DeleteState, InsertState, ApplyOps;
    var ops := StaleRun(d, t);
    if t == 1 {
      StaleStart(d);
      assert ops == [Delete(0), Insert(d + 1)];
    } else {
      StaleRows(d, t - 1);
      DeleteRangeStep(1, t);
      assert ops[..|ops| - 1] == StaleRun(d, t - 1);
      RangeStep(t - 1, d);
      DeleteHead(Range(t - 1, d) + [d + 1], t - 1, Range(t, d) + [d + 1]);
      DeleteOnlyRow(Identity(d), Range(t - 1, d) + [d + 1], t - 1, Range(t, d) + [d + 1]);
      hide Range, StaleRun;
      OneMore(Identity(d), InitState(Identity(d), Range(0, d + 1)), ops,
              State([Range(t - 1, d) + [d + 1]], false), t - 1);
    }
  }

  lemma OneMore(cfg: Config, st: State, ops: seq<Op>, mid: State, e: nat)
    requires |st.bottom| == cfg.k == |mid.bottom| && ops != [] && ops[|ops| - 1] == Delete(e)
    requires ApplyOps(cfg, st, ops[..|ops| - 1]) == Ok(mid) && !mid.armed
    ensures ApplyOps(cfg, st, ops) == Ok(DeleteState(cfg, mid, e))
  {
    hide DeleteState;
  }

  lemma TwoOps(cfg: Config, st: State, a: Op, b: Op, mid: State)
    requires |st.bottom| == cfg.k && !st.armed && Apply(cfg, st, a) == mid && !mid.armed
    ensures ApplyOps(cfg, st, [a, b]) == Ok(Apply(cfg, mid, b))
  {
    assert [a, b][..1] == [a] && [a][..0] == [];
    assert ApplyOps(cfg, st, []) == Ok(st);
    assert ApplyOps(cfg, st, [a]) == Ok(mid);
  }

  lemma {:induction false} StaleSet(d: nat, t: nat)
    requires 2 <= d && 1 <= t <= d
    ensures Admissible(Identity(d), Elems(Range(0, d + 1)), StaleRun(d, t)) && Deletes(StaleRun(d, t)) == t
    ensures d in SetAfter(Elems(Range(0, d + 1)), StaleRun(d, t))
  {
    var start := Elems(Range(0, d + 1));
    if t == 1 {
      assert Range(0, d + 1)[d] == d;
      assert d in start;
      assert Admissible(Identity(d), start, []);
      AppendDelete(d, start, [], 0, d, [Delete(0)]);
      assert StaleRun(d, 1) == [Delete(0), Insert(d + 1)] && StaleRun(d, 1)[..1] == [Delete(0)];
    } else {
      StaleSet(d, t - 1);
      DeleteRangeStep(1, t);
      AppendDelete(d, start, StaleRun(d, t - 1), t - 1, d, StaleRun(d, t));
    }
  }

  /** After the stale run, insert and delete d + 2 until there are n deletes. */
  function PaddedRun(d: nat, n: nat): seq<Op>
    requires 1 <= d <= n
  {
    if n == d then StaleRun(d, d) else PaddedRun(d, n - 1) + [Insert(d + 2)] + [Delete(d + 2)]
  }

  lemma InsertThenDelete(d: nat)
    requires 2 <= d
    ensures InsertState(Identity(d), State([[d + 1]], false), d + 2) == State([[d + 1, d + 2]], false)
    ensures DeleteState(Identity(d), State([[d + 1, d + 2]], false), d + 2) == State([[d + 1]], false)
  {
    hide InsertState, DeleteState, DeleteRow;
    InsertAtEnd(d, [d + 1], d + 2);
    assert [d + 1] + [d + 2] == [d + 1, d + 2];
    DeleteSecond(d + 1, d + 2);
    DeleteOnlyRow(Identity(d), [d + 1, d + 2], d + 2, [d + 1]);
  }

  lemma DeleteSecond(x: nat, y: nat)
    requires x < y
    ensures DeleteRow([x, y], y) == [x]
  {
    assert [x, y][1..] == [y];
    assert LowerBound([y], y) == 0;
    assert LowerBound([x, y], y) == 1;
    assert [x, y][..1] + [x, y][2..] == [x];
  }

  lemma Appended(cfg: Config, st: State, front: seq<Op>, op: Op, mid: State)
    requires |st.bottom| == cfg.k == |mid.bottom|
    requires ApplyOps(cfg, st, front) == Ok(mid) && !mid.armed
    ensures ApplyOps(cfg, st, front + [op]) == Ok(Apply(cfg, mid, op))
  {
    hide Apply;
    assert (front + [op])[..|front|] == front;
  }

  lemma AppendInsert(cfg: Config, start: set<nat>, front: seq<Op>, e: nat, kept: nat)
    requires Admissible(cfg, start, front) && kept in SetAfter(start, front)
    ensures Admissible(cfg, start, front + [Insert(e)]) && Deletes(front + [Insert(e)]) == Deletes(front)
    ensures kept in SetAfter(start, front + [Insert(e)])
  {
    assert (front + [Insert(e)])[..|front|] == front;
  }

  lemma {:induction false} PaddedRows(d: nat, n: nat)
    requires 2 <= d <= n
    ensures ApplyOps(Identity(d), InitState(Identity(d), Range(0, d + 1)), PaddedRun(d, n))
      == Ok(State([[d + 1]], false))
  {
    hide InitState, InsertState, DeleteState, ApplyOps, StaleRun;
    var cfg, st := Identity(d), InitState(Identity(d), Range(0, d + 1));
    if n == d {
      StaleRows(d, d);
      assert Range(d, d) + [d + 1] == [d + 1];
    } else {
      PaddedRows(d, n - 1);
      InsertThenDelete(d);
      Appended(cfg, st, PaddedRun(d, n - 1), Insert(d + 2), State([[d + 1]], false));
      Appended(cfg, st, PaddedRun(d, n - 1) + [Insert(d + 2)], Delete(d + 2), State([[d + 1, d + 2]], false));
    }
  }

  lemma {:induction false} PaddedSet(d: nat, n: nat)
    requires 2 <= d <= n
    ensures Admissible(Identity(d), Elems(Range(0, d + 1)), PaddedRun(d, n)) && Deletes(PaddedRun(d, n)) == n
    ensures d in SetAfter(Elems(Range(0, d + 1)), PaddedRun(d, n))
  {
    hide Admissible, SetAfter, Deletes, StaleRun;
    var start := Elems(Range(0, d + 1));
    if n == d {
      StaleSet(d, d);
    } else {
      var front := PaddedRun(d, n - 1);
      PaddedSet(d, n - 1);
      AppendInsert(Identity(d), start, front, d + 2, d);
      AppendDelete(d, start, front + [Insert(d + 2)], d + 2, d, front + [Insert(d + 2)] + [Delete(d + 2)]);
    }
  }

  /** The run ends with the flag down. */
  ghost predicate EndsUnarmed(cfg: Config, start: seq<nat>, ops: seq<Op>) {
    var r := ApplyOps(cfg, InitState(cfg, start), ops);
    r.Ok? && !r.value.armed
  }

  /**
   With d or more deletes and an insert in between, a depth of two or more can end unarmed
   and silently wrong: the sketch reports d + 1 although d is in the set.
   */
  lemma SilentlyStale(d: nat, n: nat)
    requires 2 <= d <= n
    ensures exists start, ops ::
      && Admissible(Identity(d), Elems(start), ops) && Deletes(ops) == n
      && EndsUnarmed(Identity(d), start, ops) && !Faithful(Identity(d), start, ops)
  {
    var start, ops := Range(0, d + 1), PaddedRun(d, n);
    PaddedRows(d, n);
    PaddedSet(d, n);
    hide PaddedRun, ApplyOps, InitState;
    var st := ApplyOps(Identity(d), InitState(Identity(d), start), ops).value;
    assert st.bottom[0][0] == d + 1;
    assert Identity(d).h(0, d) == d && d in Identity(d).Hashes(0, SetAfter(Elems(start), ops));
    assert !IsLeast(d + 1, Identity(d).Hashes(0, SetAfter(Elems(start), ops)));
    assert EndsUnarmed(Identity(d), start, ops) && !Faithful(Identity(d), start, ops);
  }

  /** A row of depth one that a delete does not empty has lost nothing. */
  lemma SingleSurvives(row: seq<nat>, s: set<nat>, w: nat)
    requires Knows(row, s, 1, 1) && row != [] && DeleteRow(row, w) != []
    ensures Knows(DeleteRow(row, w), s - {w}, 1, 1)
  {
    hide DeleteRow, LowerBound;
    var r, pos := DeleteCases(row, w);
  }

  lemma SingleDelete(cfg: Config, st: State, elems: set<nat>, e: nat)
    requires cfg.Valid() && cfg.d == 1 && KnowsAll(cfg, st, elems, 1) && NoEmptyRow(st) && cfg.Separate(e, elems)
    requires !DeleteState(cfg, st, e).armed
    ensures KnowsAll(cfg, DeleteState(cfg, st, e), elems - {e}, 1) && NoEmptyRow(DeleteState(cfg, st, e))
  {
    forall i | 0 <= i < cfg.k
      ensures Knows(DeleteRow(st.bottom[i], cfg.h(i, e)), cfg.Hashes(i, elems - {e}), 1, 1)
      ensures DeleteRow(st.bottom[i], cfg.h(i, e)) != []
    {
      assert DeleteState(cfg, st, e).bottom[i] in DeleteState(cfg, st, e).bottom;
      SingleSurvives(st.bottom[i], cfg.Hashes(i, elems), cfg.h(i, e));
      HashesDelete(cfg, i, elems, e);
    }
  }

  /** At depth one the flag never misses: an unarmed run knows the least hash of every row. */
  lemma {:induction false} SingleKnows(cfg: Config, start: seq<nat>, ops: seq<Op>)
    requires cfg.Valid() && cfg.d == 1 && Admissible(cfg, Elems(start), ops) && EndsUnarmed(cfg, start, ops)
    ensures var st := ApplyOps(cfg, InitState(cfg, start), ops).value;
      KnowsAll(cfg, st, SetAfter(Elems(start), ops), 1) && NoEmptyRow(st)
  {
    hide InsertState, DeleteState, KnowsAll, NoEmptyRow, InitState;
    if ops == [] {
      InitializeKnows(cfg, start);
    } else {
      var front, op := ops[..|ops| - 1], ops[|ops| - 1];
      SingleKnows(cfg, start, front);
      var before, elems := ApplyOps(cfg, InitState(cfg, start), front).value, SetAfter(Elems(start), front);
      match op
      case Insert(e) => InsertKnowsAll(cfg, before, elems, e, 1);
      case Delete(e) => SingleDelete(cfg, before, elems, e);
    }
  }

  lemma SingleFaithful(cfg: Config, start: seq<nat>, ops: seq<Op>)
    requires cfg.Valid() && cfg.d == 1 && Admissible(cfg, Elems(start), ops) && EndsUnarmed(cfg, start, ops)
    ensures Faithful(cfg, start, ops)
  {
    SingleKnows(cfg, start, ops);
    KnowledgeSigns(cfg, ApplyOps(cfg, InitState(cfg, start), ops).value, SetAfter(Elems(start), ops), 1);
  }

  /**
   When the flag can be trusted: every admissible run with n deletes that ends unarmed
   ends with the right signature, if and only if n is below the depth or the depth is one.
   */
  lemma FlagBudget(d: nat, n: nat)
    requires d > 0
    ensures n < d || d == 1 <==>
      forall cfg: Config, start: seq<nat>, ops: seq<Op> ::
        cfg.Valid() && cfg.d == d && Deletes(ops) == n && Admissible(cfg, Elems(start), ops)
        && EndsUnarmed(cfg, start, ops) ==>
          Faithful(cfg, start, ops)
  {
    hide Admissible, Faithful, EndsUnarmed, Deletes;
    if n < d || d == 1 {
      forall cfg: Config, start: seq<nat>, ops: seq<Op>
        | cfg.Valid() && cfg.d == d && Deletes(ops) == n && Admissible(cfg, Elems(start), ops)
          && EndsUnarmed(cfg, start, ops)
        ensures Faithful(cfg, start, ops)
      {
        if n < d { FewDeletesFaithful(cfg, start, ops); } else { SingleFaithful(cfg, start, ops); }
      }
    } else {
      SilentlyStale(d, n);
      assert Identity(d).Valid();
    }
  }

  // ------------------------------------------------------------------ short update batches

  function Inserts(batch: seq<nat>): (ops: seq<Op>)
    ensures |ops| == |batch|
  {
    seq(|batch|, i requires 0 <= i < |batch| => Insert(batch[i]))
  }

  function Removals(batch: seq<nat>): (ops: seq<Op>)
    ensures |ops| == |batch|
  {
    seq(|batch|, i requires 0 <= i < |batch| => Delete(batch[i]))
  }

  ghost predicate Distinct(s: seq<nat>) {
    forall i, j :: 0 <= i < j < |s| ==> s[i] != s[j]
  }

  /** New elements whose hashes are their own. */
  ghost predicate FreshBatch(cfg: Config, start: set<nat>, batch: seq<nat>) {
    Distinct(batch) && forall i :: 0 <= i < |batch| ==>
      batch[i] !in start && cfg.Separate(batch[i], start + Elems(batch))
  }

  lemma {:induction false} InsertsRun(cfg: Config, start: set<nat>, batch: seq<nat>, t: nat)
    requires start != {} && t <= |batch|
    ensures var ops := Inserts(batch)[..t];
      Admissible(cfg, start, ops) && Deletes(ops) == 0 && SetAfter(start, ops) == start + Elems(batch[..t])
  {
    var ops := Inserts(batch)[..t];
    if t > 0 {
      InsertsRun(cfg, start, batch, t - 1);
      assert ops[..t - 1] == Inserts(batch)[..t - 1];
      assert batch[..t] == batch[..t - 1] + [batch[t - 1]];
      assert Elems(batch[..t]) == Elems(batch[..t - 1]) + {batch[t - 1]};
    } else {
      assert Elems(batch[..0]) == {};
    }
  }

  lemma AppendRemoval(cfg: Config, start: set<nat>, front: seq<Op>, e: nat, before: set<nat>, after: set<nat>,
                      ops: seq<Op>)
    requires Admissible(cfg, start, front) && SetAfter(start, front) == before && cfg.Separate(e, before)
    requires before - {e} == after && after != {} && ops == front + [Delete(e)]
    ensures Admissible(cfg, start, ops) && Deletes(ops) == Deletes(front) + 1 && SetAfter(start, ops) == after
  {
    assert ops[..|ops| - 1] == front && ops[|ops| - 1] == Delete(e);
  }

  lemma {:induction false} BatchRun(cfg: Config, start: set<nat>, batch: seq<nat>, t: nat)
    requires start != {} && t <= |batch| && FreshBatch(cfg, start, batch)
    ensures var ops := Inserts(batch) + Removals(batch)[..t];
      Admissible(cfg, start, ops) && Deletes(ops) == t && SetAfter(start, ops) == start + Elems(batch[t..])
  {
    hide Admissible, SetAfter, Deletes;
    var ops := Inserts(batch) + Removals(batch)[..t];
    if t == 0 {
      InsertsRun(cfg, start, batch, |batch|);
      assert ops == Inserts(batch)[..|batch|] && batch[..|batch|] == batch == batch[0..];
    } else {
      BatchRun(cfg, start, batch, t - 1);
      var front := Inserts(batch) + Removals(batch)[..t - 1];
      assert ops == front + [Delete(batch[t - 1])];
      RemoveFirst(start, batch, t - 1);
      assert start + Elems(batch[t - 1..]) <= start + Elems(batch);
      AppendRemoval(cfg, start, front, batch[t - 1], start + Elems(batch[t - 1..]), start + Elems(batch[t..]), ops);
    }
  }

  lemma RemoveFirst(start: set<nat>, batch: seq<nat>, t: nat)
    requires t < |batch| && Distinct(batch) && batch[t] !in start
    ensures start + Elems(batch[t..]) - {batch[t]} == start + Elems(batch[t + 1..])
  {
    assert batch[t..] == [batch[t]] + batch[t + 1..];
  }

  /** Inserting fewer than d new elements and deleting them again preserves the signature. */
  lemma ShortBatchKeepsSignature(cfg: Config, start: seq<nat>, batch: seq<nat>)
    requires cfg.Valid() && start != [] && |batch| < cfg.d && FreshBatch(cfg, Elems(start), batch)
    ensures NoEmptyRow(InitState(cfg, start))
    ensures var r := ApplyOps(cfg, InitState(cfg, start), Inserts(batch) + Removals(batch));
      r.Ok? && !r.value.armed && NoEmptyRow(r.value) && SignatureOf(r.value) == SignatureOf(InitState(cfg, start))
  {
    hide Faithful, IsSignature, ApplyOps, Admissible, SetAfter, Deletes, NoEmptyRow;
    FreshSignature(cfg, start);
    BatchRestores(cfg, start, batch);
    FewDeletesFaithful(cfg, start, Inserts(batch) + Removals(batch));
    FaithfulSignature(cfg, start, Inserts(batch) + Removals(batch), SignatureOf(InitState(cfg, start)));
  }

  lemma FreshSignature(cfg: Config, start: seq<nat>)
    requires cfg.Valid() && start != []
    ensures NoEmptyRow(InitState(cfg, start)) && IsSignature(cfg, SignatureOf(InitState(cfg, start)), Elems(start))
  {
    InitializeKnows(cfg, start);
    KnowledgeSigns(cfg, InitState(cfg, start), Elems(start), cfg.d);
  }

  lemma BatchRestores(cfg: Config, start: seq<nat>, batch: seq<nat>)
    requires start != [] && FreshBatch(cfg, Elems(start), batch)
    ensures var ops := Inserts(batch) + Removals(batch);
      Admissible(cfg, Elems(start), ops) && Deletes(ops) == |batch| && SetAfter(Elems(start), ops) == Elems(start)
  {
    assert start[0] in Elems(start);
    BatchRun(cfg, Elems(start), batch, |batch|);
    assert Removals(batch)[..|batch|] == Removals(batch) && batch[|batch|..] == [];
    assert Elems(start) + Elems([]) == Elems(start);
  }

  lemma FaithfulSignature(cfg: Config, start: seq<nat>, ops: seq<Op>, sig: seq<nat>)
    requires Faithful(cfg, start, ops) && IsSignature(cfg, sig, SetAfter(Elems(start), ops))
    ensures var r := ApplyOps(cfg, InitState(cfg, start), ops);
      r.Ok? && !r.value.armed && NoEmptyRow(r.value) && SignatureOf(r.value) == sig
  {
    SignatureUnique(cfg, SignatureOf(ApplyOps(cfg, InitState(cfg, start), ops).value), sig,
        SetAfter(Elems(start), ops));
  }
}
