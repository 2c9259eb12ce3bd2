/**
 The binary form of an execution trace (`ExecutionTrace::SerializeAndVerify` and
 `VerifyExecutionTrace` in `benchmarks/comparison_workload.cpp`): the verifier
 accepts exactly the encodings of the traces the builder can finish with.
 */
module TraceCodec {
  import opened Num
  import opened Wrappers
  import opened Params
  import opened Codec
  import opened Trace

  /** What binds a trace to its manifest. */
  datatype Binding = Binding(domain: Bytes, digest: Bytes, workload: Workload) {
    /** Sizes fit the 32-bit fields; the digest is a SHA-256. */
    ghost predicate Valid() {
      && workload.Valid() && |digest| == 32
      && 0 < |workload.trials| < TWO_32 && |workload.methods| < TWO_32
      && (forall name :: name in workload.methods ==> Short(name))
      && (forall i :: 0 <= i < |workload.trials| ==> workload.trials[i].index < TWO_32)
    }
  }

  function KindByte(kind: TrialKind): Byte {
    match kind case Warmup => 0 case Timing => 1 case Accuracy => 2 case Correctness => 3
  }

  function StatusByte(status: Status): Byte {
    match status case Complete => 0 case AdapterFailure => 1
  }

  // ------------------------------------------------------------------ encoding

  function Head(kind: Byte, index: nat, expected: nat, dispatched: nat, status: Byte): (s: Bytes)
    ensures |s| == 14
  {
    [kind] + Word(index) + Word(expected) + Word(dispatched) + [status]
  }

  function HeadOf(rec: Record): (s: Bytes)
    ensures |s| == 14
  {
    Head(KindByte(rec.kind), rec.index, rec.expectedMethods, |rec.dispatched|, StatusByte(rec.status))
  }

  ghost function EncodeRecord(rec: Record): Bytes {
    HeadOf(rec) + EncodeTexts(rec.dispatched)
  }

  ghost function EncodeRecords(records: seq<Record>): Bytes {
    if records == [] then [] else EncodeRecord(records[0]) + EncodeRecords(records[1..])
  }

  ghost function Front(b: Binding, observed: nat): Bytes {
    b.domain + [0] + b.digest + Word(|b.workload.trials|) + Word(observed)
  }

  ghost function Encode(b: Binding, records: seq<Record>): Bytes {
    Front(b, |records|) + EncodeRecords(records)
  }

  /** A trace that may be published: every record complete, or ended by a failure. */
  ghost predicate Publishable(w: Workload, records: seq<Record>)
    requires w.methods != []
  {
    IsTrace(w, records) && records != [] && (|records| == |w.trials| || Failed(records))
  }

  /** The layout of a record, byte by byte. */
  lemma RecordLayout(rec: Record)
    ensures var s := EncodeRecord(rec);
      && |s| >= 14
      && s[0] == (match rec.kind case Warmup => 0 case Timing => 1 case Accuracy => 2 case Correctness => 3)
      && s[1..5] == Word(rec.index) && s[5..9] == Word(rec.expectedMethods) && s[9..13] == Word(|rec.dispatched|)
      && s[13] == (if rec.status == AdapterFailure then 1 else 0)
      && s[14..] == EncodeTexts(rec.dispatched)
  {
    hide Word, EncodeTexts;
  }

  /** The layout of a whole trace: domain, zero byte, digest, numbers of trials and records, records. */
  lemma TraceLayout(b: Binding, records: seq<Record>)
    requires |b.digest| == 32
    ensures var s, n := Encode(b, records), |b.domain|;
      && |s| >= n + 41 && s[..n] == b.domain && s[n] == 0 && s[n + 1..n + 33] == b.digest
      && s[n + 33..n + 37] == Word(|b.workload.trials|) && s[n + 37..n + 41] == Word(|records|)
      && s[n + 41..] == EncodeRecords(records)
  {
    hide Word, EncodeRecords;
  }

  /** Records follow one another. */
  lemma RecordsFollow(records: seq<Record>, i: nat)
    requires i < |records|
    ensures EncodeRecords(records)
      == EncodeRecords(records[..i]) + EncodeRecord(records[i]) + EncodeRecords(records[i + 1..])
  {
    hide EncodeRecord, EncodeRecords;
    var front, one, rest := records[..i], [records[i]], records[i + 1..];
    Around(records, i);
    RecordsConcat(front, one + rest);
    RecordsConcat(one, rest);
    OneRecordBytes(records[i]);
    Associate(EncodeRecords(front), EncodeRecord(records[i]), EncodeRecords(rest));
  }

  lemma Around(records: seq<Record>, i: nat)
    requires i < |records|
    ensures records == records[..i] + ([records[i]] + records[i + 1..])
  {
  }

  lemma Associate(a: Bytes, b: Bytes, c: Bytes)
    ensures a + (b + c) == a + b + c
  {
  }

  /** What a publishable trace is, record by record. */
  ghost predicate IsPublished(w: Workload, i: nat, rec: Record, last: bool)
    requires w.methods != []
  {
    && i < |w.trials|
    && rec.kind == w.trials[i].kind && rec.index == w.trials[i].index && rec.expectedMethods == |w.methods|
    && InOrder(w, i, rec.dispatched)
    && if rec.status == Complete then |rec.dispatched| == |w.methods| else last && |rec.dispatched| >= 1
  }

  lemma PublishableExactly(w: Workload, records: seq<Record>)
    requires w.methods != []
    ensures Publishable(w, records) <==>
      && 0 < |records| <= |w.trials|
      && (forall i :: 0 <= i < |records| ==> IsPublished(w, i, records[i], i == |records| - 1))
      && (|records| == |w.trials| || records[|records| - 1].status == AdapterFailure)
  {
    hide Order, InOrder;
    forall i | 0 <= i < |records| && i < |w.trials|
      ensures records[i].dispatched <= Order(w, i) <==> InOrder(w, i, records[i].dispatched)
    {
      PrefixInOrder(w, i, records[i].dispatched);
    }
    if
      && 0 < |records| <= |w.trials|
      && forall i :: 0 <= i < |records| ==> IsPublished(w, i, records[i], i == |records| - 1)
    {
      forall i | 0 <= i < |records| ensures IsClosed(w, i, records[i]) {
        assert IsPublished(w, i, records[i], i == |records| - 1);
      }
      forall i | 0 <= i < |records| - 1 ensures records[i].status == Complete {
        assert IsPublished(w, i, records[i], false);
      }
    }
    if Publishable(w, records) {
      forall i | 0 <= i < |records| ensures IsPublished(w, i, records[i], i == |records| - 1) {
        assert IsClosed(w, i, records[i]);
      }
    }
  }

  // ------------------------------------------------------------------ unique decoding

  lemma HeadUnique(k: Byte, i: nat, e: nat, d: nat, s: Byte, k': Byte, i': nat, e': nat, d': nat, s': Byte)
    requires i < TWO_32 && e < TWO_32 && d < TWO_32 && i' < TWO_32 && e' < TWO_32 && d' < TWO_32
    requires Head(k, i, e, d, s) == Head(k', i', e', d', s')
    ensures k == k' && i == i' && e == e' && d == d' && s == s'
  {
    var h, h' := Head(k, i, e, d, s), Head(k', i', e', d', s');
    HeadParts(k, i, e, d, s);
    HeadParts(k', i', e', d', s');
    WordInjective(i, i');
    WordInjective(e, e');
    WordInjective(d, d');
  }

  lemma HeadParts(k: Byte, i: nat, e: nat, d: nat, s: Byte)
    ensures var h := Head(k, i, e, d, s);
      h[0] == k && h[1..5] == Word(i) && h[5..9] == Word(e) && h[9..13] == Word(d) && h[13] == s
  {
    hide Word;
  }

  /** The fields of a closed record fit their words. */
  lemma ClosedFits(b: Binding, i: nat, rec: Record)
    requires b.Valid() && IsClosed(b.workload, i, rec)
    ensures rec.index < TWO_32 && rec.expectedMethods < TWO_32 && |rec.dispatched| < TWO_32
    ensures forall name :: name in rec.dispatched ==> Short(name)
  {
    OrderDistinct(b.workload, i);
    forall name | name in rec.dispatched ensures Short(name) {
      assert name in Order(b.workload, i);
    }
  }

  /** A closed record is determined by how many methods it dispatched and its status. */
  lemma ClosedDetermined(w: Workload, i: nat, r1: Record, r2: Record)
    requires w.methods != [] && IsClosed(w, i, r1) && IsClosed(w, i, r2)
    requires |r1.dispatched| == |r2.dispatched| && r1.status == r2.status
    ensures r1 == r2
  {
    assert r1.dispatched == Order(w, i)[..|r1.dispatched|] && r2.dispatched == Order(w, i)[..|r2.dispatched|];
  }

  lemma RecordUnique(b: Binding, i: nat, r1: Record, a1: Bytes, r2: Record, a2: Bytes)
    requires b.Valid() && IsClosed(b.workload, i, r1) && IsClosed(b.workload, i, r2)
    requires EncodeRecord(r1) + a1 == EncodeRecord(r2) + a2
    ensures r1 == r2 && a1 == a2
  {
    ClosedFits(b, i, r1);
    ClosedFits(b, i, r2);
    SplitHead(HeadOf(r1), EncodeTexts(r1.dispatched), a1, HeadOf(r2), EncodeTexts(r2.dispatched), a2);
    HeadUnique(KindByte(r1.kind), r1.index, r1.expectedMethods, |r1.dispatched|, StatusByte(r1.status),
               KindByte(r2.kind), r2.index, r2.expectedMethods, |r2.dispatched|, StatusByte(r2.status));
    ClosedDetermined(b.workload, i, r1, r2);
    SameHead(EncodeTexts(r1.dispatched), a1, EncodeTexts(r2.dispatched), a2);
  }

  // ------------------------------------------------------------------ reading one record

  datatype Fields = Fields(kind: Byte, index: nat, expected: nat, dispatched: nat, status: Byte) {
    ghost predicate Fit() {
      index < TWO_32 && expected < TWO_32 && dispatched < TWO_32
    }

    function Bytes(): (s: Bytes)
      ensures |s| == 14
    {
      Head(kind, index, expected, dispatched, status)
    }
  }

  method ReadHead(reader: Reader) returns (r: Result<Fields>)
    requires reader.Valid()
    modifies reader
    ensures reader.Valid() && (r.Err? ==> |old(reader.Rest())| < 14)
    ensures r.Ok? ==> r.value.Fit() && old(reader.Rest()) == r.value.Bytes() + reader.Rest()
  {
    hide Word;
    var kind := reader.U8();
    if kind.Err? { return Err(kind.error); }
    var index := reader.BE32();
    if index.Err? { return Err(index.error); }
    var expected := reader.BE32();
    if expected.Err? { return Err(expected.error); }
    var dispatched := reader.BE32();
    if dispatched.Err? { return Err(dispatched.error); }
    ghost var four := reader.Rest();
    var status := reader.U8();
    if status.Err? { return Err(status.error); }
    HeadBytes([kind.value], Word(index.value), Word(expected.value), Word(dispatched.value), [status.value],
              reader.Rest());
    r := Ok(Fields(kind.value, index.value, expected.value, dispatched.value, status.value));
  }

  lemma HeadBytes(k: Bytes, i: Bytes, e: Bytes, d: Bytes, s: Bytes, rest: Bytes)
    ensures k + (i + (e + (d + (s + rest)))) == (k + i + e + d + s) + rest
  {
  }

  lemma {:induction false} TextsConcat(a: seq<Text>, b: seq<Text>)
    ensures EncodeTexts(a + b) == EncodeTexts(a) + EncodeTexts(b)
  {
    if a == [] {
      assert a + b == b;
    } else {
      assert (a + b)[1..] == a[1..] + b;
      TextsConcat(a[1..], b);
    }
  }

  lemma OneText(t: Text)
    ensures EncodeTexts([t]) == EncodeText(t)
  {
    assert [t][1..] == [];
  }

  lemma TextsStep(order: seq<Text>, j: nat)
    requires j < |order|
    ensures EncodeTexts(order[..j + 1]) == EncodeTexts(order[..j]) + EncodeText(order[j])
  {
    assert order[..j + 1] == order[..j] + [order[j]];
    TextsConcat(order[..j], [order[j]]);
    OneText(order[j]);
  }

  /** After j names the stream of `count` names continues with name j. */
  lemma TextsNext(order: seq<Text>, j: nat, count: nat)
    requires j < count <= |order|
    ensures EncodeTexts(order[..count])
      == EncodeTexts(order[..j]) + (EncodeText(order[j]) + EncodeTexts(order[j + 1..count]))
  {
    assert order[..count] == order[..j] + ([order[j]] + order[j + 1..count]);
    TextsConcat(order[..j], [order[j]] + order[j + 1..count]);
    TextsConcat([order[j]], order[j + 1..count]);
    OneText(order[j]);
  }

  /** A stream whose j-th string is not order[j] does not encode the order. */
  lemma WrongName(all: Bytes, order: seq<Text>, j: nat, count: nat, middle: Bytes, rest: Bytes)
    requires j < count <= |order| && all == EncodeTexts(order[..j]) + middle
    requires forall more :: middle != EncodeText(order[j]) + more
    ensures all != EncodeTexts(order[..count]) + rest
  {
    hide EncodeTexts, EncodeText;
    TextsNext(order, j, count);
    if all == EncodeTexts(order[..count]) + rest {
      var more := EncodeTexts(order[j + 1..count]) + rest;
      assert EncodeTexts(order[..j]) + (EncodeText(order[j]) + EncodeTexts(order[j + 1..count])) + rest
          == EncodeTexts(order[..j]) + (EncodeText(order[j]) + more);
      SameHead(EncodeTexts(order[..j]), middle, EncodeTexts(order[..j]), EncodeText(order[j]) + more);
    }
  }

  lemma NoTexts(order: seq<Text>)
    ensures EncodeTexts(order[..0]) == []
  {
  }

  method ReadNames(reader: Reader, order: seq<Text>, count: nat) returns (r: Result<()>)
    requires reader.Valid() && count <= |order| && forall name :: name in order ==> Short(name)
    modifies reader
    ensures reader.Valid()
    ensures r.Ok? ==> old(reader.Rest()) == EncodeTexts(order[..count]) + reader.Rest()
    ensures r.Err? ==> forall rest :: old(reader.Rest()) != EncodeTexts(order[..count]) + rest
  {
    hide EncodeText, EncodeTexts;
    NoTexts(order);
    for j := 0 to count
      invariant reader.Valid() && old(reader.Rest()) == EncodeTexts(order[..j]) + reader.Rest()
    {
      ghost var middle := reader.Rest();
      assert Short(order[j]);
      var name := reader.String();
      if name.Err? || name.value != order[j] {
        forall more ensures middle != EncodeText(order[j]) + more {
          if name.Ok? && middle == EncodeText(order[j]) + more {
            TextUnique(name.value, reader.Rest(), order[j], more);
          }
        }
        forall rest ensures old(reader.Rest()) != EncodeTexts(order[..count]) + rest {
          WrongName(old(reader.Rest()), order, j, count, middle, rest);
        }
        return Err(InvalidArgument("execution trace dispatch order mismatch"));
      }
      TextsStep(order, j);
    }
    return Ok(());
  }

  /** A head followed by anything belongs to at most one shape of record. */
  lemma FieldsOf(b: Binding, i: nat, f: Fields, middle: Bytes, rec: Record, rest: Bytes)
    requires b.Valid() && IsClosed(b.workload, i, rec) && f.Fit()
    requires f.Bytes() + middle == EncodeRecord(rec) + rest
    ensures f.kind == KindByte(rec.kind) && f.index == rec.index && f.expected == rec.expectedMethods
    ensures f.dispatched == |rec.dispatched| && f.status == StatusByte(rec.status)
    ensures middle == EncodeTexts(rec.dispatched) + rest
  {
    ClosedFits(b, i, rec);
    SplitHead(f.Bytes(), middle, [], HeadOf(rec), EncodeTexts(rec.dispatched), rest);
    HeadUnique(f.kind, f.index, f.expected, f.dispatched, f.status,
               KindByte(rec.kind), rec.index, rec.expectedMethods, |rec.dispatched|, StatusByte(rec.status));
  }

  /** The stream starts with the encoding of no closed record i. */
  ghost predicate NoRecord(b: Binding, i: nat, all: Bytes)
    requires b.Valid()
  {
    forall rec, rest :: IsClosed(b.workload, i, rec) ==> all != EncodeRecord(rec) + rest
  }

  lemma TooShortForRecord(b: Binding, i: nat, all: Bytes)
    requires b.Valid() && |all| < 14
    ensures NoRecord(b, i, all)
  {
  }

  /** The checks on the fields of record i, as the verifier makes them. */
  predicate FieldsFit(w: Workload, i: nat, f: Fields)
    requires i < |w.trials|
  {
    && f.kind == KindByte(w.trials[i].kind) && f.index == w.trials[i].index && f.expected == |w.methods|
        && f.status <= 1
    && (f.status == 0 ==> f.dispatched == f.expected)
    && (f.status == 1 ==> 0 < f.dispatched <= f.expected)
  }

  lemma BadFields(b: Binding, i: nat, f: Fields, middle: Bytes)
    requires b.Valid() && i < |b.workload.trials| && f.Fit() && !FieldsFit(b.workload, i, f)
    ensures NoRecord(b, i, f.Bytes() + middle)
  {
    forall rec, rest | IsClosed(b.workload, i, rec) ensures f.Bytes() + middle != EncodeRecord(rec) + rest {
      if f.Bytes() + middle == EncodeRecord(rec) + rest {
        FieldsOf(b, i, f, middle, rec, rest);
      }
    }
  }

  lemma DispatchedIs(w: Workload, i: nat, rec: Record)
    requires w.methods != [] && IsClosed(w, i, rec)
    ensures |rec.dispatched| <= |w.methods| && rec.dispatched == Order(w, i)[..|rec.dispatched|]
  {
  }

  lemma BadNames(b: Binding, i: nat, f: Fields, middle: Bytes)
    requires b.Valid() && i < |b.workload.trials| && f.Fit() && f.dispatched <= |b.workload.methods|
    requires forall rest :: middle != EncodeTexts(Order(b.workload, i)[..f.dispatched]) + rest
    ensures NoRecord(b, i, f.Bytes() + middle)
  {
    forall rec, rest | IsClosed(b.workload, i, rec) ensures f.Bytes() + middle != EncodeRecord(rec) + rest {
      DispatchedIs(b.workload, i, rec);
      if f.Bytes() + middle == EncodeRecord(rec) + rest {
        FieldsOf(b, i, f, middle, rec, rest);
      }
    }
  }

  lemma GoodRecord(b: Binding, i: nat, f: Fields, rec: Record, names: Bytes, rest: Bytes)
    requires b.Valid() && i < |b.workload.trials| && FieldsFit(b.workload, i, f)
    requires rec == Record(b.workload.trials[i].kind, f.index, f.expected,
                           if f.status == 0 then Complete else AdapterFailure, Order(b.workload, i)[..f.dispatched])
    requires names == EncodeTexts(Order(b.workload, i)[..f.dispatched]) + rest
    ensures IsClosed(b.workload, i, rec) && f.Bytes() + names == EncodeRecord(rec) + rest
  {
  }

  method ReadRecord(reader: Reader, b: Binding, i: nat) returns (r: Result<Record>)
    requires b.Valid() && reader.Valid() && i < |b.workload.trials|
    modifies reader
    ensures reader.Valid()
    ensures r.Ok? ==> IsClosed(b.workload, i, r.value) && old(reader.Rest()) == EncodeRecord(r.value) + reader.Rest()
    ensures r.Err? ==> NoRecord(b, i, old(reader.Rest()))
  {
    hide IsClosed, EncodeRecord, EncodeTexts, Order, NoRecord;
    var head := ReadHead(reader);
    if head.Err? {
      TooShortForRecord(b, i, old(reader.Rest()));
      return Err(head.error);
    }
    var f := head.value;
    ghost var middle := reader.Rest();
    if !FieldsFit(b.workload, i, f) {
      BadFields(b, i, f, middle);
      return Err(InvalidArgument("execution trace record identity or dispatch count is invalid"));
    }
    var ordered := ExecutionOrder(b.workload.methods, b.workload.trials[i].seed);
    var order := ordered.value;
    OrderIs(b.workload, i, order);
    OrderDistinct(b.workload, i);
    var names := ReadNames(reader, order, f.dispatched);
    if names.Err? {
      BadNames(b, i, f, middle);
      return Err(names.error);
    }
    var rec := Record(b.workload.trials[i].kind, f.index, f.expected,
                      if f.status == 0 then Complete else AdapterFailure, order[..f.dispatched]);
    GoodRecord(b, i, f, rec, middle, reader.Rest());
    return Ok(rec);
  }

  // ------------------------------------------------------------------ the verifier

  ghost predicate Candidate(b: Binding, bytes: Bytes, records: seq<Record>)
    requires b.Valid()
  {
    Publishable(b.workload, records) && bytes == Encode(b, records)
  }

  /** Every candidate agrees with what has been parsed, and its remainder is what is left. */
  ghost predicate Agree(b: Binding, bytes: Bytes, observed: nat, parsed: seq<Record>, rest: Bytes)
    requires b.Valid()
  {
    forall rs :: Candidate(b, bytes, rs) ==>
      |rs| == observed && parsed <= rs && rest == EncodeRecords(rs[|parsed|..])
  }

  ghost predicate NoCandidate(b: Binding, bytes: Bytes)
    requires b.Valid()
  {
    forall rs :: !Candidate(b, bytes, rs)
  }

  lemma RecordsStep(rs: seq<Record>, i: nat)
    requires i < |rs|
    ensures EncodeRecords(rs[i..]) == EncodeRecord(rs[i]) + EncodeRecords(rs[i + 1..])
  {
    assert rs[i..][0] == rs[i] && rs[i..][1..] == rs[i + 1..];
  }

  /** A candidate goes on with its next record. */
  lemma CandidateNext(b: Binding, bytes: Bytes, observed: nat, parsed: seq<Record>, rest: Bytes, rs: seq<Record>)
    requires b.Valid() && Agree(b, bytes, observed, parsed, rest) && |parsed| < observed && Candidate(b, bytes, rs)
    ensures |rs| == observed && parsed == rs[..|parsed|] && IsClosed(b.workload, |parsed|, rs[|parsed|])
    ensures rest == EncodeRecord(rs[|parsed|]) + EncodeRecords(rs[|parsed| + 1..])
  {
    hide Candidate, EncodeRecord, EncodeRecords, IsClosed;
    RecordsStep(rs, |parsed|);
    CandidateClosed(b, bytes, rs, |parsed|);
  }

  lemma CandidateClosed(b: Binding, bytes: Bytes, rs: seq<Record>, i: nat)
    requires b.Valid() && Candidate(b, bytes, rs) && i < |rs|
    ensures IsClosed(b.workload, i, rs[i]) && (i + 1 < |rs| ==> rs[i].status == Complete)
  {
    hide Encode, IsClosed;
  }

  lemma NoRecordNoCandidate(b: Binding, bytes: Bytes, observed: nat, parsed: seq<Record>, rest: Bytes)
    requires b.Valid() && Agree(b, bytes, observed, parsed, rest) && |parsed| < observed && NoRecord(b, |parsed|, rest)
    ensures NoCandidate(b, bytes)
  {
    hide Candidate, Agree, EncodeRecord, EncodeRecords, IsClosed;
    forall rs ensures !Candidate(b, bytes, rs) {
      if Candidate(b, bytes, rs) {
        CandidateNext(b, bytes, observed, parsed, rest, rs);
      }
    }
  }

  lemma AgreeStep(b: Binding, bytes: Bytes, observed: nat, parsed: seq<Record>, before: Bytes, rec: Record, rest: Bytes)
    requires b.Valid() && Agree(b, bytes, observed, parsed, before) && |parsed| < observed
    requires IsClosed(b.workload, |parsed|, rec) && before == EncodeRecord(rec) + rest
    ensures Agree(b, bytes, observed, parsed + [rec], rest)
  {
    hide Candidate, EncodeRecord, EncodeRecords;
    forall rs | Candidate(b, bytes, rs)
      ensures |rs| == observed && parsed + [rec] <= rs && rest == EncodeRecords(rs[|parsed| + 1..])
    {
      CandidateNext(b, bytes, observed, parsed, before, rs);
      RecordUnique(b, |parsed|, rec, rest, rs[|parsed|], EncodeRecords(rs[|parsed| + 1..]));
      assert rs[..|parsed| + 1] == parsed + [rec];
    }
  }

  lemma {:induction false} RecordsConcat(a: seq<Record>, c: seq<Record>)
    ensures EncodeRecords(a + c) == EncodeRecords(a) + EncodeRecords(c)
  {
    if a == [] {
      assert a + c == c;
    } else {
      assert (a + c)[1..] == a[1..] + c;
      RecordsConcat(a[1..], c);
    }
  }

  lemma ParsedStep(front: Bytes, parsed: seq<Record>, rec: Record, before: Bytes, rest: Bytes)
    requires before == EncodeRecord(rec) + rest
    ensures front + EncodeRecords(parsed) + before == front + EncodeRecords(parsed + [rec]) + rest
  {
    OneRecordBytes(rec);
    hide EncodeRecords, EncodeRecord;
    RecordsConcat(parsed, [rec]);
    Shift(front, EncodeRecords(parsed), EncodeRecord(rec), rest);
  }

  lemma OneRecordBytes(rec: Record)
    ensures EncodeRecords([rec]) == EncodeRecord(rec)
  {
    hide EncodeRecord;
    assert [rec][1..] == [];
    assert EncodeRecord(rec) + [] == EncodeRecord(rec);
  }

  lemma Shift(a: Bytes, b: Bytes, c: Bytes, d: Bytes)
    ensures a + b + (c + d) == a + (b + c) + d
  {
  }

  /** Records parsed so far: closed, and complete except possibly the last of all. */
  ghost predicate ParsedTrace(w: Workload, observed: nat, parsed: seq<Record>, failed: bool)
    requires w.methods != []
  {
    && |parsed| <= observed <= |w.trials| && IsTrace(w, parsed)
    && (failed <==> Failed(parsed)) && (failed ==> |parsed| == observed)
  }

  lemma ParsedTraceStep(w: Workload, observed: nat, parsed: seq<Record>, rec: Record)
    requires w.methods != [] && ParsedTrace(w, observed, parsed, false) && |parsed| < observed
      && IsClosed(w, |parsed|, rec)
    requires rec.status == AdapterFailure ==> |parsed| + 1 == observed
    ensures ParsedTrace(w, observed, parsed + [rec], rec.status == AdapterFailure)
  {
  }

  lemma OnlyLastFails(b: Binding, bytes: Bytes, observed: nat, parsed: seq<Record>, rest: Bytes, rs: seq<Record>)
    requires b.Valid() && Agree(b, bytes, observed, parsed, rest) && 0 < |parsed| < observed && Candidate(b, bytes, rs)
    ensures parsed[|parsed| - 1].status == Complete
  {
    hide Candidate, EncodeRecords;
    CandidateClosed(b, bytes, rs, |parsed| - 1);
    assert parsed[|parsed| - 1] == rs[|parsed| - 1];
  }

  /** A failed record that is not the last fits no candidate. */
  lemma FailureMustEnd(b: Binding, bytes: Bytes, observed: nat, parsed: seq<Record>, rec: Record, rest: Bytes)
    requires b.Valid() && Agree(b, bytes, observed, parsed + [rec], rest)
    requires rec.status == AdapterFailure && |parsed| + 1 < observed
    ensures NoCandidate(b, bytes)
  {
    hide Candidate, Agree;
    forall rs ensures !Candidate(b, bytes, rs) {
      if Candidate(b, bytes, rs) {
        OnlyLastFails(b, bytes, observed, parsed + [rec], rest, rs);
      }
    }
  }

  lemma WholeCandidate(b: Binding, bytes: Bytes, parsed: seq<Record>, rest: Bytes, rs: seq<Record>)
    requires b.Valid() && Agree(b, bytes, |parsed|, parsed, rest) && Candidate(b, bytes, rs)
    ensures rs == parsed && rest == []
  {
    hide Encode, EncodeRecord, Publishable;
    assert rs[..|parsed|] == parsed;
  }

  /** At the end: nothing may be left, and without a failure no record may be missing. */
  lemma EndDecides(b: Binding, bytes: Bytes, observed: nat, parsed: seq<Record>, failed: bool, rest: Bytes)
    requires b.Valid() && Agree(b, bytes, observed, parsed, rest) && 0 < observed == |parsed|
    requires ParsedTrace(b.workload, observed, parsed, failed)
    requires bytes == Front(b, observed) + EncodeRecords(parsed) + rest
    ensures if rest == [] && (failed || observed == |b.workload.trials|) then Candidate(b, bytes, parsed)
            else NoCandidate(b, bytes)
  {
    hide EncodeRecords, Front;
    if rest == [] && (failed || observed == |b.workload.trials|) {
      assert bytes == Encode(b, parsed);
    } else {
      hide Encode, Agree;
      forall rs ensures !Candidate(b, bytes, rs) {
        if Candidate(b, bytes, rs) {
          WholeCandidate(b, bytes, parsed, rest, rs);
        }
      }
    }
  }

  /** Reads exactly the given bytes. */
  method Literal(reader: Reader, expected: Bytes) returns (r: Result<()>)
    requires reader.Valid()
    modifies reader
    ensures reader.Valid()
    ensures r.Ok? ==> old(reader.Rest()) == expected + reader.Rest()
    ensures r.Err? ==> forall rest :: old(reader.Rest()) != expected + rest
  {
    ghost var all := reader.Rest();
    var taken := reader.Take(|expected|);
    if taken.Err? {
      return Err(taken.error);
    }
    if taken.value != expected {
      forall rest ensures all != expected + rest {
        if all == expected + rest { SameHead(taken.value, reader.Rest(), expected, rest); }
      }
      return Err(InvalidArgument("binary artifact mismatch"));
    }
    return Ok(());
  }

  /** The front of a candidate, field by field. */
  lemma CandidateFront(b: Binding, bytes: Bytes, rs: seq<Record>)
    requires b.Valid() && Candidate(b, bytes, rs)
    ensures 0 < |rs| <= |b.workload.trials|
    ensures bytes == (b.domain + [0]) + (b.digest + (Word(|b.workload.trials|) + (Word(|rs|) + EncodeRecords(rs))))
  {
    hide Word, EncodeRecords, IsClosed;
    Reassociate(b.domain, [0], b.digest, Word(|b.workload.trials|), Word(|rs|), EncodeRecords(rs));
  }

  lemma Reassociate(a: Bytes, z: Bytes, d: Bytes, w: Bytes, o: Bytes, e: Bytes)
    ensures (a + z + d + w + o) + e == (a + z) + (d + (w + (o + e)))
  {
    var front := a + z;
    assert (front + d + w + o) + e == front + d + w + (o + e);
    assert front + d + w + (o + e) == front + d + (w + (o + e));
    assert front + d + (w + (o + e)) == front + (d + (w + (o + e)));
  }

  lemma BadDomain(b: Binding, bytes: Bytes)
    requires b.Valid() && forall rest :: bytes != b.domain + [0] + rest
    ensures NoCandidate(b, bytes)
  {
    hide Candidate, Word, EncodeRecords;
    forall rs ensures !Candidate(b, bytes, rs) {
      if Candidate(b, bytes, rs) { CandidateFront(b, bytes, rs); }
    }
  }

  lemma BadDigest(b: Binding, bytes: Bytes, r1: Bytes)
    requires b.Valid() && bytes == b.domain + [0] + r1 && forall rest :: r1 != b.digest + rest
    ensures NoCandidate(b, bytes)
  {
    hide Candidate, Word, EncodeRecords;
    forall rs ensures !Candidate(b, bytes, rs) {
      if Candidate(b, bytes, rs) {
        CandidateFront(b, bytes, rs);
        SameHead(b.domain + [0], r1, b.domain + [0],
            b.digest + (Word(|b.workload.trials|) + (Word(|rs|) + EncodeRecords(rs))));
      }
    }
  }

  /** What follows domain and digest in a candidate. */
  lemma AfterDigest(b: Binding, bytes: Bytes, r1: Bytes, r2: Bytes, rs: seq<Record>)
    requires b.Valid() && bytes == b.domain + [0] + r1 && r1 == b.digest + r2 && Candidate(b, bytes, rs)
    ensures 0 < |rs| <= |b.workload.trials| && r2 == Word(|b.workload.trials|) + (Word(|rs|) + EncodeRecords(rs))
  {
    hide Candidate, Word, EncodeRecords;
    CandidateFront(b, bytes, rs);
    var tail := Word(|b.workload.trials|) + (Word(|rs|) + EncodeRecords(rs));
    SameHead(b.domain + [0], r1, b.domain + [0], b.digest + tail);
    SameHead(b.digest, r2, b.digest, tail);
  }

  lemma BadCounts(b: Binding, bytes: Bytes, r1: Bytes, r2: Bytes)
    requires b.Valid() && bytes == b.domain + [0] + r1 && r1 == b.digest + r2 && |r2| < 8
    ensures NoCandidate(b, bytes)
  {
    hide Candidate, Word, EncodeRecords;
    forall rs ensures !Candidate(b, bytes, rs) {
      if Candidate(b, bytes, rs) { AfterDigest(b, bytes, r1, r2, rs); }
    }
  }

  lemma Counts(b: Binding, bytes: Bytes, r1: Bytes, r2: Bytes, expected: nat, observed: nat, rest: Bytes)
    requires b.Valid() && bytes == b.domain + [0] + r1 && r1 == b.digest + r2
    requires expected < TWO_32 && observed < TWO_32 && r2 == Word(expected) + (Word(observed) + rest)
    ensures Agree(b, bytes, observed, [], rest)
    ensures expected != |b.workload.trials| || observed == 0 || observed > expected ==> NoCandidate(b, bytes)
    ensures expected == |b.workload.trials| ==> bytes == Front(b, observed) + rest
  {
    hide Candidate, Word, EncodeRecords;
    forall rs | Candidate(b, bytes, rs)
      ensures expected == |b.workload.trials| && 0 < |rs| == observed <= expected && rest == EncodeRecords(rs[0..])
    {
      AfterDigest(b, bytes, r1, r2, rs);
      SameHead(Word(expected), Word(observed) + rest, Word(|b.workload.trials|), Word(|rs|) + EncodeRecords(rs));
      SameHead(Word(observed), rest, Word(|rs|), EncodeRecords(rs));
      WordInjective(expected, |b.workload.trials|);
      WordInjective(observed, |rs|);
      assert rs[0..] == rs;
    }
  }

  /** The fixed front: domain, terminating zero, manifest digest, expected and observed record counts. */
  method ReadFront(reader: Reader, b: Binding) returns (r: Result<nat>)
    requires b.Valid() && reader.Valid() && reader.Rest() == reader.bytes
    modifies reader
    ensures reader.Valid()
    ensures r.Err? ==> NoCandidate(b, reader.bytes)
    ensures r.Ok? ==> 0 < r.value <= |b.workload.trials| && reader.bytes == Front(b, r.value) + reader.Rest()
    ensures r.Ok? ==> Agree(b, reader.bytes, r.value, [], reader.Rest())
  {
    hide EncodeRecords, Word, Candidate;
    var bytes := reader.bytes;
    var domain := Literal(reader, b.domain + [0]);
    if domain.Err? { BadDomain(b, bytes); return Err(domain.error); }
    ghost var r1 := reader.Rest();
    var digest := Literal(reader, b.digest);
    if digest.Err? { BadDigest(b, bytes, r1); return Err(digest.error); }
    ghost var r2 := reader.Rest();
    var expected := reader.BE32();
    if expected.Err? { BadCounts(b, bytes, r1, r2); return Err(expected.error); }
    ghost var r3 := reader.Rest();
    var observed := reader.BE32();
    if observed.Err? { BadCounts(b, bytes, r1, r2); return Err(observed.error); }
    Counts(b, bytes, r1, r2, expected.value, observed.value, reader.Rest());
    if expected.value != |b.workload.trials| || observed.value == 0 || observed.value > expected.value {
      return Err(InvalidArgument("execution trace record counts are invalid"));
    }
    return Ok(observed.value);
  }

  /** VerifyExecutionTrace accepts the encodings of the publishable traces of its workload, and nothing else. */
  method VerifyExecutionTrace(bytes: Bytes, b: Binding) returns (r: Result<()>)
    requires b.Valid()
    ensures r.Ok? <==> exists records :: Publishable(b.workload, records) && bytes == Encode(b, records)
  {
    hide EncodeRecords, EncodeRecord, Candidate, IsTrace, Front, Agree, ParsedTrace, NoRecord;
    var reader := new Reader(bytes);
    var front := ReadFront(reader, b);
    if front.Err? { NoCandidateMeans(b, bytes); return Err(front.error); }
    var observed := front.value;
    var failed := false;
    ghost var parsed: seq<Record> := [];
    ParsedNothing(b, bytes, observed, reader.Rest());
    for i := 0 to observed
      invariant reader.Valid() && reader.bytes == bytes
      invariant |parsed| == i && ParsedTrace(b.workload, observed, parsed, failed)
      invariant Agree(b, bytes, observed, parsed, reader.Rest())
      invariant bytes == Front(b, observed) + EncodeRecords(parsed) + reader.Rest()
    {
      ghost var before := reader.Rest();
      StillComplete(b.workload, observed, parsed, failed);
      var record := ReadRecord(reader, b, i);
      if record.Err? {
        NoRecordNoCandidate(b, bytes, observed, parsed, before);
        NoCandidateMeans(b, bytes);
        return Err(record.error);
      }
      AgreeStep(b, bytes, observed, parsed, before, record.value, reader.Rest());
      ParsedStep(Front(b, observed), parsed, record.value, before, reader.Rest());
      if record.value.status == AdapterFailure {
        if i + 1 != observed {
          FailureMustEnd(b, bytes, observed, parsed, record.value, reader.Rest());
          NoCandidateMeans(b, bytes);
          return Err(InvalidArgument("adapter failure must terminate trace"));
        }
        failed := true;
      }
      ParsedTraceStep(b.workload, observed, parsed, record.value);
      parsed := parsed + [record.value];
    }
    EndDecides(b, bytes, observed, parsed, failed, reader.Rest());
    NoCandidateMeans(b, bytes);
    var end := reader.AtEnd();
    if !end { return Err(InvalidArgument("trailing execution trace bytes")); }
    if !failed && observed != |b.workload.trials| {
      return Err(InvalidArgument("complete execution trace is missing records"));
    }
    CandidateMeans(b, bytes, parsed);
    return Ok(());
  }

  lemma NoCandidateMeans(b: Binding, bytes: Bytes)
    requires b.Valid()
    ensures NoCandidate(b, bytes) ==> !exists records :: Publishable(b.workload, records) && bytes == Encode(b, records)
  {
    hide Publishable, Encode;
    if NoCandidate(b, bytes) {
      forall records ensures !(Publishable(b.workload, records) && bytes == Encode(b, records)) {
        assert !Candidate(b, bytes, records);
      }
    }
  }

  lemma CandidateMeans(b: Binding, bytes: Bytes, records: seq<Record>)
    requires b.Valid() && Candidate(b, bytes, records)
    ensures Publishable(b.workload, records) && bytes == Encode(b, records)
  {
  }

  lemma ParsedNothing(b: Binding, bytes: Bytes, observed: nat, rest: Bytes)
    requires b.Valid() && bytes == Front(b, observed) + rest && observed <= |b.workload.trials|
    ensures ParsedTrace(b.workload, observed, [], false) && bytes == Front(b, observed) + EncodeRecords([]) + rest
  {
  }

  lemma StillComplete(w: Workload, observed: nat, parsed: seq<Record>, failed: bool)
    requires w.methods != [] && ParsedTrace(w, observed, parsed, failed) && |parsed| < observed
    ensures !failed && |parsed| < |w.trials|
  {
  }

  // ------------------------------------------------------------------ the writer

  method AppendTexts(out: Bytes, names: seq<Text>) returns (bytes: Bytes)
    ensures bytes == out + EncodeTexts(names)
  {
    hide EncodeTexts, EncodeText;
    bytes := out;
    NoTexts(names);
    for j := 0 to |names|
      invariant bytes == out + EncodeTexts(names[..j])
    {
      TextsStep(names, j);
      bytes := bytes + EncodeText(names[j]);
    }
    assert names[..|names|] == names;
  }

  method AppendRecords(out: Bytes, records: seq<Record>) returns (bytes: Bytes)
    ensures bytes == out + EncodeRecords(records)
  {
    hide EncodeRecords, EncodeTexts;
    bytes := out;
    NoRecords(records);
    for i := 0 to |records|
      invariant bytes == out + EncodeRecords(records[..i])
    {
      OneRecord(records, i);
      bytes := bytes + HeadOf(records[i]);
      bytes := AppendTexts(bytes, records[i].dispatched);
    }
    assert records[..|records|] == records;
  }

  lemma NoRecords(records: seq<Record>)
    ensures EncodeRecords(records[..0]) == []
  {
  }

  lemma OneRecord(records: seq<Record>, i: nat)
    requires i < |records|
    ensures EncodeRecords(records[..i + 1])
      == EncodeRecords(records[..i]) + (HeadOf(records[i]) + EncodeTexts(records[i].dispatched))
  {
    assert records[..i + 1] == records[..i] + [records[i]];
    RecordsConcat(records[..i], [records[i]]);
    OneRecordBytes(records[i]);
    hide EncodeRecords;
  }

  /**
   SerializeAndVerify: refused while a record is open, or when the trace is neither
   complete nor failed; otherwise the encoding, which its own verification always accepts.
   */
  method SerializeAndVerify(trace: ExecutionTrace, b: Binding) returns (r: Result<Bytes>)
    requires trace.Valid() && b.Valid() && trace.workload == b.workload
    ensures r.Ok? <==> trace.current.None? && Publishable(b.workload, trace.records)
    ensures r.Err? ==> r.error.LogicError?
    ensures r.Ok? ==> r.value == Encode(b, trace.records)
  {
    if trace.current.Some? {
      return Err(LogicError("cannot serialize an open trace record"));
    }
    var records := trace.records;
    var complete := |records| == |b.workload.trials|;
    var failed := |records| > 0 && records[|records| - 1].status == AdapterFailure;
    if !complete && !failed {
      return Err(LogicError("execution trace is incomplete without failure"));
    }
    var out := b.domain + [0] + b.digest + Word(|b.workload.trials|) + Word(|records|);
    out := AppendRecords(out, records);
    assert out == Encode(b, records);
    var verified := VerifyExecutionTrace(out, b);
    assert verified.Ok?;
    return Ok(out);
  }
}
