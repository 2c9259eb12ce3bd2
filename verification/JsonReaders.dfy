/**
 The field readers of `benchmarks/bench_fhe_ind.cpp` and their exact agreement with
 the printer: which values survive a round trip, and that all others are refused.
 */
module JsonReaders {
  import opened Wrappers
  import opened Json

  /** A reader either returns the specified value or rejects its input. */
  ghost predicate Agrees<T(!new)>(r: Result<T>, spec: Option<T>) {
    match spec
    case Some(v) => r == Ok(v)
    case None => r.Err? && r.error.InvalidArgument?
  }

  predicate IsSpace(c: char) {
    c == ' ' || c == '\n' || c == '\r' || c == '\t'
  }

  // ------------------------------------------------------------------ strings

  function Unescape(c: char): Option<char> {
    if c == '\"' || c == '\\' || c == '/' then Some(c)
    else if c == 'b' then Some(8 as char)
    else if c == 'f' then Some(12 as char)
    else if c == 'n' then Some('\n')
    else if c == 'r' then Some('\r')
    else if c == 't' then Some('\t')
    else None
  }

  function Prepend(v: string, r: Option<string>): Option<string> {
    if r.Some? then Some(v + r.value) else None
  }

  /** The string whose body starts the text, up to its closing quote. */
  function ScanString(s: string): Option<string> {
    if s == [] then None
    else if s[0] == '\"' then Some("")
    else if s[0] != '\\' then Prepend([s[0]], ScanString(s[1..]))
    else if |s| < 2 || Unescape(s[1]).None? then None
    else Prepend([Unescape(s[1]).value], ScanString(s[2..]))
  }

  function StringField(json: string, key: string): Option<string> {
    var position := KeyPosition(json, key);
    if position.Err? || position.value >= |json| || json[position.value] != '\"' then None
    else ScanString(json[position.value + 1..])
  }

  lemma ScanFront(json: string, at: nat)
    requires at <= |json|
    ensures at < |json| ==> json[at..][0] == json[at] && json[at..][1..] == json[at + 1..]
    ensures at + 1 < |json| ==> json[at..][1] == json[at + 1] && json[at..][2..] == json[at + 2..]
  {
  }

  lemma PrependTwice(a: string, b: string, r: Option<string>)
    ensures Prepend(a, Prepend(b, r)) == Prepend(a + b, r)
  {
    if r.Some? { assert a + (b + r.value) == a + b + r.value; }
  }

  method JsonStringField(json: string, key: string) returns (r: Result<string>)
    ensures Agrees(r, StringField(json, key))
  {
    var found := JsonKeyPosition(json, key);
    if found.Err? {
      return Err(InvalidArgument("workload JSON key is missing/duplicated: " + key));
    }
    var position := found.value;
    if position >= |json| || json[position] != '\"' {
      return Err(InvalidArgument("workload JSON field is not a string: " + key));
    }
    position := position + 1;
    r := ScanFrom(json, position);
  }

  method ScanFrom(json: string, start: nat) returns (r: Result<string>)
    requires start <= |json|
    ensures Agrees(r, ScanString(json[start..]))
  {
    var position, value := start, "";
    PrependNothing(ScanString(json[start..]));
    while position < |json|
      invariant start <= position <= |json|
      invariant ScanString(json[start..]) == Prepend(value, ScanString(json[position..]))
    {
      var ch := json[position];
      ScanFront(json, position);
      if ch == '\"' {
        assert value + "" == value;
        return Ok(value);
      }
      if ch != '\\' {
        PrependTwice(value, [ch], ScanString(json[position + 1..]));
        position, value := position + 1, value + [ch];
        continue;
      }
      if position + 1 >= |json| { break; }
      var escaped := Unescape(json[position + 1]);
      if escaped.None? {
        return Err(InvalidArgument("unsupported workload JSON escape"));
      }
      PrependTwice(value, [escaped.value], ScanString(json[position + 2..]));
      position, value := position + 2, value + [escaped.value];
    }
    return Err(InvalidArgument("unterminated workload JSON string"));
  }

  lemma PrependNothing(r: Option<string>)
    ensures Prepend("", r) == r
  {
    if r.Some? { assert "" + r.value == r.value; }
  }

  /** Control characters only among the three that have a readable escape. */
  predicate Readable(s: string) {
    forall i :: 0 <= i < |s| ==> IsControl(s[i]) ==> s[i] == '\n' || s[i] == '\r' || s[i] == '\t'
  }

  /** Scanning one printed character. */
  lemma ScanChar(c: char, rest: string)
    ensures ScanString(EscapeChar(c) + rest) ==
      if IsControl(c) && c != '\n' && c != '\r' && c != '\t' then None else Prepend([c], ScanString(rest))
  {
    var e := EscapeChar(c);
    if |e| == 1 {
      ScanPlain(c, rest);
    } else {
      var more := e[2..] + rest;
      ScanEscaped(e[1], more);
      hide ScanString;
      SplitEscape(e, rest);
      if |e| == 2 { assert more == rest; }
    }
  }

  lemma SplitEscape(e: string, rest: string)
    requires |e| >= 2
    ensures e + rest == [e[0], e[1]] + (e[2..] + rest)
  {
  }

  lemma ScanPlain(c: char, rest: string)
    requires c != '\"' && c != '\\'
    ensures ScanString([c] + rest) == Prepend([c], ScanString(rest))
  {
    assert ([c] + rest)[1..] == rest;
  }

  lemma ScanEscaped(x: char, rest: string)
    ensures ScanString(['\\', x] + rest) ==
      if Unescape(x).None? then None else Prepend([Unescape(x).value], ScanString(rest))
  {
    hide Unescape;
    assert (['\\', x] + rest)[2..] == rest;
  }

  /** Scanning a printed string gives it back, or fails, depending on its characters only. */
  lemma {:induction false} ScanPrinted(s: string, more: string)
    ensures ScanString(EscapeBody(s) + "\"" + more) == if Readable(s) then Some(s) else None
  {
    hide ScanString, EscapeChar;
    if s == [] {
      ScanEnd(more);
      assert EscapeBody(s) + "\"" + more == "\"" + more;
    } else {
      var rest := EscapeBody(s[1..]) + "\"" + more;
      assert EscapeBody(s) + "\"" + more == EscapeChar(s[0]) + rest;
      ScanChar(s[0], rest);
      ScanPrinted(s[1..], more);
      assert s == [s[0]] + s[1..];
    }
  }

  lemma ScanEnd(more: string)
    ensures ScanString("\"" + more) == Some("")
  {
  }

  /** A printed string field reads back exactly when it is readable; otherwise it is refused. */
  lemma StringFieldExact(fields: seq<Entry>, i: nat, s: string)
    requires Flat(fields) && DistinctKeys(fields) && i < |fields| && fields[i].text == Quoted(s)
    ensures StringField(Print(fields), fields[i].key) == if Readable(s) then Some(s) else None
  {
    hide Flat, DistinctKeys, Print, Behind, Offset;
    KeySearchExact(fields, fields[i].key, i);
    var json, at := Print(fields), KeyPosition(Print(fields), fields[i].key).value;
    var behind := Behind(fields, i);
    QuotedThen(json, at, s, behind);
    ScanPrinted(s, behind);
  }

  lemma QuotedThen(json: string, at: nat, s: string, behind: string)
    requires at <= |json| && json[at..] == Quoted(s) + behind
    ensures at < |json| && json[at] == '\"' && json[at + 1..] == EscapeBody(s) + "\"" + behind
  {
    assert json[at..][0] == '\"';
    assert json[at + 1..] == json[at..][1..];
    assert Quoted(s) + behind == "\"" + (EscapeBody(s) + "\"" + behind);
  }

  // ------------------------------------------------------------------ scalars

  predicate IsStop(c: char) {
    c == ',' || c == '}' || c == '\n'
  }

  function SkipSpace(s: string): (r: string)
    ensures |r| <= |s| && (r != [] ==> !IsSpace(r[0]))
  {
    if s == [] || !IsSpace(s[0]) then s else SkipSpace(s[1..])
  }

  /** The text before the first stop character, None when there is none. */
  function UpToStop(s: string): Option<string> {
    if s == [] then None
    else if IsStop(s[0]) then Some("")
    else Prepend([s[0]], UpToStop(s[1..]))
  }

  predicate IsTrailing(c: char) {
    c == ' ' || c == '\r' || c == '\t'
  }

  function Trim(s: string): (r: string)
    ensures r <= s && (r != [] ==> !IsTrailing(r[|r| - 1]))
  {
    if s == [] || !IsTrailing(s[|s| - 1]) then s else Trim(s[..|s| - 1])
  }

  function ScalarField(json: string, key: string): Option<string> {
    var position := KeyPosition(json, key);
    if position.Err? || position.value > |json| then None else
      var value := UpToStop(SkipSpace(json[position.value..]));
      if value.None? then None else Some(Trim(value.value))
  }

  method SkipSpaces(json: string, start: nat) returns (position: nat)
    requires start <= |json|
    ensures start <= position <= |json| && json[position..] == SkipSpace(json[start..])
  {
    position := start;
    while position < |json| && IsSpace(json[position])
      invariant start <= position <= |json| && SkipSpace(json[position..]) == SkipSpace(json[start..])
    {
      ScanFront(json, position);
      position := position + 1;
    }
    ScanFront(json, position);
  }

  method FindStop(json: string, position: nat) returns (end: Option<nat>)
    requires position <= |json|
    ensures end.None? <==> UpToStop(json[position..]).None?
    ensures end.Some? ==>
      position <= end.value <= |json|
      && UpToStop(json[position..]) == Some(json[position..end.value])
  {
    var at := position;
    PrependNothing(UpToStop(json[position..]));
    assert json[position..at] == "";
    while at < |json|
      invariant position <= at <= |json|
      invariant UpToStop(json[position..]) == Prepend(json[position..at], UpToStop(json[at..]))
    {
      ScanFront(json, at);
      if IsStop(json[at]) {
        assert json[position..at] + "" == json[position..at];
        return Some(at);
      }
      PrependTwice(json[position..at], [json[at]], UpToStop(json[at + 1..]));
      assert json[position..at] + [json[at]] == json[position..at + 1];
      at := at + 1;
    }
    return None;
  }

  method JsonScalarField(json: string, key: string) returns (r: Result<string>)
    ensures Agrees(r, ScalarField(json, key))
  {
    var found := JsonKeyPosition(json, key);
    if found.Err? || found.value > |json| {
      return Err(InvalidArgument("workload JSON key is missing/duplicated: " + key));
    }
    var position := SkipSpaces(json, found.value);
    var end := FindStop(json, position);
    if end.None? {
      return Err(InvalidArgument("unterminated workload JSON scalar: " + key));
    }
    var value := json[position..end.value];
    ghost var whole := value;
    while value != [] && IsTrailing(value[|value| - 1])
      invariant Trim(value) == Trim(whole)
      decreases |value|
    {
      value := value[..|value| - 1];
    }
    return Ok(value);
  }

  /** No stop character anywhere, no white space in front or behind. */
  predicate PlainScalar(v: string) {
    && (forall i :: 0 <= i < |v| ==> !IsStop(v[i]))
    && (v != [] ==> !IsSpace(v[0]) && !IsTrailing(v[|v| - 1]))
  }

  lemma {:induction false} StopBehind(v: string, behind: string)
    requires behind != [] && IsStop(behind[0]) && forall i :: 0 <= i < |v| ==> !IsStop(v[i])
    ensures UpToStop(v + behind) == Some(v)
  {
    if v == [] {
      assert v + behind == behind;
    } else {
      assert (v + behind)[1..] == v[1..] + behind;
      StopBehind(v[1..], behind);
      assert v == [v[0]] + v[1..];
    }
  }

  /** A stop character inside cuts the value short. */
  lemma {:induction false} StopInside(v: string, behind: string, i: nat)
    requires i < |v| && IsStop(v[i])
    ensures UpToStop(v + behind).Some? && |UpToStop(v + behind).value| <= i
  {
    if !IsStop(v[0]) {
      assert (v + behind)[1..] == v[1..] + behind;
      StopInside(v[1..], behind, i - 1);
    }
  }

  // ------------------------------------------------------------------ inputs the printer does not write

  /** Blanks, as the readers skip them in front of a value. */
  ghost predicate AreBlanks(s: string) {
    forall i :: 0 <= i < |s| ==> s[i] in " \n\r\t"
  }

  lemma {:induction false} BlanksSkipped(blanks: string, rest: string)
    requires AreBlanks(blanks) && (rest != [] ==> rest[0] !in " \n\r\t")
    ensures SkipSpace(blanks + rest) == rest
  {
    if blanks == [] {
      assert blanks + rest == rest;
    } else {
      assert (blanks + rest)[1..] == blanks[1..] + rest;
      BlanksSkipped(blanks[1..], rest);
    }
  }

  lemma {:induction false} TrailingTrimmed(v: string, trailing: string)
    requires (forall i :: 0 <= i < |trailing| ==> trailing[i] in " \r\t") && (v != [] ==> v[|v| - 1] !in " \r\t")
    ensures Trim(v + trailing) == v
  {
    if trailing == [] {
      assert v + trailing == v;
    } else {
      assert (v + trailing)[..|v + trailing| - 1] == v + trailing[..|trailing| - 1];
      TrailingTrimmed(v, trailing[..|trailing| - 1]);
    }
  }

  /**
   A scalar with blanks around it: behind the key come blanks, the value, spaces, tabs or
   returns, and one of comma, closing brace and newline; the value itself is returned.
   */
  lemma ScalarReads(json: string, key: string, at: nat, blanks: string, v: string, trailing: string, behind: string)
    requires KeyPosition(json, key) == Ok(at) && at <= |json| && json[at..] == blanks + (v + trailing + behind)
    requires AreBlanks(blanks) && behind != [] && behind[0] in ",}\n"
    requires v != [] && v[0] !in " \n\r\t" && v[|v| - 1] !in " \r\t"
    requires forall i :: 0 <= i < |v| ==> v[i] !in ",}\n"
    requires forall i :: 0 <= i < |trailing| ==> trailing[i] in " \r\t"
    ensures ScalarField(json, key) == Some(v)
  {
    var text := v + trailing;
    assert v + trailing + behind == text + behind && (text + behind)[0] == v[0];
    BlanksSkipped(blanks, text + behind);
    forall i | 0 <= i < |text| ensures !IsStop(text[i]) {
      if i >= |v| { assert text[i] == trailing[i - |v|]; }
    }
    StopBehind(text, behind);
    TrailingTrimmed(v, trailing);
  }

  /** Without a comma, closing brace or newline behind the key there is no scalar. */
  lemma {:induction false} NoStopNoScalar(s: string)
    requires forall i :: 0 <= i < |s| ==> s[i] !in ",}\n"
    ensures UpToStop(s).None?
  {
    if s != [] { NoStopNoScalar(s[1..]); }
  }

  /** The escapes of a string field, and that no other is read. */
  lemma EscapeTable(c: char)
    ensures c in "\"\\/" ==> Unescape(c) == Some(c)
    ensures c in "bfnrt" ==> Unescape(c) == Some(if c == 'b' then 8 as char else if c == 'f' then 12 as char
                                                else if c == 'n' then 10 as char else if c == 'r' then 13 as char
                                                else 9 as char)
    ensures c !in "\"\\/bfnrt" ==> Unescape(c) == None
  {
  }

  /** What the reader makes of v in front of a stop character. */
  function ReadScalar(s: string): Option<string> {
    var value := UpToStop(SkipSpace(s));
    if value.None? then None else Some(Trim(value.value))
  }

  lemma {:induction false} UpToStopShorter(s: string)
    ensures UpToStop(s).Some? ==> |UpToStop(s).value| < |s|
  {
    if s != [] && !IsStop(s[0]) { UpToStopShorter(s[1..]); }
  }

  lemma {:induction false} SkipShorter(v: string, behind: string)
    requires v != [] && IsSpace(v[0]) && behind != [] && IsStop(behind[0]) && !IsSpace(behind[0])
    ensures ReadScalar(v + behind).Some? ==> |ReadScalar(v + behind).value| < |v|
  {
    var rest := SkipSpace(v + behind);
    assert (v + behind)[1..] == v[1..] + behind;
    SkipBound(v[1..], behind);
    var w :| rest == w + behind && |w| <= |v| - 1;
    if exists i :: 0 <= i < |w| && IsStop(w[i]) {
      var i :| 0 <= i < |w| && IsStop(w[i]);
      StopInside(w, behind, i);
    } else {
      StopBehind(w, behind);
    }
  }

  /** Skipping in front of a non-space separator eats only the value. */
  lemma {:induction false} SkipBound(v: string, behind: string)
    requires behind != [] && !IsSpace(behind[0])
    ensures exists w: string :: SkipSpace(v + behind) == w + behind && |w| <= |v|
  {
    if v == [] {
      assert v + behind == [] + behind;
    } else if IsSpace(v[0]) {
      assert (v + behind)[1..] == v[1..] + behind;
      SkipBound(v[1..], behind);
    } else {
      assert SkipSpace(v + behind) == v + behind;
    }
  }

  lemma ReadScalarExact(v: string, behind: string)
    requires behind != [] && (behind[0] == ',' || behind[0] == '}')
    ensures ReadScalar(v + behind) == Some(v) <==> PlainScalar(v)
  {
    if v != [] && IsSpace(v[0]) {
      SkipShorter(v, behind);
    } else {
      SkipNothing(v, behind);
      if exists i :: 0 <= i < |v| && IsStop(v[i]) {
        var i :| 0 <= i < |v| && IsStop(v[i]);
        StopInside(v, behind, i);
      } else {
        StopBehind(v, behind);
      }
    }
  }

  lemma SkipNothing(v: string, behind: string)
    requires behind != [] && !IsSpace(behind[0]) && (v != [] ==> !IsSpace(v[0]))
    ensures SkipSpace(v + behind) == v + behind
  {
  }

  /** A field's text reads back as a scalar if and only if it is plain: every number and boolean is. */
  lemma ScalarFieldExact(fields: seq<Entry>, i: nat)
    requires Flat(fields) && DistinctKeys(fields) && i < |fields|
    ensures ScalarField(Print(fields), fields[i].key) == Some(fields[i].text) <==> PlainScalar(fields[i].text)
  {
    hide Flat, DistinctKeys, Print, Offset, Tail, UpToStop, SkipSpace, Trim, PlainScalar;
    KeySearchExact(fields, fields[i].key, i);
    ReadScalarExact(fields[i].text, Behind(fields, i));
  }

  // ------------------------------------------------------------------ arrays of strings

  predicate IsGap(c: char) {
    IsSpace(c) || c == ','
  }

  function SkipGaps(s: string): (r: string)
    ensures |r| <= |s| && (r != [] ==> !IsGap(r[0]))
  {
    if s == [] || !IsGap(s[0]) then s else SkipGaps(s[1..])
  }

  datatype Scanned = Scanned(value: string, rest: string)

  /** One array entry: only quote, backslash and slash may be escaped. */
  function ScanEntry(s: string): (r: Option<Scanned>)
    ensures r.Some? ==> |r.value.rest| < |s|
  {
    if s == [] then None
    else if s[0] == '\"' then Some(Scanned("", s[1..]))
    else if s[0] != '\\' then Lead(s[0], ScanEntry(s[1..]))
    else if |s| < 2 || !(s[1] == '\"' || s[1] == '\\' || s[1] == '/') then None
    else Lead(s[1], ScanEntry(s[2..]))
  }

  function Lead(c: char, r: Option<Scanned>): Option<Scanned> {
    if r.Some? then Some(Scanned([c] + r.value.value, r.value.rest)) else None
  }

  function ScanArray(s: string): Option<seq<string>>
    decreases |s|
  {
    var t := SkipGaps(s);
    if t == [] then None
    else if t[0] == ']' then Some([])
    else if t[0] != '\"' || ScanEntry(t[1..]).None? then None
    else
      var entry := ScanEntry(t[1..]).value;
      var others := ScanArray(entry.rest);
      if others.Some? then Some([entry.value] + others.value) else None
  }

  function ArrayField(json: string, key: string): Option<seq<string>> {
    var position := KeyPosition(json, key);
    if position.Err? || position.value > |json| then None else
      var t := SkipSpace(json[position.value..]);
      if t == [] || t[0] != '[' then None else ScanArray(t[1..])
  }

  method SkipGapsFrom(json: string, start: nat) returns (position: nat)
    requires start <= |json|
    ensures start <= position <= |json| && json[position..] == SkipGaps(json[start..])
  {
    position := start;
    while position < |json| && IsGap(json[position])
      invariant start <= position <= |json| && SkipGaps(json[position..]) == SkipGaps(json[start..])
    {
      ScanFront(json, position);
      position := position + 1;
    }
    ScanFront(json, position);
  }

  ghost function Led(value: string, r: Option<Scanned>): Option<Scanned> {
    if r.Some? then Some(Scanned(value + r.value.value, r.value.rest)) else None
  }

  lemma LedOnce(value: string, c: char, r: Option<Scanned>)
    ensures Led(value, Lead(c, r)) == Led(value + [c], r)
  {
    if r.Some? { assert value + ([c] + r.value.value) == value + [c] + r.value.value; }
  }

  method ScanEntryFrom(json: string, start: nat) returns (r: Result<(string, nat)>)
    requires start <= |json|
    ensures ScanEntry(json[start..]).None? ==> r.Err? && r.error.InvalidArgument?
    ensures ScanEntry(json[start..]).Some? ==> r.Ok?
    ensures r.Ok? ==>
      start < r.value.1 <= |json|
      && ScanEntry(json[start..]) == Some(Scanned(r.value.0, json[r.value.1..]))
  {
    hide ScanEntry;
    var position, value := start, "";
    assert Led("", ScanEntry(json[start..])) == ScanEntry(json[start..]) by { LedNothing(ScanEntry(json[start..])); }
    while position < |json|
      invariant start <= position <= |json|
      invariant ScanEntry(json[start..]) == Led(value, ScanEntry(json[position..]))
    {
      var ch := json[position];
      ScanEntryAt(json, position);
      if ch == '\"' {
        assert value + "" == value;
        return Ok((value, position + 1));
      }
      if ch == '\\' {
        if position + 1 >= |json| { break; }
        var escaped := json[position + 1];
        if !(escaped == '\"' || escaped == '\\' || escaped == '/') {
          return Err(InvalidArgument("unsupported workload JSON array escape"));
        }
        LedOnce(value, escaped, ScanEntry(json[position + 2..]));
        position, value := position + 2, value + [escaped];
      } else {
        LedOnce(value, ch, ScanEntry(json[position + 1..]));
        position, value := position + 1, value + [ch];
      }
    }
    ScanEntryOut(json, position);
    return Err(InvalidArgument("unterminated workload JSON array"));
  }

  /** One step of an entry scan, in terms of positions. */
  lemma ScanEntryAt(json: string, at: nat)
    requires at < |json|
    ensures json[at] == '\"' ==> ScanEntry(json[at..]) == Some(Scanned("", json[at + 1..]))
    ensures json[at] != '\"' && json[at] != '\\' ==> ScanEntry(json[at..]) == Lead(json[at], ScanEntry(json[at + 1..]))
    ensures json[at] == '\\' && at + 1 < |json| ==>
              (ScanEntry(json[at..]) ==
               if json[at + 1] in ['\"', '\\', '/'] then Lead(json[at + 1], ScanEntry(json[at + 2..])) else None)
  {
    ScanFront(json, at);
  }

  lemma ScanEntryOut(json: string, at: nat)
    requires at <= |json| && (at < |json| ==> json[at] == '\\' && at + 1 >= |json|)
    ensures ScanEntry(json[at..]) == None
  {
  }

  lemma LedNothing(r: Option<Scanned>)
    ensures Led("", r) == r
  {
    if r.Some? { assert "" + r.value.value == r.value.value; }
  }

  ghost function After(values: seq<string>, r: Option<seq<string>>): Option<seq<string>> {
    if r.Some? then Some(values + r.value) else None
  }

  method JsonStringArrayField(json: string, key: string) returns (r: Result<seq<string>>)
    ensures Agrees(r, ArrayField(json, key))
  {
    var found := JsonKeyPosition(json, key);
    if found.Err? || found.value > |json| {
      return Err(InvalidArgument("workload JSON key is missing/duplicated: " + key));
    }
    var position := SkipSpaces(json, found.value);
    ScanFront(json, position);
    if position >= |json| || json[position] != '[' {
      return Err(InvalidArgument("workload JSON field is not an array: " + key));
    }
    r := ScanEntriesFrom(json, position + 1);
  }

  method ScanEntriesFrom(json: string, start: nat) returns (r: Result<seq<string>>)
    requires start <= |json|
    ensures Agrees(r, ScanArray(json[start..]))
  {
    var position := start;
    var values: seq<string> := [];
    AfterNothing(ScanArray(json[start..]));
    while position < |json|
      invariant start <= position <= |json|
      invariant ScanArray(json[start..]) == After(values, ScanArray(json[position..]))
      decreases |json| - position
    {
      var at := SkipGapsFrom(json, position);
      ScanFront(json, at);
      if at < |json| && json[at] == ']' {
        assert values + [] == values;
        return Ok(values);
      }
      if at >= |json| || json[at] != '\"' {
        return Err(InvalidArgument("workload JSON array entry is not a string"));
      }
      var entry := ScanEntryFrom(json, at + 1);
      if entry.Err? {
        return Err(entry.error);
      }
      AfterOnce(values, entry.value.0, ScanArray(json[entry.value.1..]));
      position, values := entry.value.1, values + [entry.value.0];
    }
    return Err(InvalidArgument("unterminated workload JSON array"));
  }

  lemma AfterNothing(r: Option<seq<string>>)
    ensures After([], r) == r
  {
    if r.Some? { assert [] + r.value == r.value; }
  }

  lemma AfterOnce(values: seq<string>, v: string, r: Option<seq<string>>)
    ensures r.Some? ==> After(values, Some([v] + r.value)) == After(values + [v], r)
  {
    if r.Some? { assert values + ([v] + r.value) == values + [v] + r.value; }
  }

  // ------------------------------------------------------------------ printed arrays

  /** No control character: the array reader knows no escape for any of them. */
  predicate Printable(s: string) {
    forall i :: 0 <= i < |s| ==> !IsControl(s[i])
  }

  lemma ScanEntryChar(c: char, rest: string)
    ensures ScanEntry(EscapeChar(c) + rest) == if IsControl(c) then None else Lead(c, ScanEntry(rest))
  {
    var e := EscapeChar(c);
    var text := e + rest;
    assert text[0] == e[0] && |e| >= 1;
    if |e| == 1 {
      assert text[1..] == rest;
    } else {
      assert text[1] == e[1];
      if |e| == 2 { assert text[2..] == rest; }
    }
  }

  lemma ScanEntryEnd(more: string)
    ensures ScanEntry("\"" + more) == Some(Scanned("", more))
  {
  }

  lemma {:induction false} ScanEntryPrinted(s: string, more: string)
    ensures ScanEntry(EscapeBody(s) + "\"" + more) == if Printable(s) then Some(Scanned(s, more)) else None
  {
    hide ScanEntry, EscapeChar;
    if s == [] {
      ScanEntryEnd(more);
      assert EscapeBody(s) + "\"" + more == "\"" + more;
    } else {
      var rest := EscapeBody(s[1..]) + "\"" + more;
      assert EscapeBody(s) + "\"" + more == EscapeChar(s[0]) + rest;
      ScanEntryChar(s[0], rest);
      ScanEntryPrinted(s[1..], more);
      assert s == [s[0]] + s[1..];
    }
  }

  /** A comma in front changes nothing. */
  lemma ScanArrayComma(s: string)
    ensures ScanArray("," + s) == ScanArray(s)
  {
    assert ("," + s)[1..] == s;
  }

  /** A quoted entry followed by anything. */
  lemma ScanArrayEntry(v: string, rest: string)
    ensures ScanArray(Quoted(v) + rest) == if Printable(v) then After([v], ScanArray(rest)) else None
  {
    var text := Quoted(v) + rest;
    assert text == "\"" + (EscapeBody(v) + "\"" + rest);
    assert text[0] == '\"' && text[1..] == EscapeBody(v) + "\"" + rest;
    ScanEntryPrinted(v, rest);
  }

  predicate AllPrintable(values: seq<string>) {
    forall i :: 0 <= i < |values| ==> Printable(values[i])
  }

  lemma ScanArrayEnd(more: string)
    ensures ScanArray("]" + more) == Some([])
  {
  }

  lemma {:induction false} ScanElements(values: seq<string>, more: string)
    ensures ScanArray(Elements(values) + more) == if AllPrintable(values) then Some(values) else None
  {
    hide ScanArray, Quoted, Printable;
    if values == [] {
      ScanArrayEnd(more);
    } else {
      var rest := if |values| == 1 then "]" + more else "," + (Elements(values[1..]) + more);
      assert Elements(values) + more == Quoted(values[0]) + rest;
      ScanArrayEntry(values[0], rest);
      assert values == [values[0]] + values[1..];
      if |values| == 1 {
        ScanArrayEnd(more);
      } else {
        ScanArrayComma(Elements(values[1..]) + more);
        ScanElements(values[1..], more);
      }
    }
  }

  /** A printed array reads back exactly when no entry has a control character; otherwise it is refused. */
  lemma ArrayFieldExact(fields: seq<Entry>, i: nat, values: seq<string>)
    requires Flat(fields) && DistinctKeys(fields) && i < |fields| && fields[i].text == Array(values)
    ensures ArrayField(Print(fields), fields[i].key) == if AllPrintable(values) then Some(values) else None
  {
    hide Flat, DistinctKeys, Print, Behind, Offset, ScanArray, Elements, AllPrintable;
    KeySearchExact(fields, fields[i].key, i);
    var json, at := Print(fields), KeyPosition(Print(fields), fields[i].key).value;
    var behind := Behind(fields, i);
    BracketFirst(values, behind);
    ScanElements(values, behind);
  }

  lemma BracketFirst(values: seq<string>, behind: string)
    ensures var t := Array(values) + behind; SkipSpace(t) == t && t[0] == '[' && t[1..] == Elements(values) + behind
  {
    hide Elements;
  }

  /** Blanks and commas between array entries, in front of the first and behind the last, are skipped. */
  lemma {:induction false} GapsSkipped(gaps: string, rest: string)
    requires forall i :: 0 <= i < |gaps| ==> gaps[i] in " \n\r\t,"
    ensures ScanArray(gaps + rest) == ScanArray(rest)
  {
    if gaps == [] {
      assert gaps + rest == rest;
    } else {
      assert (gaps + rest)[1..] == gaps[1..] + rest;
      GapsSkipped(gaps[1..], rest);
      assert SkipGaps(gaps + rest) == SkipGaps(gaps[1..] + rest);
    }
  }

  /** An array with blanks in front of its bracket. */
  lemma ArrayReads(json: string, key: string, at: nat, blanks: string, rest: string)
    requires KeyPosition(json, key) == Ok(at) && at <= |json| && json[at..] == blanks + ("[" + rest)
      && AreBlanks(blanks)
    ensures ArrayField(json, key) == ScanArray(rest)
  {
    hide ScanArray;
    BlanksSkipped(blanks, "[" + rest);
    assert ("[" + rest)[0] == '[' && ("[" + rest)[1..] == rest;
  }

  /** An entry that is not a string, or no closing bracket, is refused. */
  lemma ArrayRefuses(rest: string)
    ensures rest == "" ==> ScanArray(rest) == None
    ensures rest != "" && rest[0] !in " \n\r\t,\"]" ==> ScanArray(rest) == None
  {
  }

  /** In an array entry only quote, backslash and slash may be escaped. */
  lemma EntryEscapes(c: char, rest: string)
    ensures ScanEntry(['\\', c] + rest) == if c in "\"\\/" then Lead(c, ScanEntry(rest)) else None
  {
    assert (['\\', c] + rest)[2..] == rest;
  }

  // ------------------------------------------------------------------ the whole object

  /** What the Add functions can store, other than nested objects. */
  datatype JsonValue = JsonString(s: string) | JsonScalar(text: string) | JsonArray(values: seq<string>)

  function Text(v: JsonValue): string {
    match v case JsonString(s) => Quoted(s) case JsonScalar(t) => t case JsonArray(vs) => Array(vs)
  }

  /** Numbers and booleans contain no quote. */
  ghost predicate Plausible(v: JsonValue) {
    v.JsonScalar? ==> v.text != [] && forall i :: 0 <= i < |v.text| ==> v.text[i] != '\"'
  }

  /** Fields with identifier keys and such values form a flat object. */
  lemma ObjectsAreFlat(keys: seq<string>, values: seq<JsonValue>, fields: seq<Entry>)
    requires |keys| == |values| == |fields|
    requires forall i :: 0 <= i < |keys| ==> fields[i] == Entry(keys[i], Text(values[i]))
    requires forall i :: 0 <= i < |keys| ==> IsIdentifier(keys[i]) && Plausible(values[i])
    ensures Flat(fields)
  {
    forall i | 0 <= i < |fields| ensures fields[i].text != [] && Quiet(fields[i].text) {
      assert Plausible(values[i]);
      match values[i]
      case JsonString(s) => QuotedQuiet(s);
      case JsonArray(vs) => ArrayQuiet(vs);
      case JsonScalar(t) =>
    }
  }

  // ------------------------------------------------------------------ from the object back to its strings

  /** A stored string is read back from the printed object, or refused for its characters only. */
  lemma StoredStringReads(fields: seq<Entry>, key: string, s: string)
    requires InKeyOrder(fields) && Flat(fields) && Entry(key, Quoted(s)) in fields
    ensures StringField(Print(fields), key) == if Readable(s) then Some(s) else None
  {
    hide InKeyOrder, Flat, Print, Quoted, Readable;
    SortedDistinct(fields);
    var i :| 0 <= i < |fields| && fields[i] == Entry(key, Quoted(s));
    StringFieldExact(fields, i, s);
  }

  /** Adding a string keeps a flat object flat. */
  lemma StaysFlat(before: seq<Entry>, after: seq<Entry>, key: string, s: string)
    requires Flat(before) && IsIdentifier(key) && forall e :: e in after <==> e in before || e == Entry(key, Quoted(s))
    ensures Flat(after)
  {
    QuotedQuiet(s);
    forall i | 0 <= i < |after| ensures IsIdentifier(after[i].key) && after[i].text != [] && Quiet(after[i].text) {
      assert after[i] in after;
      if after[i] in before {
        var j :| 0 <= j < |before| && before[j] == after[i];
      }
    }
  }

  /**
   Printer and reader together: a string added under a new identifier key comes back from
   the serialised object exactly when it is readable; a key already present is refused.
   */
  method AddThenRead(printer: CanonicalJsonObject, key: string, value: string) returns (r: Result<string>)
    requires printer.Valid() && Flat(printer.fields) && IsIdentifier(key)
    modifies printer
    ensures printer.Valid() && Flat(printer.fields)
    ensures (exists i :: 0 <= i < |old(printer.fields)| && old(printer.fields)[i].key == key)
      ==> r.Err? && r.error.LogicError?
    ensures (forall i :: 0 <= i < |old(printer.fields)| ==> old(printer.fields)[i].key != key) ==>
              if Readable(value) then r == Ok(value) else r.Err? && r.error.InvalidArgument?
  {
    hide Flat, InKeyOrder, Readable, Quoted, Print;
    ghost var before := printer.fields;
    var added := printer.AddString(key, value);
    if added.Err? {
      return Err(added.error);
    }
    StaysFlat(before, printer.fields, key, value);
    StoredStringReads(printer.fields, key, value);
    var json := printer.Serialize();
    r := JsonStringField(json, key);
  }
}
