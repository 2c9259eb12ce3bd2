/**
 The canonical JSON printer and the scanning readers of `benchmarks/bench_fhe_ind.cpp`.
 A reader finds `"key":` by substring search and requires it to be unique.  Proved:
 for flat objects with identifier keys that search is exact, and each reader returns
 the printed value precisely when the value has no character outside its escapes.
 */
module Json {
  import opened Wrappers

  // ------------------------------------------------------------------ printing strings

  function HexDigit(n: nat): char
    requires n < 16
  {
    "0123456789abcdef"[n]
  }

  predicate IsControl(c: char) {
    c < 0x20 as char
  }

  function EscapeChar(c: char): (e: string) {
    if c == '\"' then "\\\""
    else if c == '\\' then "\\\\"
    else if c == '\n' then "\\n"
    else if c == '\r' then "\\r"
    else if c == '\t' then "\\t"
    else if IsControl(c) then "\\u00" + [HexDigit(c as nat / 16), HexDigit(c as nat % 16)]
    else [c]
  }

  function EscapeBody(s: string): string {
    if s == [] then [] else EscapeChar(s[0]) + EscapeBody(s[1..])
  }

  function Quoted(s: string): string {
    "\"" + EscapeBody(s) + "\""
  }

  lemma {:induction false} EscapeConcat(a: string, b: string)
    ensures EscapeBody(a + b) == EscapeBody(a) + EscapeBody(b)
  {
    if a == [] {
      assert a + b == b;
    } else {
      assert (a + b)[1..] == a[1..] + b;
      EscapeConcat(a[1..], b);
    }
  }

  lemma EscapeOne(c: char)
    ensures EscapeBody([c]) == EscapeChar(c)
  {
    assert [c][1..] == [];
  }

  lemma EscapeNothing(s: string)
    ensures EscapeBody(s[..0]) == []
  {
  }

  lemma EscapeStep(s: string, i: nat)
    requires i < |s|
    ensures EscapeBody(s[..i + 1]) == EscapeBody(s[..i]) + EscapeChar(s[i])
  {
    assert s[..i + 1] == s[..i] + [s[i]];
    EscapeConcat(s[..i], [s[i]]);
    EscapeOne(s[i]);
  }

  method JsonEscape(value: string) returns (out: string)
    ensures out == Quoted(value)
    ensures out[0] == '\"' && Decoded(out[1..]) == Some(value)
  {
    out := "\"";
    hide EscapeChar, EscapeBody;
    EscapeNothing(value);
    for i := 0 to |value|
      invariant out == "\"" + EscapeBody(value[..i])
    {
      EscapeStep(value, i);
      out := out + EscapeChar(value[i]);
    }
    assert value[..|value|] == value;
    out := out + "\"";
    QuotedDecodes(value);
  }

  // ------------------------------------------------------------------ reading strings by the JSON grammar

  /** The value of a lower- or upper-case hexadecimal digit. */
  function HexValue(c: char): Option<nat> {
    if '0' <= c <= '9' then Some(c as nat - '0' as nat)
    else if 'a' <= c <= 'f' then Some(c as nat - 'a' as nat + 10)
    else if 'A' <= c <= 'F' then Some(c as nat - 'A' as nat + 10)
    else None
  }

  /** The character of four hexadecimal digits below 256, as section 7 of RFC 8259 writes it. */
  function HexChar(h: string): Option<char>
    requires |h| == 4
  {
    var a, b, c, d := HexValue(h[0]), HexValue(h[1]), HexValue(h[2]), HexValue(h[3]);
    if a != Some(0) || b != Some(0) || c.None? || d.None? || 16 * c.value + d.value >= 256 then None
    else Some((16 * c.value + d.value) as char)
  }

  /** What a two-character escape stands for. */
  function ShortEscape(c: char): Option<char> {
    match c
    case '\"' => Some('\"') case '\\' => Some('\\') case '/' => Some('/')
    case 'b' => Some(8 as char) case 'f' => Some(12 as char)
    case 'n' => Some(10 as char) case 'r' => Some(13 as char) case 't' => Some(9 as char)
    case _ => None
  }

  /** The string behind an opening quote, by the JSON grammar; control characters must be escaped. */
  function Decoded(s: string): Option<string> {
    if s == [] then None
    else if s[0] == '\"' then (if |s| == 1 then Some("") else None)
    else if s[0] != '\\' then
      if s[0] as int < 32 then None else Before(s[0], Decoded(s[1..]))
    else if |s| < 2 then None
    else if s[1] == 'u' then
      if |s| < 6 || HexChar(s[2..6]).None? then None else Before(HexChar(s[2..6]).value, Decoded(s[6..]))
    else if ShortEscape(s[1]).None? then None
    else Before(ShortEscape(s[1]).value, Decoded(s[2..]))
  }

  function Before(c: char, r: Option<string>): Option<string> {
    if r.Some? then Some([c] + r.value) else None
  }

  lemma DecodedChar(c: char, rest: string)
    ensures Decoded(EscapeChar(c) + rest) == Before(c, Decoded(rest))
  {
    var e := EscapeChar(c);
    var text := e + rest;
    if |e| == 1 {
      assert text[1..] == rest;
    } else if |e| == 2 {
      assert text[0] == e[0] && text[1] == e[1] && text[2..] == rest;
    } else {
      HexDigitsOf(c);
      assert text[0] == e[0] && text[1] == e[1];
      assert text[2..6] == e[2..6] && text[6..] == rest;
    }
  }

  lemma HexDigitsOf(c: char)
    requires IsControl(c) && |EscapeChar(c)| > 2
    ensures |EscapeChar(c)| == 6 && HexChar(EscapeChar(c)[2..6]) == Some(c)
  {
  }

  /** What is escaped, and how: two characters, the named control characters, and the other 29 as six characters. */
  lemma EscapesExactly(c: char)
    ensures IsControl(c) <==> c as int < 32
    ensures c as int >= 32 && c !in "\"\\" ==> EscapeChar(c) == [c]
    ensures c == '\"' ==> EscapeChar(c) == "\\\""
    ensures c == '\\' ==> EscapeChar(c) == "\\\\"
    ensures c as int == 10 ==> EscapeChar(c) == "\\n"
    ensures c as int == 13 ==> EscapeChar(c) == "\\r"
    ensures c as int == 9 ==> EscapeChar(c) == "\\t"
    ensures c as int < 32 && c as int !in {9, 10, 13} ==> |EscapeChar(c)| == 6 && EscapeChar(c)[..4] == "\\u00"
  {
  }

  /** Every printed string reads back by the JSON grammar. */
  lemma {:induction false} QuotedDecodes(s: string)
    ensures Quoted(s)[0] == '\"' && Decoded(Quoted(s)[1..]) == Some(s)
  {
    assert Quoted(s)[1..] == EscapeBody(s) + "\"";
    BodyDecodes(s);
  }

  lemma {:induction false} BodyDecodes(s: string)
    ensures Decoded(EscapeBody(s) + "\"") == Some(s)
  {
    hide EscapeChar;
    if s == [] {
      assert EscapeBody(s) + "\"" == "\"";
    } else {
      var rest := EscapeBody(s[1..]) + "\"";
      assert EscapeBody(s) + "\"" == EscapeChar(s[0]) + rest;
      DecodedChar(s[0], rest);
      BodyDecodes(s[1..]);
      hide Decoded;
      assert s == [s[0]] + s[1..];
    }
  }

  // ------------------------------------------------------------------ objects

  datatype Entry = Entry(key: string, text: string)

  /** Lexicographic order of std::string. */
  predicate Less(a: string, b: string) {
    if b == [] then false
    else if a == [] then true
    else a[0] < b[0] || (a[0] == b[0] && Less(a[1..], b[1..]))
  }

  /** b goes on, or has a larger character, where a and b first differ. */
  ghost predicate DiffersAt(a: string, b: string, i: nat) {
    i <= |a| && i < |b| && a[..i] == b[..i] && (i == |a| || a[i] < b[i])
  }

  lemma {:induction false} LessExactly(a: string, b: string)
    ensures Less(a, b) <==> exists i: nat :: DiffersAt(a, b, i)
  {
    if b != [] {
      if a == [] {
        assert DiffersAt(a, b, 0);
      } else {
        LessExactly(a[1..], b[1..]);
        if a[0] < b[0] { assert DiffersAt(a, b, 0); }
        if a[0] == b[0] && Less(a[1..], b[1..]) {
          var i: nat :| DiffersAt(a[1..], b[1..], i);
          FirstDifference(a, b, i);
        }
        if exists i: nat :: DiffersAt(a, b, i) {
          var i: nat :| DiffersAt(a, b, i);
          if i > 0 {
            assert a[0] == a[..i][0] && b[0] == b[..i][0];
            FirstDifference(a, b, i - 1);
          }
        }
      }
    }
  }

  lemma FirstDifference(a: string, b: string, i: nat)
    requires a != [] && b != [] && a[0] == b[0]
    ensures DiffersAt(a[1..], b[1..], i) <==> DiffersAt(a, b, i + 1)
  {
    if i + 1 <= |a| && i + 1 <= |b| {
      assert a[..i + 1] == [a[0]] + a[1..][..i] && b[..i + 1] == [b[0]] + b[1..][..i];
      if a[..i + 1] == b[..i + 1] {
        assert a[..i + 1][1..] == a[1..][..i] && b[..i + 1][1..] == b[1..][..i];
      }
    }
  }

  lemma {:induction false} LessTransitive(a: string, b: string, c: string)
    requires Less(a, b) && Less(b, c)
    ensures Less(a, c)
  {
    if a != [] && a[0] == b[0] && b[0] == c[0] {
      LessTransitive(a[1..], b[1..], c[1..]);
    }
  }

  lemma {:induction false} LessTotal(a: string, b: string)
    ensures Less(a, b) || a == b || Less(b, a)
    ensures !(Less(a, b) && Less(b, a)) && !Less(a, a)
  {
    if a != [] && b != [] {
      LessTotal(a[1..], b[1..]);
      assert a == [a[0]] + a[1..] && b == [b[0]] + b[1..];
    }
    if a != [] { LessIrreflexive(a); }
  }

  lemma {:induction false} LessIrreflexive(a: string)
    ensures !Less(a, a)
  {
    if a != [] { LessIrreflexive(a[1..]); }
  }

  /** std::map order: strictly ascending keys. */
  ghost predicate InKeyOrder(fields: seq<Entry>) {
    forall i, j :: 0 <= i < j < |fields| ==> Less(fields[i].key, fields[j].key)
  }

  function Tail(fields: seq<Entry>): string {
    if fields == [] then "}" else
      Quoted(fields[0].key) + ":" + fields[0].text + (if |fields| == 1 then "}" else "," + Tail(fields[1..]))
  }

  function Print(fields: seq<Entry>): string {
    "{" + Tail(fields)
  }

  /** Nothing but braces for no field, and one member in braces for one. */
  lemma PrintSmall(a: seq<Entry>)
    ensures a == [] ==> Print(a) == "{}"
    ensures |a| == 1 ==> Print(a) == "{" + Quoted(a[0].key) + ":" + a[0].text + "}"
  {
    TailSteps(a);
    hide Tail, Quoted;
    if |a| == 1 { Braces(Quoted(a[0].key), a[0].text); }
  }

  lemma Braces(key: string, text: string)
    ensures "{" + (key + ":" + text + "}") == "{" + key + ":" + text + "}"
  {
  }

  /** The members of two lists are joined by a comma. */
  lemma PrintJoins(a: seq<Entry>, b: seq<Entry>)
    requires a != [] && b != []
    ensures Print(a + b) == Print(a)[..|Print(a)| - 1] + "," + Print(b)[1..]
  {
    hide Tail, Quoted;
    TailJoins(a, b);
    TailCloses(a);
    var ta, tb := Tail(a), Tail(b);
    Chop("{", ta);
    AroundComma("{", ta[..|ta| - 1], tb);
    DropFirst("{", tb);
  }

  lemma DropFirst(head: string, rest: string)
    requires |head| == 1
    ensures (head + rest)[1..] == rest
  {
  }

  lemma AroundComma(a: string, b: string, c: string)
    ensures a + (b + "," + c) == (a + b) + "," + c
  {
  }

  /** Dropping the last character of a text is dropping it from its end. */
  lemma Chop(head: string, rest: string)
    requires rest != ""
    ensures (head + rest)[..|head + rest| - 1] == head + rest[..|rest| - 1]
  {
  }

  lemma TailSteps(a: seq<Entry>)
    ensures a == [] ==> Tail(a) == "}"
    ensures a != [] ==> var head := Quoted(a[0].key) + ":" + a[0].text;
              Tail(a) == if |a| == 1 then head + "}" else head + ("," + Tail(a[1..]))
  {
    hide Quoted;
  }

  lemma {:induction false} TailCloses(a: seq<Entry>)
    ensures Tail(a) != "" && Tail(a)[|Tail(a)| - 1] == '}'
  {
    if |a| > 1 { TailCloses(a[1..]); }
  }

  lemma {:induction false} TailJoins(a: seq<Entry>, b: seq<Entry>)
    requires a != [] && b != []
    ensures Tail(a) != "" && Tail(a + b) == Tail(a)[..|Tail(a)| - 1] + "," + Tail(b)
  {
    hide Tail, Quoted;
    var head := Quoted(a[0].key) + ":" + a[0].text;
    TailSteps(a);
    TailSteps(a + b);
    assert (a + b)[0] == a[0];
    if |a| == 1 {
      assert (a + b)[1..] == b;
      Chop(head, "}");
      Separate(head, Tail(b));
    } else {
      assert (a + b)[1..] == a[1..] + b;
      TailJoins(a[1..], b);
      var rest := Tail(a[1..]);
      Chop(head, "," + rest);
      Chop(",", rest);
      Nest(head, rest[..|rest| - 1], Tail(b));
    }
  }

  lemma Separate(head: string, tail: string)
    ensures head + ("," + tail) == (head + "}"[..0]) + "," + tail
  {
  }

  lemma Nest(head: string, rest: string, tail: string)
    ensures head + ("," + (rest + "," + tail)) == (head + ("," + rest)) + "," + tail
  {
  }

  class CanonicalJsonObject {
    var fields: seq<Entry>

    ghost predicate Valid()
      reads this
    {
      InKeyOrder(fields)
    }

    constructor ()
      ensures Valid() && fields == []
    {
      fields := [];
    }

    /** Keys are unique: a second value for a key is refused. */
    method Add(key: string, value: string) returns (r: Result<()>)
      requires Valid()
      modifies this
      ensures Valid()
      ensures r.Err? <==> exists i :: 0 <= i < |old(fields)| && old(fields)[i].key == key
      ensures r.Err? ==> r.error.LogicError? && fields == old(fields)
      ensures r.Ok? ==> forall e :: e in fields <==> e in old(fields) || e == Entry(key, value)
    {
      var i := 0;
      while i < |fields| && Less(fields[i].key, key)
        invariant 0 <= i <= |fields|
        invariant forall j :: 0 <= j < i ==> Less(fields[j].key, key)
      {
        i := i + 1;
      }
      ghost var before := fields;
      BelowIsDifferent(before, key, i);
      if i < |fields| && fields[i].key == key {
        return Err(LogicError("duplicate canonical JSON key: " + key));
      }
      InsertSorted(before, Entry(key, value), i);
      fields := fields[..i] + [Entry(key, value)] + fields[i..];
      return Ok(());
    }

    method AddString(key: string, value: string) returns (r: Result<()>)
      requires Valid()
      modifies this
      ensures Valid()
      ensures r.Err? <==> exists i :: 0 <= i < |old(fields)| && old(fields)[i].key == key
      ensures r.Err? ==> r.error.LogicError? && fields == old(fields)
      ensures r.Ok? ==> forall e :: e in fields <==> e in old(fields) || e == Entry(key, Quoted(value))
    {
      var text := JsonEscape(value);
      r := Add(key, text);
    }

    method AddBool(key: string, value: bool) returns (r: Result<()>)
      requires Valid()
      modifies this
      ensures Valid()
      ensures r.Err? <==> exists i :: 0 <= i < |old(fields)| && old(fields)[i].key == key
      ensures r.Err? ==> fields == old(fields)
      ensures r.Ok? ==> forall e ::
        e in fields <==> e in old(fields) || e == Entry(key, if value then "true" else "false")
    {
      r := Add(key, if value then "true" else "false");
    }

    method AddArray(key: string, values: seq<string>) returns (r: Result<()>)
      requires Valid()
      modifies this
      ensures Valid()
      ensures r.Err? <==> exists i :: 0 <= i < |old(fields)| && old(fields)[i].key == key
      ensures r.Err? ==> fields == old(fields)
      ensures r.Ok? ==> forall e :: e in fields <==> e in old(fields) || e == Entry(key, Array(values))
    {
      var text := PrintArray(values);
      r := Add(key, text);
    }

    method Serialize() returns (out: string)
      ensures out == Print(fields)
    {
      hide Tail, Quoted;
      out := "{";
      var first := true;
      NoFields(fields);
      for i := 0 to |fields|
        invariant first <==> i == 0
        invariant out + Continued(fields, i) == Print(fields)
      {
        ghost var before := out;
        var key := JsonEscape(fields[i].key);
        if !first { out := out + ","; }
        first := false;
        out := out + key + ":" + fields[i].text;
        ContinuedStep(fields, i, before, out);
      }
      EndOfFields(fields);
      out := out + "}";
    }
  }

  /** What is still to be printed before field i, with its separator. */
  ghost function Continued(fields: seq<Entry>, i: nat): string
    requires i <= |fields|
  {
    if i == 0 || i == |fields| then Tail(fields[i..]) else "," + Tail(fields[i..])
  }

  lemma NoFields(fields: seq<Entry>)
    ensures "{" + Continued(fields, 0) == Print(fields)
  {
    assert fields[0..] == fields;
  }

  lemma EndOfFields(fields: seq<Entry>)
    ensures Continued(fields, |fields|) == "}"
  {
  }

  lemma ContinuedStep(fields: seq<Entry>, i: nat, before: string, out: string)
    requires i < |fields|
    requires out == (if i == 0 then before else before + ",") + Quoted(fields[i].key) + ":" + fields[i].text
    ensures before + Continued(fields, i) == out + Continued(fields, i + 1)
  {
    TailStep(fields, i);
    EndOfFields(fields);
    hide Tail, Quoted;
    var rest := Continued(fields, i + 1);
    assert Tail(fields[i..]) == Quoted(fields[i].key) + ":" + fields[i].text + rest;
    Shift(before, if i == 0 then "" else ",", Quoted(fields[i].key), fields[i].text, rest);
  }

  lemma Shift(before: string, sep: string, key: string, text: string, rest: string)
    ensures before + (sep + (key + ":" + text + rest)) == before + sep + key + ":" + text + rest
    ensures sep == "" ==> before + (key + ":" + text + rest) == before + key + ":" + text + rest
  {
    assert sep + (key + ":" + text + rest) == sep + key + ":" + text + rest;
  }

  lemma TailStep(fields: seq<Entry>, i: nat)
    requires i < |fields|
    ensures Tail(fields[i..]) == Quoted(fields[i].key) + ":" + fields[i].text
      + if i + 1 == |fields| then "}" else "," + Tail(fields[i + 1..])
  {
    assert fields[i..][1..] == fields[i + 1..];
  }

  /** With the keys before i below key, only entry i can have the key. */
  lemma BelowIsDifferent(fields: seq<Entry>, key: string, i: nat)
    requires InKeyOrder(fields) && i <= |fields| && (forall j :: 0 <= j < i ==> Less(fields[j].key, key))
    requires i < |fields| ==> !Less(fields[i].key, key)
    ensures forall j :: 0 <= j < |fields| && j != i ==> fields[j].key != key
    ensures i < |fields| && fields[i].key != key ==> forall j :: i <= j < |fields| ==> Less(key, fields[j].key)
  {
    forall j | 0 <= j < |fields| && j != i ensures fields[j].key != key {
      LessIrreflexive(key);
      if j > i { After(fields, key, i, j); }
    }
    if i < |fields| && fields[i].key != key {
      forall j | i <= j < |fields| ensures Less(key, fields[j].key) {
        LessTotal(fields[i].key, key);
        if j > i { LessTransitive(key, fields[i].key, fields[j].key); }
      }
    }
  }

  lemma After(fields: seq<Entry>, key: string, i: nat, j: nat)
    requires InKeyOrder(fields) && i < j < |fields| && !Less(fields[i].key, key)
    ensures Less(key, fields[j].key) && fields[j].key != key
  {
    LessTotal(fields[i].key, key);
    LessIrreflexive(key);
    if fields[i].key != key { LessTransitive(key, fields[i].key, fields[j].key); }
  }

  lemma InsertSorted(fields: seq<Entry>, e: Entry, i: nat)
    requires InKeyOrder(fields) && i <= |fields| && (forall j :: 0 <= j < i ==> Less(fields[j].key, e.key))
    requires forall j :: i <= j < |fields| ==> Less(e.key, fields[j].key)
    ensures InKeyOrder(fields[..i] + [e] + fields[i..])
    ensures forall x :: x in fields[..i] + [e] + fields[i..] <==> x in fields || x == e
  {
    hide Less;
    var more := fields[..i] + [e] + fields[i..];
    forall a, b | 0 <= a < b < |more| ensures Less(more[a].key, more[b].key) {
      MoreAt(fields, e, i, a);
      MoreAt(fields, e, i, b);
    }
    MoreMembers(fields, e, i);
  }

  lemma MoreAt(fields: seq<Entry>, e: Entry, i: nat, a: nat)
    requires i <= |fields| && a < |fields| + 1
    ensures (fields[..i] + [e] + fields[i..])[a] == if a < i then fields[a] else if a == i then e else fields[a - 1]
  {
  }

  lemma MoreMembers(fields: seq<Entry>, e: Entry, i: nat)
    requires i <= |fields|
    ensures forall x :: x in fields[..i] + [e] + fields[i..] <==> x in fields || x == e
  {
    assert fields == fields[..i] + fields[i..];
  }

  /** The printed form depends on the fields only, not on the order they were added in. */
  lemma {:induction false} CanonicalOrder(a: seq<Entry>, b: seq<Entry>)
    requires InKeyOrder(a) && InKeyOrder(b) && (forall e :: e in a <==> e in b)
    ensures a == b
  {
    Inhabited(b);
    if a != [] {
      assert a[0] in b;
      assert b != [] && b[0] in a;
      SameLeast(a, b);
      RestSame(a, b);
      RestSame(b, a);
      CanonicalOrder(a[1..], b[1..]);
      assert a == [a[0]] + a[1..] && b == [b[0]] + b[1..];
    }
  }

  lemma Inhabited(b: seq<Entry>)
    ensures b != [] ==> exists e :: e in b
  {
    if b != [] { assert b[0] in b; }
  }

  lemma SameLeast(a: seq<Entry>, b: seq<Entry>)
    requires a != [] && b != [] && InKeyOrder(a) && InKeyOrder(b) && a[0] in b && b[0] in a
    ensures a[0] == b[0]
  {
    var i :| 0 <= i < |b| && b[i] == a[0];
    var j :| 0 <= j < |a| && a[j] == b[0];
    LessTotal(a[0].key, b[0].key);
  }

  lemma RestSame(a: seq<Entry>, b: seq<Entry>)
    requires a != [] && b != [] && InKeyOrder(a) && InKeyOrder(b) && a[0] == b[0] && (forall e :: e in a <==> e in b)
    ensures forall e :: e in a[1..] ==> e in b[1..]
  {
    forall e | e in a[1..] ensures e in b[1..] {
      var i :| 0 <= i < |a[1..]| && a[1..][i] == e;
      assert a[i + 1] == e && e in a;
      LessIrreflexive(a[0].key);
      assert b == [b[0]] + b[1..];
    }
  }

  // ------------------------------------------------------------------ arrays

  function Elements(values: seq<string>): string {
    if values == [] then "]" else
      Quoted(values[0]) + if |values| == 1 then "]" else "," + Elements(values[1..])
  }

  function Array(values: seq<string>): string {
    "[" + Elements(values)
  }

  method PrintArray(values: seq<string>) returns (out: string)
    ensures out == Array(values)
  {
    hide Quoted;
    out := "[";
    for i := 0 to |values|
      invariant i < |values| ==> out + (if i == 0 then "" else ",") + Elements(values[i..]) == Array(values)
      invariant i == |values| ==> out + "]" == Array(values)
    {
      ElementsStep(values, i);
      hide Elements;
      ghost var lead := out + if i == 0 then "" else ",";
      if i != 0 { out := out + ","; }
      assert out == lead;
      var text := JsonEscape(values[i]);
      out := out + text;
    }
    out := out + "]";
  }

  /** Nothing but brackets for no entry, one entry in brackets for one. */
  lemma ArraySmall(a: seq<string>)
    ensures a == [] ==> Array(a) == "[]"
    ensures |a| == 1 ==> Array(a) == "[" + Quoted(a[0]) + "]"
  {
    hide Quoted;
    if |a| == 1 { assert "[" + (Quoted(a[0]) + "]") == "[" + Quoted(a[0]) + "]"; }
  }

  /** The entries of two lists are joined by a comma. */
  lemma ArrayJoins(a: seq<string>, b: seq<string>)
    requires a != [] && b != []
    ensures Array(a + b) == Array(a)[..|Array(a)| - 1] + "," + Array(b)[1..]
  {
    hide Elements, Quoted;
    ElementsJoin(a, b);
    var ea, eb := Elements(a), Elements(b);
    Chop("[", ea);
    AroundComma("[", ea[..|ea| - 1], eb);
    DropFirst("[", eb);
  }

  lemma {:induction false} ElementsJoin(a: seq<string>, b: seq<string>)
    requires a != [] && b != []
    ensures Elements(a) != "" && Elements(a + b) == Elements(a)[..|Elements(a)| - 1] + "," + Elements(b)
  {
    hide Elements, Quoted;
    ElementsSteps(a);
    ElementsSteps(a + b);
    var head := Quoted(a[0]);
    assert (a + b)[0] == a[0];
    if |a| == 1 {
      assert (a + b)[1..] == b;
      Chop(head, "]");
      Separate(head, Elements(b));
    } else {
      assert (a + b)[1..] == a[1..] + b;
      ElementsJoin(a[1..], b);
      var rest := Elements(a[1..]);
      Chop(head, "," + rest);
      Chop(",", rest);
      Nest(head, rest[..|rest| - 1], Elements(b));
    }
  }

  lemma ElementsSteps(a: seq<string>)
    requires a != []
    ensures Elements(a) == if |a| == 1 then Quoted(a[0]) + "]" else Quoted(a[0]) + ("," + Elements(a[1..]))
  {
    hide Quoted;
  }

  lemma ElementsStep(values: seq<string>, i: nat)
    requires i < |values|
    ensures Elements(values[i..]) == Quoted(values[i])
      + if i + 1 == |values| then "]" else "," + Elements(values[i + 1..])
  {
    assert values[i..][1..] == values[i + 1..];
  }

  // ------------------------------------------------------------------ searching for a key

  ghost predicate Occurs(text: string, token: string, at: int) {
    0 <= at && at + |token| <= |text| && text[at..at + |token|] == token
  }

  /** std::string::find: the first occurrence at or after `from`. */
  function Find(text: string, token: string, from: nat): (r: Option<nat>)
    ensures r.Some? ==> r.value >= from && Occurs(text, token, r.value)
    ensures r.Some? ==> forall at :: from <= at < r.value ==> !Occurs(text, token, at)
    ensures r.None? ==> forall at :: from <= at ==> !Occurs(text, token, at)
    decreases |text| + 1 - from
  {
    if from + |token| > |text| then None
    else if text[from..from + |token|] == token then Some(from)
    else Find(text, token, from + 1)
  }

  /** Position just behind the only occurrence of the key's token. */
  method JsonKeyPosition(json: string, key: string) returns (r: Result<nat>)
    ensures r == KeyPosition(json, key)
  {
    hide Occurs, Find, Quoted;
    var token := JsonEscape(key);
    token := token + ":";
    var position := Find(json, token, 0);
    if position.None? || Find(json, token, position.value + |token|).Some? {
      return Err(InvalidArgument("workload JSON key is missing/duplicated: " + key));
    }
    return Ok(position.value + |token|);
  }

  function Token(key: string): string {
    Quoted(key) + ":"
  }

  function KeyPosition(json: string, key: string): Result<nat> {
    var position := Find(json, Token(key), 0);
    if position.None? then Err(InvalidArgument("workload JSON key is missing/duplicated: " + key)) else
      var behind: nat := position.value + |Token(key)|;
      if Find(json, Token(key), behind).Some? then
        Err(InvalidArgument("workload JSON key is missing/duplicated: " + key))
      else Ok(behind)
  }

  predicate IsIdentChar(c: char) {
    'a' <= c <= 'z' || 'A' <= c <= 'Z' || '0' <= c <= '9' || c == '_'
  }

  predicate IsIdentifier(s: string) {
    s != [] && forall i :: 0 <= i < |s| ==> IsIdentChar(s[i])
  }

  lemma {:induction false} IdentifierEscape(s: string)
    requires forall i :: 0 <= i < |s| ==> IsIdentChar(s[i])
    ensures EscapeBody(s) == s
  {
    if s != [] {
      IdentifierEscape(s[1..]);
      assert EscapeChar(s[0]) == [s[0]];
      assert s == [s[0]] + s[1..];
    }
  }

  /** A quote with an identifier character before it and a colon behind it: where a key ends. */
  ghost predicate KeyEnd(text: string, p: int) {
    1 <= p && p + 1 < |text| && IsIdentChar(text[p - 1]) && text[p] == '\"' && text[p + 1] == ':'
  }

  /** No key ends inside. */
  ghost predicate Quiet(text: string) {
    forall p :: !KeyEnd(text, p)
  }

  /** Every quote in an escaped string has a backslash before it. */
  lemma {:induction false} EscapedQuotes(s: string, j: nat)
    requires j < |EscapeBody(s)| && EscapeBody(s)[j] == '\"'
    ensures j >= 1 && EscapeBody(s)[j - 1] == '\\'
  {
    var first := EscapeChar(s[0]);
    if j >= |first| {
      EscapedQuotes(s[1..], j - |first|);
    } else {
      QuoteInChar(s[0], j);
    }
  }

  lemma QuoteInChar(c: char, j: nat)
    requires j < |EscapeChar(c)| && EscapeChar(c)[j] == '\"'
    ensures j == 1 && EscapeChar(c)[0] == '\\'
  {
  }

  lemma QuotedQuiet(s: string)
    ensures Quiet(Quoted(s))
  {
    forall p ensures !KeyEnd(Quoted(s), p) {
      if KeyEnd(Quoted(s), p) {
        QuotedQuietAt(s, p);
      }
    }
  }

  lemma QuotedQuietAt(s: string, p: int)
    ensures !KeyEnd(Quoted(s), p)
  {
    hide EscapeBody;
    if KeyEnd(Quoted(s), p) {
      EscapedQuotes(s, p - 1);
    }
  }

  /** A key end of a + c lies in one of the parts unless it straddles the joint. */
  lemma KeyEndConcat(a: string, c: string, p: int)
    requires KeyEnd(a + c, p)
    ensures p + 1 < |a| ==> KeyEnd(a, p)
    ensures p > |a| ==> KeyEnd(c, p - |a|)
  {
  }

  /** Gluing with a separator that is no colon and no identifier character, in front of a quote or nothing. */
  lemma QuietJoin(a: string, sep: char, c: string)
    requires Quiet(a) && Quiet(c) && sep != ':' && sep != '\"' && !IsIdentChar(sep)
    ensures Quiet(a + [sep] + c)
  {
    forall p ensures !KeyEnd(a + [sep] + c, p) {
      if KeyEnd(a + [sep] + c, p) {
        assert a + [sep] + c == a + ([sep] + c);
        KeyEndConcat(a, [sep] + c, p);
        if p > |a| { KeyEndConcat([sep], c, p - |a|); }
      }
    }
  }

  lemma {:induction false} ElementsQuiet(values: seq<string>)
    ensures Quiet(Elements(values))
  {
    if values != [] {
      QuotedQuiet(values[0]);
      if |values| == 1 {
        QuietJoin(Quoted(values[0]), ']', []);
        assert Quoted(values[0]) + [']'] + [] == Elements(values);
      } else {
        ElementsQuiet(values[1..]);
        QuietJoin(Quoted(values[0]), ',', Elements(values[1..]));
        assert Quoted(values[0]) + [','] + Elements(values[1..]) == Elements(values);
      }
    }
  }

  lemma ArrayQuiet(values: seq<string>)
    ensures Quiet(Array(values))
  {
    ElementsQuiet(values);
    QuietJoin([], '[', Elements(values));
    assert [] + ['['] + Elements(values) == Array(values);
  }

  // ------------------------------------------------------------------ the token of a key is unique

  /** Flat objects: identifier keys, and values in which no key ends. */
  ghost predicate Flat(fields: seq<Entry>) {
    forall i :: 0 <= i < |fields| ==> IsIdentifier(fields[i].key) && fields[i].text != [] && Quiet(fields[i].text)
  }

  function Group(e: Entry, sep: char): string {
    Token(e.key) + e.text + [sep]
  }

  lemma TailIsGroup(fields: seq<Entry>)
    requires fields != []
    ensures |fields| == 1 ==> Tail(fields) == Group(fields[0], '}')
    ensures |fields| > 1 ==> Tail(fields) == Group(fields[0], ',') + Tail(fields[1..])
  {
    var e := fields[0];
    GroupText(Quoted(e.key), e.text, Tail(fields[1..]));
  }

  lemma GroupText(key: string, text: string, rest: string)
    ensures key + ":" + text + "}" == (key + ":") + text + ['}']
    ensures key + ":" + text + ("," + rest) == (key + ":") + text + [','] + rest
  {
    assert key + ":" + text + ("," + rest) == key + ":" + text + "," + rest;
  }

  lemma KeyInside(key: string, head: string)
    requires IsIdentifier(key) && head == Framed(key)
    ensures forall p :: KeyEnd(head, p) ==> p == |key| + 1
  {
    forall p | KeyEnd(head, p) ensures p == |key| + 1 {
      assert forall q :: 1 <= q <= |key| ==> head[q] == key[q - 1];
    }
  }

  /** In the text of one field a key ends only at the field's own key. */
  lemma GroupKeyEnd(e: Entry, sep: char, p: int)
    requires IsIdentifier(e.key) && Quiet(e.text) && sep != ':' && KeyEnd(Group(e, sep), p)
    ensures p == |e.key| + 1
  {
    hide Group, Framed;
    var head := Framed(e.key);
    GroupHead(e, sep);
    KeyInside(e.key, head);
    KeyEndConcat(head, e.text + [sep], p);
    if p > |head| {
      KeyEndConcat(e.text, [sep], p - |head|);
    }
  }

  function Framed(key: string): (t: string)
    ensures |t| == |key| + 3 && t[0] == '\"' && t[|t| - 1] == ':'
  {
    "\"" + key + "\":"
  }

  lemma IdentifierToken(key: string)
    requires IsIdentifier(key)
    ensures Token(key) == Framed(key)
  {
    IdentifierEscape(key);
  }

  lemma GroupHead(e: Entry, sep: char)
    requires IsIdentifier(e.key)
    ensures Group(e, sep) == Framed(e.key) + (e.text + [sep])
  {
    IdentifierToken(e.key);
    assert Framed(e.key) + e.text + [sep] == Framed(e.key) + (e.text + [sep]);
  }

  lemma FramedParts(key: string)
    ensures var t := Framed(key);
      |t| == |key| + 3 && t[0] == '\"' && t[1..1 + |key|] == key && t[|key| + 1] == '\"' && t[|key| + 2] == ':'
    ensures forall j :: 1 <= j <= |key| ==> Framed(key)[j] == key[j - 1]
  {
  }

  /** The quoted key at position q, followed by a colon. */
  ghost predicate KeyAt(text: string, key: string, q: nat) {
    && q + |key| + 3 <= |text| && text[q] == '\"' && text[q + 1..q + 1 + |key|] == key
    && text[q + |key| + 1] == '\"' && text[q + |key| + 2] == ':'
  }

  /** An occurrence of an identifier's token, character by character. */
  lemma OccursShape(text: string, key: string, q: nat)
    requires IsIdentifier(key) && Occurs(text, Token(key), q)
    ensures KeyAt(text, key, q) && KeyEnd(text, q + |key| + 1)
  {
    hide Token, Framed, KeyAt;
    IdentifierToken(key);
    FramedParts(key);
    FramedAt(text, Framed(key), key, q);
    KeyCharAt(text, key, q, q + |key|);
    KeyAtEnds(text, key, q);
  }

  lemma KeyAtEnds(text: string, key: string, q: nat)
    requires IsIdentifier(key) && KeyAt(text, key, q) && IsIdentChar(text[q + |key|])
    ensures KeyEnd(text, q + |key| + 1)
  {
  }

  lemma FramedAt(text: string, t: string, key: string, q: nat)
    requires |t| == |key| + 3 && t[0] == '\"' && t[1..1 + |key|] == key && t[|key| + 1] == '\"' && t[|key| + 2] == ':'
    requires Occurs(text, t, q)
    ensures KeyAt(text, key, q)
  {
    var s := text[q..q + |t|];
    assert s == t;
    SubSlice(text, q, q + |t|, 1, 1 + |key|);
    SliceAt(text, q, q + |t|, 0);
    SliceAt(text, q, q + |t|, |key| + 1);
    SliceAt(text, q, q + |t|, |key| + 2);
  }

  lemma SubSlice(text: string, a: nat, b: nat, c: nat, d: nat)
    requires a <= b <= |text| && c <= d <= b - a
    ensures text[a..b][c..d] == text[a + c..a + d]
  {
    var s, l, r := text[a..b], text[a..b][c..d], text[a + c..a + d];
    forall i | 0 <= i < d - c ensures l[i] == r[i] {
      assert l[i] == s[c + i] == text[a + (c + i)];
    }
  }

  lemma SliceAt(text: string, a: nat, b: nat, j: nat)
    requires a <= b <= |text| && j < b - a
    ensures text[a..b][j] == text[a + j]
  {
  }

  lemma KeyCharAt(text: string, key: string, q: nat, pos: nat)
    requires IsIdentifier(key) && KeyAt(text, key, q) && q < pos <= q + |key|
    ensures IsIdentChar(text[pos])
  {
    SliceAt(text, q + 1, q + 1 + |key|, pos - q - 1);
  }

  /** Inside the text of one field only its own token can occur, at its start. */
  lemma TokenAtStart(e: Entry, sep: char, text: string, key: string, q: nat)
    requires IsIdentifier(key) && IsIdentifier(e.key) && Group(e, sep) <= text
    requires KeyAt(text, key, q) && q + |key| == |e.key|
    ensures q == 0 && key == e.key
  {
    IdentifierToken(e.key);
    FramedParts(e.key);
    var head := Framed(e.key);
    assert head <= text by { GroupHead(e, sep); }
    hide Framed, Group;
    forall j | 1 <= j <= |e.key| ensures IsIdentChar(text[j]) { assert text[j] == head[j]; }
    assert text[1..1 + |e.key|] == head[1..1 + |e.key|];
  }

  /** A token that starts inside one field's text does not reach past its separator. */
  lemma TokenStaysInside(group: string, sep: char, text: string, key: string, q: nat)
    requires group <= text && group != [] && group[|group| - 1] == sep && sep != '\"' && sep != ':' && !IsIdentChar(sep)
    requires IsIdentifier(key) && KeyAt(text, key, q) && q < |group|
    ensures q + |key| + 2 < |group|
  {
    hide IsIdentifier, IsIdentChar;
    var last: nat := |group| - 1;
    assert text[last] == sep;
    if q < last <= q + |key| { KeyCharAt(text, key, q, last); }
  }

  /** Where field i starts in the text of all fields. */
  ghost function Offset(fields: seq<Entry>, i: nat): nat
    requires i < |fields|
  {
    if i == 0 then 0 else |Group(fields[0], ',')| + Offset(fields[1..], i - 1)
  }

  lemma TokenInTail(fields: seq<Entry>, key: string, q: nat)
    requires fields != [] && Flat(fields) && IsIdentifier(key) && Occurs(Tail(fields), Token(key), q)
    ensures (q == 0 && key == fields[0].key)
         || (|fields| > 1 && q >= |Group(fields[0], ',')|
             && Occurs(Tail(fields[1..]), Token(key), q - |Group(fields[0], ',')|))
  {
    hide Token, Group, Tail, Quiet, KeyAt, Occurs, KeyEnd;
    var sep := if |fields| == 1 then '}' else ',';
    var text, group := Tail(fields), Group(fields[0], sep);
    TailIsGroup(fields);
    OccursShape(text, key, q);
    if q < |group| {
      TokenInGroup(fields[0], sep, text, key, q);
    } else {
      OccursBehind(group, text, Token(key), q);
      TooFar(fields, key, q, group);
    }
  }

  lemma TokenInGroup(e: Entry, sep: char, text: string, key: string, q: nat)
    requires IsIdentifier(key) && IsIdentifier(e.key) && Quiet(e.text) && (sep == ',' || sep == '}')
    requires Group(e, sep) <= text && q < |Group(e, sep)| && KeyAt(text, key, q) && KeyEnd(text, q + |key| + 1)
    ensures q == 0 && key == e.key
  {
    var group := Group(e, sep);
    GroupEnds(e, sep);
    hide Group, Quiet, KeyAt;
    TokenStaysInside(group, sep, text, key, q);
    assert text == group + text[|group|..];
    KeyEndConcat(group, text[|group|..], q + |key| + 1);
    GroupKeyEnd(e, sep, q + |key| + 1);
    TokenAtStart(e, sep, text, key, q);
  }

  /** Behind a single field there is no room for a token. */
  lemma TooFar(fields: seq<Entry>, key: string, q: nat, group: string)
    requires fields != [] && group == Group(fields[0], if |fields| == 1 then '}' else ',')
    requires q >= |group| && Occurs(Tail(fields), Token(key), q)
    ensures |fields| > 1 && Tail(fields)[|group|..] == Tail(fields[1..])
  {
    TailIsGroup(fields);
  }

  lemma GroupEnds(e: Entry, sep: char)
    ensures Group(e, sep) != [] && Group(e, sep)[|Group(e, sep)| - 1] == sep
  {
  }

  lemma OccursBehind(group: string, text: string, token: string, q: nat)
    requires group <= text && q >= |group| && Occurs(text, token, q)
    ensures Occurs(text[|group|..], token, q - |group|)
  {
    assert text[|group|..][q - |group|..q - |group| + |token|] == text[q..q + |token|];
  }

  /** Every occurrence of a token is a field with that key. */
  lemma {:induction false} TokenIsKey(fields: seq<Entry>, key: string, q: nat) returns (i: nat)
    requires fields != [] && Flat(fields) && IsIdentifier(key) && Occurs(Tail(fields), Token(key), q)
    ensures i < |fields| && fields[i].key == key && q == Offset(fields, i)
  {
    hide Token, Group, Tail, Quiet, Occurs;
    TokenInTail(fields, key, q);
    if q == 0 && key == fields[0].key {
      i := 0;
    } else {
      var j := TokenIsKey(fields[1..], key, q - |Group(fields[0], ',')|);
      i := j + 1;
    }
  }

  /** The separator behind field i and everything after it. */
  ghost function Behind(fields: seq<Entry>, i: nat): string
    requires i < |fields|
  {
    if i + 1 == |fields| then "}" else "," + Tail(fields[i + 1..])
  }

  /** Each field's token does occur at its offset, with the field's value behind it. */
  lemma BehindShift(fields: seq<Entry>, i: nat)
    requires 0 < i < |fields|
    ensures fields[1..][i - 1] == fields[i] && Behind(fields[1..], i - 1) == Behind(fields, i)
  {
    assert fields[1..][i..] == fields[i + 1..];
  }

  lemma FirstField(fields: seq<Entry>)
    requires fields != []
    ensures Offset(fields, 0) == 0
    ensures Behind(fields, 0) == if |fields| == 1 then "}" else "," + Tail(fields[1..])
  {
  }

  lemma OffsetStep(fields: seq<Entry>, i: nat)
    requires 0 < i < |fields|
    ensures Offset(fields, i) == |Group(fields[0], ',')| + Offset(fields[1..], i - 1)
  {
  }

  lemma {:induction false} TokenOccurs(fields: seq<Entry>, i: nat)
    requires i < |fields|
    ensures var at, token := Offset(fields, i), Token(fields[i].key);
      Occurs(Tail(fields), token, at) && Tail(fields)[at + |token|..] == fields[i].text + Behind(fields, i)
  {
    hide Token, Group, Tail, Occurs, Behind, Offset;
    TailIsGroup(fields);
    if i == 0 {
      FirstField(fields);
      GroupStart(fields[0], if |fields| == 1 then '}' else ',',
                 if |fields| == 1 then "" else Tail(fields[1..]), Tail(fields));
    } else {
      OffsetStep(fields, i);
      TokenOccurs(fields[1..], i - 1);
      BehindShift(fields, i);
      OccursShifted(Group(fields[0], ','), Tail(fields[1..]), Token(fields[i].key), Offset(fields[1..], i - 1));
    }
  }

  lemma GroupStart(e: Entry, sep: char, rest: string, text: string)
    requires text == Group(e, sep) + rest
    ensures Occurs(text, Token(e.key), 0) && text[|Token(e.key)|..] == e.text + ([sep] + rest)
  {
    hide Quoted;
    assert text == Token(e.key) + (e.text + ([sep] + rest));
  }

  lemma OccursShifted(group: string, rest: string, token: string, at: nat)
    requires Occurs(rest, token, at)
    ensures Occurs(group + rest, token, |group| + at)
    ensures (group + rest)[|group| + at + |token|..] == rest[at + |token|..]
  {
    assert (group + rest)[|group| + at..|group| + at + |token|] == rest[at..at + |token|];
  }

  ghost predicate DistinctKeys(fields: seq<Entry>) {
    forall i, j :: 0 <= i < j < |fields| ==> fields[i].key != fields[j].key
  }

  lemma SortedDistinct(fields: seq<Entry>)
    requires InKeyOrder(fields)
    ensures DistinctKeys(fields)
  {
    forall i, j | 0 <= i < j < |fields| ensures fields[i].key != fields[j].key {
      LessIrreflexive(fields[i].key);
    }
  }

  lemma PrintStart(fields: seq<Entry>)
    ensures "{" <= Print(fields) && Print(fields)[0] == '{' && Print(fields)[1..] == Tail(fields)
  {
  }

  lemma PrintedToken(fields: seq<Entry>, key: string, at: nat) returns (i: nat)
    requires fields != [] && Flat(fields) && IsIdentifier(key) && Occurs(Print(fields), Token(key), at)
    ensures i < |fields| && fields[i].key == key && at == 1 + Offset(fields, i)
  {
    hide Token, Tail, Flat, Occurs, Print, Offset, IsIdentifier;
    OccursShape(Print(fields), key, at);
    PrintStart(fields);
    OccursBehind("{", Print(fields), Token(key), at);
    i := TokenIsKey(fields, key, at - 1);
  }

  /**
   The key search is exact: the token of a stored key occurs exactly once, in front of its
   value, and the search fails for every other identifier.
   */
  lemma KeySearchExact(fields: seq<Entry>, key: string, i: nat)
    requires Flat(fields) && DistinctKeys(fields) && i < |fields| && key == fields[i].key
    ensures forall at: nat :: Occurs(Print(fields), Token(key), at) <==> at == 1 + Offset(fields, i)
    ensures var r := KeyPosition(Print(fields), key);
      r.Ok? && r.value <= |Print(fields)| && Print(fields)[r.value..] == fields[i].text + Behind(fields, i)
  {
    hide Token, Tail, Occurs, Offset, Behind, Print, Flat, KeyPosition;
    TokenInPrint(fields, i);
    OnlyOnce(fields, key, i);
    FoundOnce(Print(fields), key, 1 + Offset(fields, i));
  }

  lemma TokenInPrint(fields: seq<Entry>, i: nat)
    requires i < |fields|
    ensures var at, token := 1 + Offset(fields, i), Token(fields[i].key);
      Occurs(Print(fields), token, at) && at + |token| <= |Print(fields)|
      && Print(fields)[at + |token|..] == fields[i].text + Behind(fields, i)
  {
    hide Token, Tail, Offset, Behind;
    TokenOccurs(fields, i);
    OccursShifted("{", Tail(fields), Token(fields[i].key), Offset(fields, i));
  }

  lemma OnlyOnce(fields: seq<Entry>, key: string, i: nat)
    requires Flat(fields) && DistinctKeys(fields) && i < |fields| && key == fields[i].key
    ensures forall at: nat :: Occurs(Print(fields), Token(key), at) ==> at == 1 + Offset(fields, i)
  {
    hide Token, Tail, Occurs, Offset, Print;
    forall at: nat | Occurs(Print(fields), Token(key), at) ensures at == 1 + Offset(fields, i) {
      var j := PrintedToken(fields, key, at);
    }
  }

  lemma FoundOnce(text: string, key: string, at: nat)
    requires Occurs(text, Token(key), at) && forall t: nat :: Occurs(text, Token(key), t) ==> t == at
    ensures KeyPosition(text, key) == Ok(at + |Token(key)|)
  {
    hide Token, Occurs;
    assert |Token(key)| > 0 by { TokenNotEmpty(key); }
  }

  lemma TokenNotEmpty(key: string)
    ensures |Token(key)| > 0
  {
  }

  lemma KeySearchFails(fields: seq<Entry>, key: string)
    requires fields != [] && Flat(fields) && IsIdentifier(key) && forall i :: 0 <= i < |fields| ==> fields[i].key != key
    ensures KeyPosition(Print(fields), key).Err?
  {
    var found := Find(Print(fields), Token(key), 0);
    if found.Some? {
      var j := PrintedToken(fields, key, found.value);
    }
  }
}
