/**
 Byte-level formats: big-endian words, length-prefixed strings, the bounds-checked
 `Reader` of `benchmarks/comparison_workload.cpp`, and the modulus list that
 `OrderedRnsSha256` of `benchmarks/bench_fhe_ind.cpp` hashes.
 */
module Codec {
  import opened Wrappers
  import opened Params

  type Byte = x: int | 0 <= x < 256
  type Bytes = seq<Byte>

  /** A C++ string: any bytes. */
  type Text = seq<Byte>

  // ------------------------------------------------------------------ big-endian words

  function BigEndian(v: nat, width: nat): (s: Bytes)
    ensures |s| == width
  {
    if width == 0 then [] else BigEndian(v / 256, width - 1) + [v % 256]
  }

  function Value(s: Bytes): nat {
    if s == [] then 0 else 256 * Value(s[..|s| - 1]) + s[|s| - 1]
  }

  ghost function Span(width: nat): nat {
    if width == 0 then 1 else 256 * Span(width - 1)
  }

  lemma SpanFour(width: nat)
    requires width == 4
    ensures Span(width) == TWO_32
  {
    assert Span(3) == 256 * Span(2) && Span(2) == 256 * Span(1) && Span(1) == 256 * Span(0);
  }

  lemma {:induction false} ValueOfBigEndian(v: nat, width: nat)
    requires v < Span(width)
    ensures Value(BigEndian(v, width)) == v
  {
    if width > 0 {
      ValueOfBigEndian(v / 256, width - 1);
      assert BigEndian(v, width)[..width - 1] == BigEndian(v / 256, width - 1);
    }
  }

  lemma {:induction false} BigEndianOfValue(s: Bytes)
    ensures BigEndian(Value(s), |s|) == s && Value(s) < Span(|s|)
  {
    if s != [] {
      var front := s[..|s| - 1];
      BigEndianOfValue(front);
      assert Value(s) / 256 == Value(front) && Value(s) % 256 == s[|s| - 1];
      assert s == front + [s[|s| - 1]];
    }
  }

  function Word(v: nat): (s: Bytes)
    ensures |s| == 4
  {
    BigEndian(v, 4)
  }

  /** Most significant byte first. */
  lemma WordBytes(v: nat)
    requires v < TWO_32
    ensures Word(v)[0] == v / 0x100_0000 && Word(v)[1] == v / 0x1_0000 % 256
    ensures Word(v)[2] == v / 256 % 256 && Word(v)[3] == v % 256
  {
    var a, b, c := v / 256, v / 256 / 256, v / 256 / 256 / 256;
    FourBytes(v, a, b, c);
    hide BigEndian;
    assert v / 0x1_0000 == b && v / 0x100_0000 == c;
  }

  lemma FourBytes(v: nat, a: nat, b: nat, c: nat)
    requires a == v / 256 && b == a / 256 && c == b / 256
    ensures BigEndian(v, 4) == [c % 256, b % 256, a % 256, v % 256]
  {
    assert BigEndian(c, 1) == [c % 256];
    assert BigEndian(b, 2) == [c % 256, b % 256];
    assert BigEndian(a, 3) == [c % 256, b % 256, a % 256];
  }

  lemma WordRoundTrip(v: nat)
    requires v < TWO_32
    ensures Value(Word(v)) == v
  {
    SpanFour(4);
    ValueOfBigEndian(v, 4);
  }

  lemma WordOfValue(s: Bytes)
    requires |s| == 4
    ensures Word(Value(s)) == s && Value(s) < TWO_32
  {
    SpanFour(4);
    BigEndianOfValue(s);
  }

  lemma WordInjective(a: nat, b: nat)
    requires a < TWO_32 && b < TWO_32 && Word(a) == Word(b)
    ensures a == b
  {
    WordRoundTrip(a);
    WordRoundTrip(b);
  }

  // ------------------------------------------------------------------ length-prefixed strings

  /** The length is cast to 32 bits. */
  function EncodeText(t: Text): Bytes {
    Word(U32(|t|)) + t
  }

  /** The length in four bytes, most significant first, and the bytes themselves. */
  lemma TextLayout(t: Text)
    ensures var s := EncodeText(t);
      |s| == 4 + |t| && s[..4] == Word(|t| % 0x1_0000_0000) && s[4..] == t
  {
    hide Word;
  }

  ghost predicate Short(t: Text) {
    |t| < TWO_32
  }

  lemma ShortLength(t: Text)
    requires Short(t)
    ensures U32(|t|) == |t|
  {
  }

  /** A stream starts with at most one encoded string. */
  lemma TextUnique(s: Text, a: Bytes, t: Text, b: Bytes)
    requires Short(s) && Short(t) && EncodeText(s) + a == EncodeText(t) + b
    ensures s == t && a == b
  {
    ShortLength(s);
    ShortLength(t);
    SplitHead(Word(|s|), s, a, Word(|t|), t, b);
    WordInjective(|s|, |t|);
    assert (s + a)[..|s|] == s && (t + b)[..|t|] == t;
    assert (s + a)[|s|..] == a && (t + b)[|t|..] == b;
  }

  /** Streams that agree as a whole agree on an equally long head and on the rest. */
  lemma SameHead(h: Bytes, s: Bytes, k: Bytes, t: Bytes)
    requires |h| == |k| && h + s == k + t
    ensures h == k && s == t
  {
    assert (h + s)[..|h|] == h && (k + t)[..|h|] == k;
    assert (h + s)[|h|..] == s && (k + t)[|h|..] == t;
  }

  lemma SplitHead(h: Bytes, s: Bytes, a: Bytes, k: Bytes, t: Bytes, b: Bytes)
    requires |h| == |k| && h + s + a == k + t + b
    ensures h == k && s + a == t + b
  {
    assert h + s + a == h + (s + a) && k + t + b == k + (t + b);
    SameHead(h, s + a, k, t + b);
  }

  // ------------------------------------------------------------------ the modulus list

  ghost function EncodeTexts(ts: seq<Text>): Bytes {
    if ts == [] then [] else EncodeText(ts[0]) + EncodeTexts(ts[1..])
  }

  /** The byte stream that OrderedRnsSha256 hashes. */
  method OrderedRnsBytes(moduli: seq<Text>) returns (bytes: Bytes)
    ensures bytes == EncodeTexts(moduli)
  {
    bytes := [];
    for i := 0 to |moduli|
      invariant bytes + EncodeTexts(moduli[i..]) == EncodeTexts(moduli)
    {
      var length := U32(|moduli[i]|);
      assert moduli[i..][0] == moduli[i] && moduli[i..][1..] == moduli[i + 1..];
      assert bytes + EncodeTexts(moduli[i..]) == bytes + Word(length) + moduli[i] + EncodeTexts(moduli[i + 1..]);
      bytes := bytes + Word(length);
      bytes := bytes + moduli[i];
    }
  }

  lemma StreamNotEmpty(ts: seq<Text>)
    ensures EncodeTexts(ts) == [] <==> ts == []
  {
    if ts != [] { assert |EncodeText(ts[0])| >= 4; }
  }

  /** Two lists of strings below 2^32 bytes with the same stream are equal. */
  lemma {:induction false} ModulusListInjective(xs: seq<Text>, ys: seq<Text>)
    requires (forall t :: t in xs ==> Short(t)) && (forall t :: t in ys ==> Short(t))
    requires EncodeTexts(xs) == EncodeTexts(ys)
    ensures xs == ys
  {
    if xs == [] || ys == [] {
      StreamNotEmpty(xs);
      StreamNotEmpty(ys);
    } else {
      TextUnique(xs[0], EncodeTexts(xs[1..]), ys[0], EncodeTexts(ys[1..]));
      ModulusListInjective(xs[1..], ys[1..]);
      assert xs == [xs[0]] + xs[1..] && ys == [ys[0]] + ys[1..];
    }
  }

  function ZeroBytes(n: nat): Bytes {
    seq(n, i => 0)
  }

  lemma {:induction false} EmptyTexts(ts: seq<Text>)
    requires forall i :: 0 <= i < |ts| ==> ts[i] == []
    ensures EncodeTexts(ts) == ZeroBytes(4 * |ts|)
  {
    if ts != [] {
      EmptyTexts(ts[1..]);
      WordZero();
      assert EncodeText(ts[0]) == ZeroBytes(4);
    }
  }

  lemma WordZero()
    ensures Word(0) == ZeroBytes(4)
  {
    assert BigEndian(0, 1) == BigEndian(0, 0) + [0] && BigEndian(0, 2) == BigEndian(0, 1) + [0];
    assert BigEndian(0, 3) == BigEndian(0, 2) + [0];
  }

  /** The bound is needed: a string of 2^32 zero bytes has the stream of 2^30 + 1 empty strings. */
  lemma LongStringCollides(xs: seq<Text>, ys: seq<Text>)
    requires xs == [ZeroBytes(TWO_32)] && ys == seq(TWO_30 + 1, i => [])
    ensures xs != ys && EncodeTexts(xs) == EncodeTexts(ys)
  {
    EmptyTexts(ys);
    WordZero();
    assert xs[1..] == [];
    assert EncodeTexts(xs) == Word(0) + ZeroBytes(TWO_32) + [];
  }

  ghost predicate AllBelow(ts: seq<Text>, limit: nat) {
    forall t :: t in ts ==> |t| < limit
  }

  /** The streams of lists of strings shorter than the limit tell the lists apart. */
  ghost predicate InjectiveBelow(limit: nat) {
    forall xs, ys :: AllBelow(xs, limit) && AllBelow(ys, limit) && EncodeTexts(xs) == EncodeTexts(ys) ==> xs == ys
  }

  /** The bound is exact. */
  lemma InjectiveExactly(limit: nat)
    ensures InjectiveBelow(limit) <==> limit <= TWO_32
  {
    hide EncodeTexts;
    if limit <= TWO_32 {
      forall xs, ys | AllBelow(xs, limit) && AllBelow(ys, limit) && EncodeTexts(xs) == EncodeTexts(ys)
        ensures xs == ys
      {
        ModulusListInjective(xs, ys);
      }
    } else {
      var xs: seq<Text>, ys: seq<Text> := [ZeroBytes(TWO_32)], seq(TWO_30 + 1, i => []);
      LongStringCollides(xs, ys);
      assert |ZeroBytes(TWO_32)| == TWO_32;
      assert AllBelow(xs, limit) && AllBelow(ys, limit);
    }
  }

  // ------------------------------------------------------------------ the reader

  class Reader {
    const bytes: Bytes
    var pos: nat

    ghost predicate Valid()
      reads this
    {
      pos <= |bytes|
    }

    ghost function Rest(): Bytes
      reads this
      requires Valid()
    {
      bytes[pos..]
    }

    constructor (bytes: Bytes)
      ensures Valid() && this.bytes == bytes && Rest() == bytes
    {
      this.bytes, pos := bytes, 0;
    }

    method Take(size: nat) returns (r: Result<Bytes>)
      requires Valid()
      modifies this
      ensures Valid() && (r.Err? <==> |old(Rest())| < size)
      ensures r.Err? ==> pos == old(pos)
      ensures r.Ok? ==> |r.value| == size && old(Rest()) == r.value + Rest()
    {
      if size > |bytes| - pos {
        return Err(InvalidArgument("truncated binary artifact"));
      }
      r := Ok(bytes[pos..pos + size]);
      pos := pos + size;
    }

    method U8() returns (r: Result<Byte>)
      requires Valid()
      modifies this
      ensures Valid() && (r.Err? <==> old(Rest()) == [])
      ensures r.Ok? ==> old(Rest()) == [r.value] + Rest()
    {
      var taken := Take(1);
      var one :- taken;
      return Ok(one[0]);
    }

    method BE32() returns (r: Result<nat>)
      requires Valid()
      modifies this
      ensures Valid() && (r.Err? <==> |old(Rest())| < 4)
      ensures r.Ok? ==> r.value < TWO_32 && old(Rest()) == Word(r.value) + Rest()
    {
      var taken := Take(4);
      var four :- taken;
      var value: nat := 0;
      for i := 0 to 4
        invariant value == Value(four[..i])
      {
        assert four[..i + 1][..i] == four[..i];
        value := value * 256 + four[i];
      }
      assert four[..4] == four;
      WordOfValue(four);
      return Ok(value);
    }

    /** A length-prefixed string, or an error exactly when the rest starts with none. */
    method String() returns (r: Result<Text>)
      requires Valid()
      modifies this
      ensures Valid()
      ensures r.Ok? ==> Short(r.value) && old(Rest()) == EncodeText(r.value) + Rest()
      ensures r.Err? ==> forall t, rest :: Short(t) ==> old(Rest()) != EncodeText(t) + rest
    {
      hide Word;
      var prefix := BE32();
      if prefix.Err? {
        return Err(prefix.error);
      }
      var size := prefix.value;
      ghost var middle := Rest();
      r := Take(size);
      if r.Err? {
        forall t, rest | Short(t) ensures old(Rest()) != EncodeText(t) + rest {
          TooShort(old(Rest()), size, middle, t, rest);
        }
      }
    }

    method AtEnd() returns (end: bool)
      requires Valid()
      ensures end <==> Rest() == []
    {
      end := pos == |bytes|;
    }
  }

  lemma TooShort(all: Bytes, size: nat, middle: Bytes, t: Text, rest: Bytes)
    requires size < TWO_32 && all == Word(size) + middle && |middle| < size && Short(t)
    ensures all != EncodeText(t) + rest
  {
    if all == EncodeText(t) + rest {
      ShortLength(t);
      SplitHead(Word(size), middle, [], Word(|t|), t, rest);
      WordInjective(size, |t|);
    }
  }
}
