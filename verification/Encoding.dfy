/**
 Feature vectors of MinHash signatures: one-hot residues modulo m
 (`src/core/onehot_encoder.cpp`) and one-hot base-b digits with m = b*b
 (`src/core/sqrt_encoder.cpp`), with their decoders.
 */
module Encoding {
  import opened Num
  import opened Wrappers

  function Zeros(n: nat): (z: seq<int>)
    ensures |z| == n
  {
    seq(n, i => 0)
  }

  function Indicator(width: nat, hot: nat): (s: seq<int>)
    ensures |s| == width
  {
    seq(width, i => if i == hot then 1 else 0)
  }

  datatype Code = OneHot(m: nat) | Digits(m: nat, b: nat) {

    predicate Valid() {
      m > 0 && (Digits? ==> b > 0 && m == b * b)
    }

    /** Slots per signature entry. */
    function Width(): nat {
      match this
      case OneHot(m) => m
      case Digits(_, b) => 2 * b
    }

    /** The slots of one signature entry. */
    function Block(h: nat): (s: seq<int>)
      requires Valid()
      ensures |s| == Width()
    {
      match this
      case OneHot(m) => Indicator(m, h % m)
      case Digits(m, b) => Indicator(b, h % m % b) + Indicator(b, h % m / b)
    }

    ghost function BlocksOf(sig: seq<nat>): (blocks: seq<seq<int>>)
      requires Valid()
      ensures |blocks| == |sig| && Uniform(blocks, Width())
    {
      seq(|sig|, i requires 0 <= i < |sig| => Block(sig[i]))
    }
  }

  // ------------------------------------------------------------------ packed blocks

  ghost predicate Uniform(blocks: seq<seq<int>>, w: nat) {
    forall i :: 0 <= i < |blocks| ==> |blocks[i]| == w
  }

  ghost function Concat(blocks: seq<seq<int>>): seq<int> {
    if blocks == [] then [] else Concat(blocks[..|blocks| - 1]) + blocks[|blocks| - 1]
  }

  lemma {:induction false} ConcatLength(blocks: seq<seq<int>>, w: nat)
    requires Uniform(blocks, w)
    ensures |Concat(blocks)| == |blocks| * w
  {
    if blocks != [] {
      var last := |blocks| - 1;
      ConcatLength(blocks[..last], w);
      assert |blocks| * w == last * w + w;
    }
  }

  /** The blocks one after the other, zero-padded to n slots. */
  ghost function Pack(blocks: seq<seq<int>>, n: nat): (s: seq<int>)
    requires |Concat(blocks)| <= n
    ensures |s| == n
  {
    Concat(blocks) + Zeros(n - |Concat(blocks)|)
  }

  lemma {:induction false} ConcatAt(blocks: seq<seq<int>>, w: nat, i: nat, at: nat)
    requires Uniform(blocks, w) && i < |blocks| && at == i * w
    ensures at + w <= |Concat(blocks)| && Concat(blocks)[at..at + w] == blocks[i]
  {
    var last := |blocks| - 1;
    var front := Concat(blocks[..last]);
    ConcatLength(blocks[..last], w);
    assert Concat(blocks) == front + blocks[last];
    if i < last {
      ConcatAt(blocks[..last], w, i, at);
      assert (front + blocks[last])[at..at + w] == front[at..at + w];
    } else {
      assert (front + blocks[last])[at..at + w] == blocks[last];
    }
  }

  /** Block i of a packed vector is blocks[i]; past the blocks it is zero. */
  lemma PackAt(blocks: seq<seq<int>>, w: nat, n: nat, i: nat, at: nat)
    requires Uniform(blocks, w) && |Concat(blocks)| <= n && at == i * w && at + w <= n
    ensures Pack(blocks, n)[at..at + w] == if i < |blocks| then blocks[i] else Zeros(w)
  {
    hide Concat;
    var all := Concat(blocks);
    var pad := Zeros(n - |all|);
    if i < |blocks| {
      ConcatAt(blocks, w, i, at);
      assert (all + pad)[at..at + w] == all[at..at + w];
    } else {
      ConcatLength(blocks, w);
      MulMono(|blocks|, i, w);
      assert (all + pad)[at..at + w] == Zeros(w);
    }
  }

  ghost predicate Bits(s: seq<int>) {
    forall j :: 0 <= j < |s| ==> s[j] == 0 || s[j] == 1
  }

  lemma {:induction false} PackIsBits(blocks: seq<seq<int>>, n: nat)
    requires |Concat(blocks)| <= n && forall i :: 0 <= i < |blocks| ==> Bits(blocks[i])
    ensures Bits(Pack(blocks, n))
  {
    if blocks != [] {
      PackIsBits(blocks[..|blocks| - 1], n);
      assert Bits(Pack(blocks[..|blocks| - 1], n)[..|Concat(blocks[..|blocks| - 1])|]);
    }
  }

  /** The feature vector of a signature. */
  ghost function Feature(code: Code, sig: seq<nat>, n: nat): (s: seq<int>)
    requires code.Valid() && |sig| * code.Width() <= n
    ensures |s| == n
  {
    ConcatLength(code.BlocksOf(sig), code.Width());
    Pack(code.BlocksOf(sig), n)
  }

  lemma FeatureIsBits(code: Code, sig: seq<nat>, n: nat)
    requires code.Valid() && |sig| * code.Width() <= n
    ensures Bits(Feature(code, sig, n))
  {
    ConcatLength(code.BlocksOf(sig), code.Width());
    PackIsBits(code.BlocksOf(sig), n);
  }

  lemma EmptyFeature(code: Code, sig: seq<nat>, n: nat)
    requires code.Valid()
    ensures Feature(code, sig[..0], n) == Zeros(n)
  {
    assert code.BlocksOf(sig[..0]) == [];
  }

  /** One more entry appends one block. */
  lemma BlocksStep(code: Code, sig: seq<nat>, i: nat)
    requires code.Valid() && i < |sig|
    ensures Concat(code.BlocksOf(sig[..i + 1])) == Concat(code.BlocksOf(sig[..i])) + code.Block(sig[i])
    ensures |Concat(code.BlocksOf(sig[..i]))| == i * code.Width()
  {
    var blocks, front := code.BlocksOf(sig[..i + 1]), code.BlocksOf(sig[..i]);
    assert blocks[..i] == front;
    assert blocks[i] == code.Block(sig[i]);
    ConcatLength(front, code.Width());
  }

  // ------------------------------------------------------------------ encoders

  /** Slot `at + o`, for offset o of block i. */
  lemma FeatureAt(code: Code, sig: seq<nat>, n: nat, i: nat, o: nat, at: nat)
    requires code.Valid() && |sig| * code.Width() <= n && i < |sig| && o < code.Width() && at == i * code.Width()
    ensures at + o < n && Feature(code, sig, n)[at + o] == code.Block(sig[i])[o]
  {
    var w, blocks := code.Width(), code.BlocksOf(sig);
    RoomForBlock(i, |sig|, w, n);
    ConcatLength(blocks, w);
    PackAt(blocks, w, n, i, at);
    assert blocks[i] == code.Block(sig[i]);
    assert Feature(code, sig, n) == Pack(blocks, n);
    hide Feature, Pack, Concat;
    SliceIndex(Pack(blocks, n), at, w, o);
  }

  lemma SliceIndex(s: seq<int>, at: nat, w: nat, o: nat)
    requires at + w <= |s| && o < w
    ensures s[at..at + w][o] == s[at + o]
  {
  }

  lemma FeaturePadding(code: Code, sig: seq<nat>, n: nat, j: nat)
    requires code.Valid() && |sig| * code.Width() <= j < n
    ensures Feature(code, sig, n)[j] == 0
  {
    ConcatLength(code.BlocksOf(sig), code.Width());
  }

  /** One-hot slots: entry i has m slots, of which the one of its residue is set; past the entries there is padding. */
  ghost predicate IsOneHot(feature: seq<int>, sig: seq<nat>, m: nat)
    requires m > 0
  {
    && (forall i, o :: 0 <= i < |sig| && 0 <= o < m ==> OneHotSlot(feature, sig, m, i, o))
    && forall j :: |sig| * m <= j < |feature| ==> feature[j] == 0
  }

  ghost predicate OneHotSlot(feature: seq<int>, sig: seq<nat>, m: nat, i: nat, o: nat)
    requires m > 0 && i < |sig|
  {
    SlotIs(feature, i * m + o, o == sig[i] % m)
  }

  ghost predicate SlotIs(feature: seq<int>, j: int, hot: bool) {
    0 <= j < |feature| && feature[j] == if hot then 1 else 0
  }

  /** Digit slots: of the 2b slots of an entry the first b hold its low digit, the others its high digit. */
  ghost predicate IsTwoDigit(feature: seq<int>, sig: seq<nat>, b: nat)
    requires b > 0
  {
    && (forall i, o :: 0 <= i < |sig| && 0 <= o < b ==> TwoDigitSlot(feature, sig, b, i, o))
    && forall j :: |sig| * (2 * b) <= j < |feature| ==> feature[j] == 0
  }

  ghost predicate TwoDigitSlot(feature: seq<int>, sig: seq<nat>, b: nat, i: nat, o: nat)
    requires b > 0 && i < |sig|
  {
    && SlotIs(feature, i * (2 * b) + o, o == LowDigit(sig[i], b))
    && SlotIs(feature, i * (2 * b) + b + o, o == HighDigit(sig[i], b))
  }

  ghost function LowDigit(h: nat, b: nat): int
    requires b > 0
  {
    h % b
  }

  ghost function HighDigit(h: nat, b: nat): int
    requires b > 0
  {
    (h / b) % b
  }

  /** The digits of the residue modulo b*b are the two lowest digits of the number itself. */
  lemma DigitsOfResidue(h: nat, b: nat, m: nat)
    requires b > 0 && m == b * b
    ensures m > 0 && h % m % b == LowDigit(h, b) && h % m / b == HighDigit(h, b)
  {
    var q, lo, rest := h / b, h % b, h / b / b;
    var hi := q % b;
    MulMono(1, b, b);
    TwoDigits(h, b, m, q, lo, rest, hi);
    LowResidue(b, m, hi, lo);
    ModIs(h, m, rest, hi * b + lo);
    ModIs(h % m, b, hi, lo);
  }

  lemma TwoDigits(h: int, b: int, m: int, q: int, lo: int, rest: int, hi: int)
    requires m == b * b && h == q * b + lo && q == rest * b + hi
    ensures h == rest * m + (hi * b + lo)
  {
    assert (rest * b + hi) * b == rest * (b * b) + hi * b;
  }

  lemma LowResidue(b: nat, m: nat, hi: nat, lo: nat)
    requires m == b * b && hi < b && lo < b
    ensures 0 <= hi * b + lo < m
  {
    MulMono(hi, b - 1, b);
    assert (b - 1) * b == b * b - b;
  }

  lemma OneHotSlots(sig: seq<nat>, m: nat, n: nat)
    requires m > 0 && |sig| * m <= n
    ensures IsOneHot(Feature(OneHot(m), sig, n), sig, m)
  {
    hide Feature;
    var feature := Feature(OneHot(m), sig, n);
    forall i, o | 0 <= i < |sig| && 0 <= o < m
      ensures OneHotSlot(feature, sig, m, i, o)
    {
      MulMono(0, i, m);
      FeatureAt(OneHot(m), sig, n, i, o, i * m);
    }
    forall j | |sig| * m <= j < |feature| ensures feature[j] == 0 {
      MulMono(0, |sig|, m);
      FeaturePadding(OneHot(m), sig, n, j);
    }
  }

  lemma TwoDigitSlots(sig: seq<nat>, m: nat, b: nat, n: nat)
    requires b > 0 && m == b * b && |sig| * (2 * b) <= n
    ensures m > 0 && IsTwoDigit(Feature(Digits(m, b), sig, n), sig, b)
  {
    DigitsOfResidue(0, b, m);
    hide Feature, LowDigit, HighDigit;
    var feature := Feature(Digits(m, b), sig, n);
    forall i, o | 0 <= i < |sig| && 0 <= o < b
      ensures TwoDigitSlot(feature, sig, b, i, o)
    {
      MulMono(0, i, 2 * b);
      TwoDigitsAt(sig, m, b, n, i, o, i * (2 * b));
    }
    forall j | |sig| * (2 * b) <= j < |feature| ensures feature[j] == 0 {
      MulMono(0, |sig|, 2 * b);
      FeaturePadding(Digits(m, b), sig, n, j);
    }
  }

  lemma TwoDigitsAt(sig: seq<nat>, m: nat, b: nat, n: nat, i: nat, o: nat, at: nat)
    requires b > 0 && m == b * b && |sig| * (2 * b) <= n && i < |sig| && o < b && at == i * (2 * b) && m > 0
    ensures at + b + o < n
    ensures var feature := Feature(Digits(m, b), sig, n);
      && feature[at + o] == (if o == LowDigit(sig[i], b) then 1 else 0)
      && feature[at + b + o] == if o == HighDigit(sig[i], b) then 1 else 0
  {
    hide Feature, LowDigit, HighDigit;
    var code := Digits(m, b);
    DigitsOfResidue(sig[i], b, m);
    FeatureAt(code, sig, n, i, o, at);
    FeatureAt(code, sig, n, i, b + o, at);
  }

  method OneHotEncode(k: nat, m: nat, ringDim: nat, signature: seq<nat>) returns (r: Result<seq<int>>)
    requires m > 0 && k * m <= ringDim
    ensures |signature| != k ==> r.Err?
    ensures |signature| == k ==> r == Ok(Feature(OneHot(m), signature, ringDim))
    ensures r.Ok? ==> |r.value| == ringDim && IsOneHot(r.value, signature, m)
  {
    if |signature| != k {
      return Err(InvalidArgument("Signature length must equal k"));
    }
    var feature := new int[ringDim](_ => 0);
    ghost var code := OneHot(m);
    assert code.BlocksOf(signature[..0]) == [];
    for i := 0 to k
      invariant i * m <= ringDim
      invariant feature[..] == Feature(code, signature[..i], ringDim)
    {
      var bucket := signature[i] % m;
      RoomForBlock(i, k, m, ringDim);
      BlocksStep(code, signature, i);
      feature[i * m + bucket] := 1;
    }
    assert signature[..k] == signature;
    OneHotSlots(signature, m, ringDim);
    return Ok(feature[..]);
  }

  method SqrtEncode(k: nat, m: nat, base: nat, ringDim: nat, signature: seq<nat>) returns (r: Result<seq<int>>)
    requires base > 0 && m == base * base && k * (2 * base) <= ringDim
    ensures |signature| != k ==> r.Err?
    ensures |signature| == k ==> r == Ok(Feature(Digits(m, base), signature, ringDim))
    ensures r.Ok? ==> |r.value| == ringDim && IsTwoDigit(r.value, signature, base)
  {
    hide Feature, Pack, Concat;
    if |signature| != k {
      return Err(InvalidArgument("Signature length must equal k"));
    }
    var feature := new int[ringDim](_ => 0);
    var block := 2 * base;
    ghost var code := Digits(m, base);
    EmptyFeature(code, signature, ringDim);
    assert feature[..] == Zeros(ringDim);
    for i := 0 to k
      invariant i * block <= ringDim
      invariant feature[..] == Feature(code, signature[..i], ringDim)
    {
      var v := signature[i] % m;
      var lo, hi := v % base, v / base;
      var at := i * block;
      DigitBound(v, base);
      RoomForBlock(i, k, block, ringDim);
      ghost var before := feature[..];
      SetDigits(m, base, signature, ringDim, i, at, lo, hi);
      feature[at + lo] := 1;
      feature[at + base + hi] := 1;
      assert feature[..] == before[at + lo := 1][at + base + hi := 1];
    }
    assert signature[..k] == signature;
    TwoDigitSlots(signature, m, base, ringDim);
    return Ok(feature[..]);
  }

  lemma RoomForBlock(i: nat, k: nat, block: nat, n: nat)
    requires i < k && k * block <= n
    ensures i * block + block <= n && (i + 1) * block == i * block + block
  {
    MulMono(i + 1, k, block);
  }

  /** Setting the two digit slots of entry i turns the feature of i entries into that of i + 1. */
  lemma SetDigits(m: nat, b: nat, sig: seq<nat>, n: nat, i: nat, at: nat, lo: nat, hi: nat)
    requires b > 0 && m == b * b && i < |sig| && lo < b && hi < b
    requires lo == sig[i] % m % b && hi == sig[i] % m / b
    requires at == i * (2 * b) && at + 2 * b <= n
    ensures (i + 1) * (2 * b) == at + 2 * b
    ensures Feature(Digits(m, b), sig[..i], n)[at + lo := 1][at + b + hi := 1] == Feature(Digits(m, b), sig[..i + 1], n)
  {
    var code := Digits(m, b);
    RoomForBlock(i, i + 1, 2 * b, at + 2 * b);
    BlocksStep(code, sig, i);
    PlaceDigits(Concat(code.BlocksOf(sig[..i])), n - at, b, lo, hi);
  }

  /** Setting the two digit slots behind `done` completes one block. */
  lemma PlaceDigits(done: seq<int>, room: nat, b: nat, lo: nat, hi: nat)
    requires lo < b && hi < b && 2 * b <= room
    ensures (done + Zeros(room))[|done| + lo := 1][|done| + b + hi := 1]
         == done + (Indicator(b, lo) + Indicator(b, hi)) + Zeros(room - 2 * b)
  {
  }

  lemma DigitBound(v: nat, b: nat)
    requires b > 0 && v < b * b
    ensures v / b < b
  {
    if v / b >= b { MulMono(b, v / b, b); }
  }

  // ------------------------------------------------------------------ decoders

  /** Index of the first non-zero entry, 0 when there is none. */
  function FirstSet(s: seq<int>): nat {
    FirstSetFrom(s, 0)
  }

  function FirstSetFrom(s: seq<int>, j: nat): nat
    requires j <= |s|
    decreases |s| - j
  {
    if j == |s| then 0 else if s[j] != 0 then j else FirstSetFrom(s, j + 1)
  }

  lemma {:induction false} FirstSetOfIndicator(width: nat, hot: nat, j: nat)
    requires j <= hot < width
    ensures FirstSetFrom(Indicator(width, hot), j) == hot
    decreases hot - j
  {
    if j < hot { FirstSetOfIndicator(width, hot, j + 1); }
  }

  /** The first non-zero entry, and 0 for a list of zeros. */
  lemma {:induction false} FirstSetExactly(s: seq<int>, from: nat)
    requires from <= |s|
    ensures var hot := FirstSetFrom(s, from);
      if forall j :: from <= j < |s| ==> s[j] == 0 then hot == 0
      else from <= hot < |s| && s[hot] != 0 && forall j :: from <= j < hot ==> s[j] == 0
    decreases |s| - from
  {
    if from < |s| && s[from] == 0 { FirstSetExactly(s, from + 1); }
  }

  /** The inner search loops of both decoders. */
  method ScanBlock(feature: seq<int>, start: nat, width: nat) returns (hot: nat)
    requires start + width <= |feature|
    ensures hot == FirstSet(feature[start..start + width])
  {
    ghost var s := feature[start..start + width];
    hot := 0;
    var j := 0;
    while j < width
      invariant 0 <= j <= width && hot == 0
      invariant FirstSetFrom(s, 0) == FirstSetFrom(s, j)
    {
      if feature[start + j] != 0 {
        return j;
      }
      j := j + 1;
    }
  }

  method OneHotDecode(k: nat, m: nat, feature: seq<int>) returns (r: Result<seq<nat>>)
    ensures r.Err? <==> |feature| < k * m
    ensures r.Ok? ==> |r.value| == k && forall i :: 0 <= i < k ==>
              0 <= i * m <= i * m + m <= |feature| && r.value[i] == FirstSet(feature[i * m..i * m + m])
  {
    if |feature| < k * m {
      return Err(InvalidArgument("Feature vector too short"));
    }
    var buckets: seq<nat> := [];
    for i := 0 to k
      invariant |buckets| == i
      invariant forall l :: 0 <= l < i ==>
                  0 <= l * m <= l * m + m <= |feature| && buckets[l] == FirstSet(feature[l * m..l * m + m])
    {
      MulMono(i + 1, k, m);
      MulMono(0, i, m);
      assert (i + 1) * m == i * m + m;
      var j := ScanBlock(feature, i * m, m);
      buckets := buckets + [j];
    }
    return Ok(buckets);
  }

  /** Block i of the feature lies inside it. */
  ghost predicate BlockAt(feature: seq<int>, i: nat, block: nat) {
    0 <= i * block <= i * block + block <= |feature|
  }

  lemma BlockIn(feature: seq<int>, k: nat, i: nat, block: nat)
    requires i < k && k * block <= |feature|
    ensures BlockAt(feature, i, block)
  {
    MulMono(i + 1, k, block);
    MulMono(0, i, block);
    assert (i + 1) * block == i * block + block;
  }

  /** Both digits of the block at `at`. */
  method ScanDigits(feature: seq<int>, at: nat, base: nat) returns (v: nat)
    requires at + 2 * base <= |feature|
    ensures v == DecodeDigits(feature[at..at + 2 * base], base)
  {
    hide FirstSet;
    ghost var s := feature[at..at + 2 * base];
    var lo := ScanBlock(feature, at, base);
    assert feature[at..at + base] == s[..base];
    var hi := ScanBlock(feature, at + base, base);
    assert feature[at + base..at + base + base] == s[base..];
    v := hi * base + lo;
  }

  method SqrtDecode(k: nat, base: nat, feature: seq<int>) returns (r: Result<seq<nat>>)
    ensures r.Err? <==> |feature| < k * (2 * base)
    ensures r.Ok? ==> |r.value| == k && forall i :: 0 <= i < k ==>
              BlockAt(feature, i, 2 * base)
              && r.value[i] == DecodeDigits(feature[i * (2 * base)..i * (2 * base) + 2 * base], base)
  {
    hide DecodeDigits;
    var block := 2 * base;
    if |feature| < k * block {
      return Err(InvalidArgument("Feature vector too short"));
    }
    var buckets: seq<nat> := [];
    for i := 0 to k
      invariant |buckets| == i
      invariant forall l :: 0 <= l < i ==>
                  BlockAt(feature, l, block) && buckets[l] == DecodeDigits(feature[l * block..l * block + block], base)
    {
      BlockIn(feature, k, i, block);
      var v := ScanDigits(feature, i * block, base);
      buckets := buckets + [v];
    }
    return Ok(buckets);
  }

  function DecodeDigits(s: seq<int>, base: nat): nat
    requires |s| == 2 * base
  {
    FirstSet(s[base..]) * base + FirstSet(s[..base])
  }

  /** What the decoder reads in one block. */
  function DecodeBlock(code: Code, s: seq<int>): nat
    requires code.Valid() && |s| == code.Width()
  {
    match code
    case OneHot(_) => FirstSet(s)
    case Digits(_, b) => DecodeDigits(s, b)
  }

  lemma DecodeOwnBlock(code: Code, h: nat)
    requires code.Valid()
    ensures DecodeBlock(code, code.Block(h)) == h % code.m
  {
    var v := h % code.m;
    match code
    case OneHot(m) =>
      FirstSetOfIndicator(m, v, 0);
    case Digits(m, b) =>
      DigitBound(v, b);
      FirstSetOfIndicator(b, v % b, 0);
      FirstSetOfIndicator(b, v / b, 0);
      assert code.Block(h)[..b] == Indicator(b, v % b);
      assert code.Block(h)[b..] == Indicator(b, v / b);
      assert v == (v / b) * b + v % b;
  }

  /** Round trip: decoding block i of an encoded signature gives the residue of entry i. */
  lemma DecodeEncode(code: Code, sig: seq<nat>, n: nat, i: nat, at: nat)
    requires code.Valid() && |sig| * code.Width() <= n && i < |sig| && at == i * code.Width()
    ensures at + code.Width() <= n
    ensures DecodeBlock(code, Feature(code, sig, n)[at..at + code.Width()]) == sig[i] % code.m
  {
    ConcatAt(code.BlocksOf(sig), code.Width(), i, at);
    ConcatLength(code.BlocksOf(sig), code.Width());
    PackAt(code.BlocksOf(sig), code.Width(), n, i, at);
    DecodeOwnBlock(code, sig[i]);
  }

  /** Two signatures share a feature exactly when they agree in every residue. */
  lemma FeatureDeterminesResidues(code: Code, s: seq<nat>, t: seq<nat>, n: nat)
    requires code.Valid() && |s| == |t| && |s| * code.Width() <= n
    ensures Feature(code, s, n) == Feature(code, t, n) <==> forall i :: 0 <= i < |s| ==> s[i] % code.m == t[i] % code.m
  {
    hide Feature, DecodeBlock;
    if Feature(code, s, n) == Feature(code, t, n) {
      forall i | 0 <= i < |s| ensures s[i] % code.m == t[i] % code.m {
        var at := i * code.Width();
        MulMono(0, i, code.Width());
        SameFeatureSameResidue(code, s, t, n, i, at);
      }
    }
    if forall i :: 0 <= i < |s| ==> s[i] % code.m == t[i] % code.m { SameBlocks(code, s, t, n); }
  }

  lemma SameFeatureSameResidue(code: Code, s: seq<nat>, t: seq<nat>, n: nat, i: nat, at: nat)
    requires code.Valid() && |s| == |t| && |s| * code.Width() <= n && i < |s| && at == i * code.Width()
    requires Feature(code, s, n) == Feature(code, t, n)
    ensures s[i] % code.m == t[i] % code.m
  {
    hide Feature, DecodeBlock;
    DecodeEncode(code, s, n, i, at);
    DecodeEncode(code, t, n, i, at);
  }

  lemma SameBlocks(code: Code, s: seq<nat>, t: seq<nat>, n: nat)
    requires code.Valid() && |s| == |t| && |s| * code.Width() <= n
    requires forall i :: 0 <= i < |s| ==> s[i] % code.m == t[i] % code.m
    ensures Feature(code, s, n) == Feature(code, t, n)
  {
    assert code.BlocksOf(s) == code.BlocksOf(t);
  }

  /** ValidateFeature of the encoding benchmark: accepts exactly the encoding of the signature, padded to the ring. */
  method ValidateFeature(code: Code, k: nat, ringDim: nat, signature: seq<nat>, feature: seq<int>)
    returns (r: Result<()>)
    requires code.Valid() && k * code.Width() <= ringDim
    ensures r.Ok? <==> |signature| == k && feature == Feature(code, signature, ringDim)
    ensures r.Err? ==> r.error.RuntimeError?
  {
    if |feature| != ringDim || |signature| != k {
      return Err(RuntimeError("encoding correctness shape mismatch"));
    }
    var expected;
    match code {
      case OneHot(m) => expected := OneHotEncode(k, m, ringDim, signature);
      case Digits(m, base) => expected := SqrtEncode(k, m, base, ringDim, signature);
    }
    if feature != expected.value {
      return Err(RuntimeError("encoding correctness content mismatch"));
    }
    return Ok(());
  }

  // ------------------------------------------------------------------ plaintext reference

  /** Positions whose residues modulo m agree. */
  ghost function MatchCount(sx: seq<nat>, sy: seq<nat>, m: nat): (c: nat)
    requires |sx| == |sy| && m > 0
    ensures c <= |sx|
  {
    if sx == [] then 0 else
      var last := |sx| - 1;
      MatchCount(sx[..last], sy[..last], m) + if sx[last] % m == sy[last] % m then 1 else 0
  }

  /** The positions that agree. */
  ghost function Agreeing(sx: seq<nat>, sy: seq<nat>, m: nat): set<int>
    requires |sx| == |sy| && m > 0
  {
    set i | 0 <= i < |sx| && sx[i] % m == sy[i] % m
  }

  lemma {:induction false} MatchCountIsCardinality(sx: seq<nat>, sy: seq<nat>, m: nat)
    requires |sx| == |sy| && m > 0
    ensures MatchCount(sx, sy, m) == |Agreeing(sx, sy, m)|
  {
    if sx == [] {
      assert Agreeing(sx, sy, m) == {};
    } else {
      var last := |sx| - 1;
      MatchCountIsCardinality(sx[..last], sy[..last], m);
      if sx[last] % m == sy[last] % m {
        assert Agreeing(sx, sy, m) == Agreeing(sx[..last], sy[..last], m) + {last};
      } else {
        assert Agreeing(sx, sy, m) == Agreeing(sx[..last], sy[..last], m);
      }
    }
  }

  /** The plaintext count of `include/core/threshold_truth.h`, over the common length. */
  method BucketMatchCount(sx: seq<nat>, sy: seq<nat>, m: nat) returns (count: nat)
    requires m > 0
    ensures var n := if |sx| < |sy| then |sx| else |sy|;
            count == MatchCount(sx[..n], sy[..n], m) == |Agreeing(sx[..n], sy[..n], m)|
  {
    var n := if |sx| < |sy| then |sx| else |sy|;
    count := 0;
    for i := 0 to n
      invariant count == MatchCount(sx[..i], sy[..i], m)
    {
      assert sx[..i + 1][..i] == sx[..i] && sy[..i + 1][..i] == sy[..i];
      if sx[i] % m == sy[i] % m {
        count := count + 1;
      }
    }
    MatchCountIsCardinality(sx[..n], sy[..n], m);
  }
}
