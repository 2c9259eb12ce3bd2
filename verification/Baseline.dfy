/**
 The universe-sized indicator baseline (`benchmarks/baseline_engine.h`, `.cpp`):
 validated parameters that a realised ring may enlarge, indicator vectors split into
 chunks, and the encrypted inner product that returns an exact intersection size.
 */
module Baseline {
  import opened Num
  import opened Wrappers
  import opened Bfv
  import opened Params
  import opened Encoding
  import opened RotateSum
  import opened Circuits
  import opened Protocol

  // ------------------------------------------------------------------ parameters

  /** Ring dimension and modulus search for a universe. */
  method PlanUniverse(universe: nat, level: SecurityLevel) returns (ringDim: nat, search: Result<nat>)
    requires 0 < universe < TWO_32 && SearchEnds(universe)
    ensures ringDim > 0 && IsRingDim(universe, level, ringDim)
    ensures universe <= ringDim && U32(2 * ringDim) == 2 * ringDim <==> universe <= TWO_30
    ensures search.Ok? ==> LeastModulus(universe, U32(2 * ringDim), search.value)
    ensures search.Err? ==> NoModulus(universe, universe, level)
  {
    hide LeastModulus, IsPow2, IsNextPow2, Prime, U32, IsRingDim, NoModulus;
    SmallWord(universe);
    ringDim := RingDimFor(universe, level);
    DerivationRange(universe, level, ringDim);
    var twoN := U32(2 * ringDim);
    search := FindPlaintextModulus(universe, twoN);
    if search.Err? { SearchFailed(universe, level, universe, ringDim); }
  }

  lemma PlanCovers(universe: nat, level: SecurityLevel, ringDim: nat, p: nat)
    requires 0 < universe <= TWO_30 && IsRingDim(universe, level, ringDim)
      && LeastModulus(universe, U32(2 * ringDim), p)
    ensures IsPow2(ringDim) && universe <= ringDim && U32(universe + ringDim - 1) / ringDim == 1
    ensures p >= 2 && 2 * universe < p
  {
    hide LeastModulus;
    SmallWord(universe);
    RingCovers(universe, level, ringDim);
    DoubledRing(ringDim);
    ValidatedRoom(universe, ringDim, p);
    OneChunk(universe, ringDim);
  }

  class BaselineParams {
    const universeSize: nat
    const security: SecurityLevel
    var ringDim: nat
    var plaintextMod: nat
    var numCiphertexts: nat
    var requestedFeatureDim: nat

    constructor (universeSize: nat, security: SecurityLevel)
      ensures this.universeSize == universeSize && this.security == security && requestedFeatureDim == 0
    {
      this.universeSize, this.security := universeSize, security;
      ringDim, plaintextMod, numCiphertexts, requestedFeatureDim := 0, 0, 0, 0;
    }

    /** The slots cover the universe and a count of the whole universe stays below half the modulus. */
    ghost predicate Covered()
      reads this
    {
      && requestedFeatureDim == universeSize > 0
      && IsPow2(ringDim) && universeSize <= ringDim && universeSize <= numCiphertexts * ringDim && numCiphertexts >= 1
      && plaintextMod >= 2 && 2 * universeSize < plaintextMod
    }

    /** Validation is remembered by the universe size. */
    ghost predicate Valid()
      reads this
    {
      requestedFeatureDim == 0 || requestedFeatureDim == universeSize
    }

    /**
     Derived parameters, for every 32-bit universe on which the modulus search ends.  The
     ring holds the universe exactly for sizes up to 2^30, and then the parameters cover it.
     */
    method Validate() returns (r: Result<()>)
      requires Valid() && universeSize < TWO_32 && SearchEnds(universeSize)
      modifies this
      ensures Valid()
      ensures universeSize == 0 ==> r.Err? && unchanged(this)
      ensures universeSize > 0 ==> requestedFeatureDim == universeSize && IsRingDim(universeSize, security, ringDim)
      ensures r.Err? ==> plaintextMod == old(plaintextMod) && numCiphertexts == old(numCiphertexts)
      ensures r.Err? && universeSize > 0 ==> NoModulus(universeSize, universeSize, security)
      ensures r.Ok? ==> LeastModulus(universeSize, U32(2 * ringDim), plaintextMod)
      ensures r.Ok? ==> numCiphertexts == U32(universeSize + ringDim - 1) / ringDim
      ensures r.Ok? ==> (universeSize <= ringDim && U32(2 * ringDim) == 2 * ringDim <==> universeSize <= TWO_30)
      ensures r.Ok? && universeSize <= TWO_30 ==> Covered() && numCiphertexts == 1
    {
      hide LeastModulus, IsPow2, U32, IsRingDim, NoModulus;
      if universeSize == 0 {
        return Err(InvalidArgument("universe_size must be > 0"));
      }
      var planned, search := PlanUniverse(universeSize, security);
      requestedFeatureDim := universeSize;
      ringDim := planned;
      if search.Err? {
        return Err(search.error);
      }
      plaintextMod := search.value;
      numCiphertexts := U32(universeSize + ringDim - 1) / ringDim;
      if universeSize <= TWO_30 { PlanCovers(universeSize, security, planned, search.value); }
      return Ok(());
    }

    /** A realised ring dimension replaces the planned one. */
    method AdoptRuntimeRingDim(actual: nat) returns (r: Result<()>)
      requires Valid() && actual < TWO_32
      modifies this
      ensures Valid()
      ensures r.Ok? <==>
        old(requestedFeatureDim) != 0 && actual != 0 && IsPow2(actual)
        && old(requestedFeatureDim) <= actual
      ensures r.Err? ==> unchanged(this)
      ensures r.Ok? ==> ringDim == actual && numCiphertexts == 1
      ensures requestedFeatureDim == old(requestedFeatureDim) && plaintextMod == old(plaintextMod)
      ensures old(Covered()) ==> Covered()
    {
      hide IsPow2, BitAnd, U32;
      if requestedFeatureDim == 0 {
        return Err(LogicError("baseline runtime adoption requires validated parameters"));
      }
      if actual > 0 { PowerOfTwoTest(actual); }
      if actual == 0 || BitAnd(actual, actual - 1) != 0 {
        return Err(InvalidArgument("baseline runtime ring dimension must be a power of two"));
      }
      if actual < requestedFeatureDim {
        return Err(InvalidArgument("baseline runtime ring dimension does not cover the requested feature dimension"));
      }
      ringDim := actual;
      numCiphertexts := U32(requestedFeatureDim + ringDim - 1) / ringDim;
      WordPow2(actual);
      OneChunk(requestedFeatureDim, ringDim);
      return Ok(());
    }
  }

  /** A 32-bit power of two is at most 2^31. */
  lemma WordPow2(n: nat)
    requires IsPow2(n) && n < TWO_32
    ensures n <= TWO_31
  {
    hide IsPow2, Pow2;
    Pow31And32();
    if n > TWO_31 { Pow2Gap(TWO_31, n); }
  }

  lemma ValidatedRoom(universe: nat, ringDim: nat, p: nat)
    requires 0 < universe <= ringDim && LeastModulus(universe, 2 * ringDim, p)
    ensures p >= 2 && 2 * universe < p
  {
    LeastModulusDivides(universe, 2 * ringDim, p);
    RoomBelowHalf(ringDim, p, universe);
  }

  lemma OneChunk(u: nat, n: nat)
    requires 0 < u <= n <= TWO_31
    ensures U32(u + n - 1) / n == 1
  {
    SmallWord(u + n - 1);
    ModIs(u + n - 1, n, 1, u - 1);
  }

  // ------------------------------------------------------------------ indicator chunks

  /** The chunk marks the members of s among from, from + 1, ... */
  ghost predicate IsChunk(chunk: seq<int>, s: set<nat>, from: nat) {
    forall j :: 0 <= j < |chunk| ==> chunk[j] == if from + j in s then 1 else 0
  }

  /** count chunks of n slots, chunk c starting at element c * n. */
  ghost predicate AreChunks(chunks: seq<seq<int>>, s: set<nat>, n: nat, count: nat) {
    |chunks| == count && forall c :: 0 <= c < count ==> |chunks[c]| == n && IsChunkAt(chunks[c], s, n, c)
  }

  ghost predicate IsChunkAt(chunk: seq<int>, s: set<nat>, n: nat, c: nat) {
    IsChunk(chunk, s, c * n)
  }

  /** An element has one chunk and one slot. */
  lemma PlaceOf(e: nat, n: nat, c: nat, j: nat)
    requires n > 0 && j < n
    ensures c * n + j == e <==> c == e / n && j == e % n
  {
    if c * n + j == e { ModIs(e, n, c, j); }
  }

  lemma PlaceExists(e: nat, n: nat, count: nat)
    requires n > 0 && e < count * n
    ensures 0 <= e / n < count && 0 <= e % n < n
  {
    if e / n >= count { MulMono(count, e / n, n); }
  }

  lemma MarkElement(chunks: seq<seq<int>>, s: set<nat>, n: nat, count: nat, e: nat, c: nat, j: nat)
    requires n > 0 && AreChunks(chunks, s, n, count) && c < count && j < n && c == e / n && j == e % n
    ensures AreChunks(chunks[c := chunks[c][j := 1]], s + {e}, n, count)
  {
    var marked := chunks[c := chunks[c][j := 1]];
    forall d | 0 <= d < count ensures |marked[d]| == n && IsChunkAt(marked[d], s + {e}, n, d) {
      assert IsChunkAt(chunks[d], s, n, d);
      MarkChunk(chunks[d], marked[d], s, n, e, d, j);
    }
  }

  /** Marking slot e % n of chunk e / n, and no slot of any other chunk, adds e. */
  lemma MarkChunk(chunk: seq<int>, marked: seq<int>, s: set<nat>, n: nat, e: nat, d: nat, j: nat)
    requires n > 0 && |chunk| == n && IsChunkAt(chunk, s, n, d) && j == e % n && j < n
    requires marked == if d == e / n then chunk[j := 1] else chunk
    ensures IsChunkAt(marked, s + {e}, n, d)
  {
    var from := d * n;
    forall i | 0 <= i < n ensures marked[i] == if from + i in s + {e} then 1 else 0 {
      PlaceOf(e, n, d, i);
    }
  }

  method EncodeBinaryVectors(universeSize: nat, ringDim: nat, numCiphertexts: nat, elems: seq<nat>)
    returns (r: Result<seq<seq<int>>>)
    requires ringDim > 0 && universeSize <= numCiphertexts * ringDim
    ensures r.Err? <==> exists e :: e in elems && e >= universeSize
    ensures r.Err? ==> r.error.OutOfRange?
    ensures r.Ok? ==> AreChunks(r.value, Elems(elems), ringDim, numCiphertexts)
  {
    var chunks := seq(numCiphertexts, c => seq(ringDim, j => 0));
    for t := 0 to |elems|
      invariant forall i :: 0 <= i < t ==> elems[i] < universeSize
      invariant AreChunks(chunks, Elems(elems[..t]), ringDim, numCiphertexts)
    {
      var e := elems[t];
      if e >= universeSize {
        assert e in elems;
        return Err(OutOfRange("Element >= universe_size"));
      }
      var c, j := e / ringDim, e % ringDim;
      PlaceExists(e, ringDim, numCiphertexts);
      MarkElement(chunks, Elems(elems[..t]), ringDim, numCiphertexts, e, c, j);
      assert Elems(elems[..t + 1]) == Elems(elems[..t]) + {e};
      chunks := chunks[c := chunks[c][j := 1]];
    }
    assert elems[..|elems|] == elems;
    return Ok(chunks);
  }

  method EncryptChunks(ctx: Context, chunks: seq<seq<int>>) returns (cts: seq<Cipher>)
    requires ctx.Valid() && forall c :: 0 <= c < |chunks| ==> |chunks[c]| == ctx.n
    ensures |cts| == |chunks| && forall c :: 0 <= c < |chunks| ==> cts[c] == ctx.Encrypt(chunks[c])
  {
    cts := [];
    for c := 0 to |chunks|
      invariant |cts| == c && forall i :: 0 <= i < c ==> cts[i] == ctx.Encrypt(chunks[i])
    {
      cts := cts + [ctx.Encrypt(chunks[c])];
    }
  }

  // ------------------------------------------------------------------ inner product

  ghost predicate AllHold(ctx: Context, cts: seq<Cipher>) {
    forall c :: 0 <= c < |cts| ==> ctx.Holds(cts[c])
  }

  /** Sum over the chunks of the rotate-and-sum of the slotwise products. */
  ghost function InnerProduct(ctx: Context, x: seq<Cipher>, y: seq<Cipher>): (r: Cipher)
    requires ctx.Valid() && |x| == |y| > 0 && AllHold(ctx, x) && AllHold(ctx, y)
    ensures ctx.Holds(r)
  {
    var last := |x| - 1;
    if last == 0 then OneHotCircuit(ctx, x[0], y[0])
    else ctx.Add(InnerProduct(ctx, x[..last], y[..last]), OneHotCircuit(ctx, x[last], y[last]))
  }

  lemma OneProduct(ctx: Context, x: seq<Cipher>, y: seq<Cipher>)
    requires ctx.Valid() && |x| == |y| > 0 && AllHold(ctx, x) && AllHold(ctx, y)
    ensures |x| == 1 ==> InnerProduct(ctx, x, y) == OneHotCircuit(ctx, x[0], y[0])
    ensures |x| > 1 ==> var last := |x| - 1;
              InnerProduct(ctx, x, y)
                  == ctx.Add(InnerProduct(ctx, x[..last], y[..last]), OneHotCircuit(ctx, x[last], y[last]))
  {
    hide OneHotCircuit;
  }

  method ComputeInnerProduct(ctx: Context, x: seq<Cipher>, y: seq<Cipher>) returns (total: Cipher)
    requires ctx.Valid() && |x| == |y| > 0 && AllHold(ctx, x) && AllHold(ctx, y)
    ensures total == InnerProduct(ctx, x, y)
  {
    hide RotateAndAdd, InnerProduct;
    OneProduct(ctx, x[..1], y[..1]);
    var product := ctx.Multiply(x[0], y[0]);
    total := RotateAndSum(ctx, product, 1, ctx.n);
    assert x[..1][..0] == [] && x[..1][0] == x[0] && y[..1][0] == y[0];
    for i := 1 to |x|
      invariant total == InnerProduct(ctx, x[..i], y[..i])
    {
      var prodI := ctx.Multiply(x[i], y[i]);
      var partialI := RotateAndSum(ctx, prodI, 1, ctx.n);
      assert x[..i + 1][..i] == x[..i] && y[..i + 1][..i] == y[..i];
      OneProduct(ctx, x[..i + 1], y[..i + 1]);
      total := ctx.Add(total, partialI);
    }
    assert x[..|x|] == x && y[..|y|] == y;
  }

  /** Members of both sets below lim. */
  ghost function CommonBelow(x: set<nat>, y: set<nat>, lim: nat): nat {
    if lim == 0 then 0 else CommonBelow(x, y, lim - 1) + if lim - 1 in x && lim - 1 in y then 1 else 0
  }

  /** That count is the cardinality of the intersection once lim covers it. */
  lemma {:induction false} CommonIsCardinality(x: set<nat>, y: set<nat>, lim: nat)
    requires forall e :: e in x && e in y ==> e < lim
    ensures CommonBelow(x, y, lim) == |x * y|
  {
    if lim == 0 {
      assert x * y == {};
    } else if lim - 1 in x && lim - 1 in y {
      var e := lim - 1;
      CommonIsCardinality(x - {e}, y, lim - 1);
      CommonLocal(x, x - {e}, y, lim - 1);
      assert x * y == (x - {e}) * y + {e};
    } else {
      CommonIsCardinality(x, y, lim - 1);
    }
  }

  lemma {:induction false} CommonLocal(x: set<nat>, z: set<nat>, y: set<nat>, lim: nat)
    requires forall e :: e < lim ==> (e in x <==> e in z)
    ensures CommonBelow(x, y, lim) == CommonBelow(z, y, lim)
  {
    if lim > 0 { CommonLocal(x, z, y, lim - 1); }
  }

  /** The inner product of two chunks counts the common members in their range. */
  lemma {:induction false} ChunkDot(cx: seq<int>, cy: seq<int>, x: set<nat>, y: set<nat>, from: nat)
    requires |cx| == |cy| && IsChunk(cx, x, from) && IsChunk(cy, y, from)
    ensures Dot(cx, cy) == CommonBelow(x, y, from + |cx|) - CommonBelow(x, y, from)
  {
    if cx != [] {
      var last := |cx| - 1;
      ChunkDot(cx[..last], cy[..last], x, y, from);
    }
  }

  /** Encrypted chunks of the two sets. */
  ghost predicate Encrypted(ctx: Context, cts: seq<Cipher>, chunks: seq<seq<int>>, s: set<nat>)
    requires ctx.Valid()
  {
    && |cts| == |chunks| && AreChunks(chunks, s, ctx.n, |chunks|)
    && forall c :: 0 <= c < |cts| ==> |chunks[c]| <= ctx.n && cts[c] == ctx.Encrypt(chunks[c])
  }

  lemma ChunkCount(ctx: Context, cx: seq<int>, cy: seq<int>, x: set<nat>, y: set<nat>, from: nat)
    requires ctx.Valid() && |cx| == |cy| == ctx.n && IsChunk(cx, x, from) && IsChunk(cy, y, from)
    ensures OneHotCircuit(ctx, ctx.Encrypt(cx), ctx.Encrypt(cy)).slots[0]
         == (CommonBelow(x, y, from + ctx.n) - CommonBelow(x, y, from)) % ctx.p
  {
    OneHotCircuitIsDot(ctx, cx, cy);
    ChunkDot(cx, cy, x, y, from);
  }

  /** Chunk aggregation is exact, modulo p: slot 0 counts the common members below the covered range. */
  lemma {:induction false} InnerProductCounts(ctx: Context, xs: seq<Cipher>, ys: seq<Cipher>, cxs: seq<seq<int>>,
                                              cys: seq<seq<int>>, x: set<nat>, y: set<nat>, reach: nat)
    requires ctx.Valid() && |xs| == |ys| > 0 && Encrypted(ctx, xs, cxs, x) && Encrypted(ctx, ys, cys, y)
    requires reach == |xs| * ctx.n
    ensures AllHold(ctx, xs) && AllHold(ctx, ys)
    ensures InnerProduct(ctx, xs, ys).slots[0] == CommonBelow(x, y, reach) % ctx.p
  {
    hide Encrypted, AreChunks, CommonBelow, OneHotCircuit, InnerProduct;
    var last := |xs| - 1;
    var from := last * ctx.n;
    MulNext(last, ctx.n);
    LastChunk(ctx, xs, ys, cxs, cys, x, y, from);
    if last == 0 {
      InnerProductOne(ctx, xs, ys);
    } else {
      FewerChunks(ctx, xs, cxs, x, last);
      FewerChunks(ctx, ys, cys, y, last);
      InnerProductCounts(ctx, xs[..last], ys[..last], cxs[..last], cys[..last], x, y, from);
      InnerProductStep(ctx, xs, ys, CommonBelow(x, y, from), CommonBelow(x, y, reach) - CommonBelow(x, y, from));
    }
  }

  lemma InnerProductOne(ctx: Context, xs: seq<Cipher>, ys: seq<Cipher>)
    requires ctx.Valid() && |xs| == |ys| == 1 && AllHold(ctx, xs) && AllHold(ctx, ys)
    ensures InnerProduct(ctx, xs, ys) == OneHotCircuit(ctx, xs[0], ys[0])
  {
  }

  lemma InnerProductStep(ctx: Context, xs: seq<Cipher>, ys: seq<Cipher>, total: int, part: int)
    requires ctx.Valid() && |xs| == |ys| > 1 && AllHold(ctx, xs) && AllHold(ctx, ys)
    requires AllHold(ctx, xs[..|xs| - 1]) && AllHold(ctx, ys[..|xs| - 1])
    requires InnerProduct(ctx, xs[..|xs| - 1], ys[..|xs| - 1]).slots[0] == total % ctx.p
    requires OneHotCircuit(ctx, xs[|xs| - 1], ys[|xs| - 1]).slots[0] == part % ctx.p
    ensures InnerProduct(ctx, xs, ys).slots[0] == (total + part) % ctx.p
  {
    hide OneHotCircuit;
    var last := |xs| - 1;
    assert InnerProduct(ctx, xs, ys)
        == ctx.Add(InnerProduct(ctx, xs[..last], ys[..last]), OneHotCircuit(ctx, xs[last], ys[last]));
    hide InnerProduct;
    AddSlots(ctx, InnerProduct(ctx, xs[..last], ys[..last]), OneHotCircuit(ctx, xs[last], ys[last]), total, part);
  }

  lemma AddSlots(ctx: Context, a: Cipher, b: Cipher, total: int, part: int)
    requires ctx.Valid() && ctx.Holds(a) && ctx.Holds(b) && a.slots[0] == total % ctx.p && b.slots[0] == part % ctx.p
    ensures ctx.Add(a, b).slots[0] == (total + part) % ctx.p
  {
    ModAdd(total, part, ctx.p);
  }

  lemma LastChunk(ctx: Context, xs: seq<Cipher>, ys: seq<Cipher>, cxs: seq<seq<int>>, cys: seq<seq<int>>,
                  x: set<nat>, y: set<nat>, from: nat)
    requires ctx.Valid() && |xs| == |ys| > 0 && Encrypted(ctx, xs, cxs, x) && Encrypted(ctx, ys, cys, y)
    requires from == (|xs| - 1) * ctx.n
    ensures AllHold(ctx, xs) && AllHold(ctx, ys)
    ensures OneHotCircuit(ctx, xs[|xs| - 1], ys[|xs| - 1]).slots[0]
         == (CommonBelow(x, y, from + ctx.n) - CommonBelow(x, y, from)) % ctx.p
    ensures |cxs| == |cys| == |xs| && (|xs| == 1 ==> from == 0 && CommonBelow(x, y, from) == 0)
  {
    hide IsChunk, OneHotCircuit;
    var last := |xs| - 1;
    assert IsChunkAt(cxs[last], x, ctx.n, last) && IsChunkAt(cys[last], y, ctx.n, last);
    ChunkCount(ctx, cxs[last], cys[last], x, y, from);
  }

  lemma FewerChunks(ctx: Context, cts: seq<Cipher>, chunks: seq<seq<int>>, s: set<nat>, c: nat)
    requires ctx.Valid() && Encrypted(ctx, cts, chunks, s) && c <= |cts|
    ensures Encrypted(ctx, cts[..c], chunks[..c], s) && |chunks| == |cts|
  {
  }

  /** Below half the modulus the decoded slot is the cardinality of the intersection. */
  lemma IntersectionDecodes(ctx: Context, xs: seq<Cipher>, ys: seq<Cipher>, cxs: seq<seq<int>>, cys: seq<seq<int>>,
                            x: set<nat>, y: set<nat>, universe: nat)
    requires ctx.Valid() && |xs| == |ys| > 0 && Encrypted(ctx, xs, cxs, x) && Encrypted(ctx, ys, cys, y)
    requires universe <= |xs| * ctx.n && 2 * universe < ctx.p && forall e :: e in x ==> e < universe
    ensures AllHold(ctx, xs) && AllHold(ctx, ys)
    ensures ctx.Decrypt(InnerProduct(ctx, xs, ys))[0] == |x * y| <= universe
  {
    var reach := |xs| * ctx.n;
    InnerProductCounts(ctx, xs, ys, cxs, cys, x, y, reach);
    CommonIsCardinality(x, y, reach);
    CommonIsCardinality(x, y, universe);
    CommonAtMost(x, y, universe);
    DecodedExactly(ctx, InnerProduct(ctx, xs, ys), |x * y|);
  }

  lemma {:induction false} CommonAtMost(x: set<nat>, y: set<nat>, lim: nat)
    ensures CommonBelow(x, y, lim) <= lim
  {
    if lim > 0 { CommonAtMost(x, y, lim - 1); }
  }

  // ------------------------------------------------------------------ the engine

  function Ratio(part: int, whole: int): real {
    if whole == 0 then 1.0 else part as real / whole as real
  }

  /** j is part of whole; nothing of nothing counts as all. */
  ghost predicate IsRatio(j: real, part: int, whole: int) {
    if whole == 0 then j == 1.0 else j * whole as real == part as real
  }

  lemma RatioTimes(part: int, whole: int)
    ensures IsRatio(Ratio(part, whole), part, whole)
  {
  }

  datatype QueryResult = QueryResult(intersection: int, unionSize: int, jaccard: real)

  /** A prime p = 1 modulo twice the ring dimension packs that many slots. */
  ghost predicate Compatible(p: nat, ringDim: nat) {
    ringDim > 0 && Prime(p) && (p - 1) % (2 * ringDim) == 0
  }

  /** Both the planned and the realised ring must pack. */
  method ValidatePacking(p: nat, plannedRing: nat, runtimeRing: nat) returns (r: Result<()>)
    ensures r.Ok? <==> Compatible(p, plannedRing) && Compatible(p, runtimeRing)
  {
    var planned := PackedPlaintextCompatible(p, 1, plannedRing);
    if !planned { return Err(InvalidArgument("planned packed plaintext parameters are incompatible")); }
    var realized := PackedPlaintextCompatible(p, 1, runtimeRing);
    if !realized { return Err(InvalidArgument("realized packed plaintext parameters are incompatible")); }
    return Ok(());
  }

  lemma PackingCovers(p: nat, ringDim: nat, universe: nat)
    requires Compatible(p, ringDim) && universe <= ringDim
    ensures p >= 2 && 2 * universe < p
  {
    RoomBelowHalf(ringDim, p, universe);
  }

  /** Encode, encrypt, aggregate and decrypt: the number of common elements. */
  method CommonCount(ctx: Context, universe: nat, count: nat, x: seq<nat>, y: seq<nat>) returns (r: Result<int>)
    requires ctx.Valid() && count > 0 && universe <= count * ctx.n && 2 * universe < ctx.p
    ensures r.Err? <==> exists e :: e in x + y && e >= universe
    ensures r.Err? ==> r.error.OutOfRange?
    ensures r.Ok? ==> r.value == |Elems(x) * Elems(y)|
  {
    assert ctx.n > 0;
    hide AreChunks, IsPow2, InnerProduct, NoDuplicates;
    assert forall e :: e in x || e in y <==> e in x + y;
    var encodedX := EncodeBinaryVectors(universe, ctx.n, count, x);
    var chunksX :- encodedX;
    var encodedY := EncodeBinaryVectors(universe, ctx.n, count, y);
    var chunksY :- encodedY;
    var ctX := EncryptChunks(ctx, chunksX);
    var ctY := EncryptChunks(ctx, chunksY);
    IntersectionDecodes(ctx, ctX, ctY, chunksX, chunksY, Elems(x), Elems(y), universe);
    var ctResult := ComputeInnerProduct(ctx, ctX, ctY);
    var values := ctx.Decrypt(ctResult);
    return Ok(values[0]);
  }

  class BaselineEngine {
    const params: BaselineParams
    var context: Option<Context>
    var hasKeys: bool

    ghost predicate Packs(ctx: Context)
      reads params
    {
      params.Covered() && ctx.Valid() && ctx.n == params.ringDim && ctx.p == params.plaintextMod
    }

    ghost predicate Valid()
      reads this, params
    {
      && (hasKeys ==> context.Some?)
      && params.Valid()
      && (context.Some? ==> Packs(context.value))
    }

    constructor (params: BaselineParams)
      requires params.Valid()
      ensures Valid() && this.params == params && context.None? && !hasKeys
    {
      this.params, context, hasKeys := params, None, false;
    }

    /** Opens a context on the ring the library realised, which is adopted; then the universe is covered. */
    method InitializeContextOnly(runtimeRing: nat, layout: Layout) returns (r: Result<()>)
      requires Valid() && runtimeRing < TWO_32
      modifies this, params
      ensures Valid() && hasKeys == old(hasKeys)
      ensures r.Ok? ==>
        context == Some(Context(runtimeRing, old(params.plaintextMod), layout))
        && params.ringDim == runtimeRing
      ensures r.Err? ==> context == old(context) && unchanged(params)
      ensures r.Ok? <==> old(context.None?) && old(params.requestedFeatureDim) != 0
                         && Compatible(old(params.plaintextMod), old(params.ringDim))
                         && Compatible(old(params.plaintextMod), runtimeRing)
                         && IsPow2(runtimeRing) && params.universeSize <= runtimeRing
    {
      hide Compatible, IsPow2;
      if params.requestedFeatureDim == 0 {
        return Err(LogicError("FHE-IND setup requires BaselineParams::Validate() first"));
      }
      if context.Some? {
        return Err(LogicError("FHE-IND context was already initialized"));
      }
      var checked := ValidatePacking(params.plaintextMod, params.ringDim, runtimeRing);
      if checked.Err? { return Err(checked.error); }
      var adopted := params.AdoptRuntimeRingDim(runtimeRing);
      if adopted.Err? { return Err(adopted.error); }
      PackingCovers(params.plaintextMod, runtimeRing, params.universeSize);
      context := Some(Context(runtimeRing, params.plaintextMod, layout));
      return Ok(());
    }

    method InitializeKeys() returns (r: Result<()>)
      requires Valid()
      modifies this
      ensures Valid() && context == old(context)
      ensures r.Ok? <==> context.Some? && !old(hasKeys)
      ensures hasKeys == (old(hasKeys) || r.Ok?)
    {
      if context.None? {
        return Err(LogicError("FHE-IND key generation requires an initialized context"));
      }
      if hasKeys {
        return Err(LogicError("FHE-IND keys were already generated"));
      }
      hasKeys := true;
      return Ok(());
    }

    /**
     RunQueryPhased: on an initialised engine and sets inside the universe the decrypted
     count is the cardinality of the intersection, also for lists with duplicates.
     */
    method RunQueryPhased(x: seq<nat>, y: seq<nat>) returns (r: Result<QueryResult>)
      requires Valid()
      ensures !hasKeys ==> r.Err? && r.error.LogicError?
      ensures hasKeys && (exists e :: e in x + y && e >= params.universeSize) ==> r.Err? && r.error.OutOfRange?
      ensures hasKeys && (forall e :: e in x + y ==> e < params.universeSize) ==> r.Ok?
      ensures r.Ok? ==> r.value.intersection == |Elems(x) * Elems(y)|
      ensures r.Ok? ==> r.value.unionSize == |x| + |y| - |Elems(x) * Elems(y)|
      ensures r.Ok? ==> r.value.jaccard == Ratio(r.value.intersection, r.value.unionSize)
      ensures r.Ok? ==> IsRatio(r.value.jaccard, r.value.intersection, r.value.unionSize)
    {
      if context.None? {
        return Err(LogicError("FHE-IND query requires an initialized context and keys"));
      }
      if !hasKeys {
        return Err(LogicError("FHE-IND query requires generated encryption and evaluation keys"));
      }
      hide IsPow2, Ratio, IsRatio;
      var counted := CommonCount(context.value, params.universeSize, params.numCiphertexts, x, y);
      var intersection :- counted;
      var unionSize := |x| + |y| - intersection;
      RatioTimes(intersection, unionSize);
      return Ok(QueryResult(intersection, unionSize, Ratio(intersection, unionSize)));
    }
  }

  // ------------------------------------------------------------------ agreement with the plaintext Jaccard

  /** |A n B| / |A u B|, and 1 for two empty sets. */
  ghost function Jaccard(a: set<nat>, b: set<nat>): real {
    Ratio(|a * b|, |a + b|)
  }

  /** ExactJaccard of the comparison benchmark: counts in a loop over one of the two sets. */
  method ExactJaccard(a: seq<nat>, b: seq<nat>) returns (j: real)
    ensures j == Jaccard(Elems(a), Elems(b))
    ensures IsRatio(j, |Elems(a) * Elems(b)|, |Elems(a) + Elems(b)|)
  {
    var sa, sb := set e | e in a, set e | e in b;
    var inter, rest := 0, sa;
    while rest != {}
      invariant rest <= sa && inter + |rest * sb| == |sa * sb|
      decreases rest
    {
      var x :| x in rest;
      if x in sb {
        assert rest * sb == (rest - {x}) * sb + {x};
        inter := inter + 1;
      } else {
        assert rest * sb == (rest - {x}) * sb;
      }
      rest := rest - {x};
    }
    assert rest * sb == {};
    var uni := |sa| + |sb| - inter;
    UnionSize(sa, sb);
    RatioTimes(inter, uni);
    j := Ratio(inter, uni);
  }

  lemma {:induction false} UnionSize(a: set<nat>, b: set<nat>)
    ensures |a + b| == |a| + |b| - |a * b|
  {
    assert a + b == a + (b - a);
    assert b == (b - a) + a * b;
    assert |a + (b - a)| == |a| + |b - a|;
    assert |(b - a) + a * b| == |b - a| + |a * b|;
  }

  ghost predicate NoDuplicates(s: seq<nat>) {
    |Elems(s)| == |s|
  }

  lemma RatioIs(part: int, whole: int, other: int)
    requires part > 0 && whole > 0 && other > 0
    ensures Ratio(part, whole) == Ratio(part, other) <==> whole == other
  {
    var a, b := Ratio(part, whole), Ratio(part, other);
    assert a * whole as real == part as real && b * other as real == part as real;
    assert a == b ==> a * (whole as real - other as real) == 0.0;
  }

  /**
   The query's Jaccard, computed from the list lengths, is the exact one if and only if
   the sets are disjoint or neither list has duplicates.
   */
  lemma QueryJaccardExact(x: seq<nat>, y: seq<nat>)
    ensures var inter := |Elems(x) * Elems(y)|;
      (Ratio(inter, |x| + |y| - inter) == Jaccard(Elems(x), Elems(y)))
          <==> (inter == 0 || (NoDuplicates(x) && NoDuplicates(y)))
  {
    var inter := |Elems(x) * Elems(y)|;
    ListAtLeastSet(x);
    ListAtLeastSet(y);
    UnionSize(Elems(x), Elems(y));
    if inter == 0 {
      EmptyUnion(x, y);
    } else {
      SubsetSize(Elems(x) * Elems(y), Elems(x) + Elems(y));
      RatioIs(inter, |x| + |y| - inter, |Elems(x) + Elems(y)|);
    }
  }

  lemma SubsetSize(a: set<nat>, b: set<nat>)
    requires a <= b
    ensures |a| <= |b|
  {
    assert b == a + (b - a);
    assert |a + (b - a)| == |a| + |b - a|;
  }

  lemma EmptyUnion(x: seq<nat>, y: seq<nat>)
    ensures |x| + |y| == 0 <==> |Elems(x) + Elems(y)| == 0
    ensures forall n: int :: n != 0 ==> Ratio(0, n) == 0.0
  {
    if x != [] { assert x[0] in Elems(x) + Elems(y); }
    if y != [] { assert y[0] in Elems(x) + Elems(y); }
    if x == [] && y == [] { assert Elems(x) + Elems(y) == {}; }
  }
}
