/**
 The match-count and threshold protocols end to end: parameter derivation,
 context realisation, encoding, encrypted evaluation and decoding
 (`src/util/params.cpp`, `src/fhe/bfv_context.cpp`, `src/protocol/`).
 */
module Protocol {
  import opened Num
  import opened Wrappers
  import opened Bfv
  import opened Params
  import opened Encoding
  import opened RotateSum
  import opened Circuits
  import opened ThresholdPoly
  import opened PolyEval
  import opened PolyDepth
  import ThresholdDegree

  datatype PiccardParams = PiccardParams(
    k: nat, m: nat, sqrtBase: nat, featureDim: nat, ringDim: nat, plaintextMod: nat, multDepth: nat)
  {
    /** What a successful derivation establishes. */
    ghost predicate Derived() {
      && k > 0 && m >= 2
      && IsPow2(ringDim) && featureDim <= ringDim <= TWO_30
      && LeastModulus(k, 2 * ringDim, plaintextMod)
    }

    ghost predicate DerivedOneHot() {
      Derived() && featureDim == k * m
    }

    ghost predicate DerivedSqrt() {
      Derived() && IsPow2(sqrtBase) && sqrtBase >= 2 && m == sqrtBase * sqrtBase && featureDim == k * (2 * sqrtBase)
    }
  }

  // ------------------------------------------------------------------ derivation

  /** What the derivation computes from the true product of its factors, by way of its low 32 bits. */
  ghost predicate DerivedFrom(params: PiccardParams, product: nat, level: SecurityLevel) {
    && params.featureDim == U32(product)
    && IsRingDim(params.featureDim, level, params.ringDim)
    && LeastModulus(params.k, U32(2 * params.ringDim), params.plaintextMod)
  }

  /** The ring holds the true product and its double is a word. */
  ghost predicate HoldsProduct(params: PiccardParams, product: nat) {
    product <= params.ringDim && U32(2 * params.ringDim) == 2 * params.ringDim
  }

  /** The modulus search of the source ends unless its step has wrapped to 0. */
  predicate SearchEnds(product: nat) {
    !(TWO_30 < U32(product) <= TWO_31)
  }

  /** That is, exactly when twice the derived ring is not 0 as a word. */
  lemma SearchEndsExactly(product: nat, level: SecurityLevel, ringDim: nat)
    requires IsRingDim(U32(product), level, ringDim)
    ensures SearchEnds(product) <==> U32(2 * ringDim) != 0
  {
    DerivationRange(product, level, ringDim);
  }

  /** The search over the derived ring finds no modulus. */
  ghost predicate NoModulus(k: nat, product: nat, level: SecurityLevel) {
    forall ringDim: nat :: IsRingDim(U32(product), level, ringDim) ==> !SearchSucceeds(k, U32(2 * ringDim))
  }

  lemma DerivedWithinRange(params: PiccardParams, product: nat, level: SecurityLevel)
    requires DerivedFrom(params, product, level) && params.k > 0 && params.m >= 2
    ensures HoldsProduct(params, product) <==> product <= TWO_30
    ensures product <= TWO_30 ==> params.Derived() && params.featureDim == product
  {
    hide LeastModulus;
    DerivationRange(product, level, params.ringDim);
    RingCovers(params.featureDim, level, params.ringDim);
    if product <= TWO_30 { SmallWord(product); }
  }

  /** The tail of both derivations: ring dimension and plaintext modulus for a product of factors. */
  method DeriveRing(k: nat, m: nat, sqrtBase: nat, product: nat, security: SecurityLevel, multDepth: nat)
    returns (r: Result<PiccardParams>)
    requires k > 0 && m >= 2 && SearchEnds(product)
    ensures r.Ok? ==> DerivedFrom(r.value, product, security)
    ensures r.Ok? ==> (HoldsProduct(r.value, product) <==> product <= TWO_30)
    ensures r.Ok? && product <= TWO_30 ==> r.value.Derived() && r.value.featureDim == product
    ensures r.Ok? ==> r.value.k == k && r.value.m == m && r.value.sqrtBase == sqrtBase && r.value.multDepth == multDepth
    ensures r.Err? ==> NoModulus(k, product, security)
  {
    hide LeastModulus, IsPow2, IsNextPow2, Prime, U32;
    var featureDim := U32(product);
    var ringDim := RingDimFor(featureDim, security);
    DerivationRange(product, security, ringDim);
    var twoN := U32(2 * ringDim);
    var search := FindPlaintextModulus(k, twoN);
    if search.Err? {
      SearchFailed(product, security, k, ringDim);
      return Err(search.error);
    }
    var params := PiccardParams(k, m, sqrtBase, featureDim, ringDim, search.value, multDepth);
    DerivedWithinRange(params, product, security);
    return Ok(params);
  }

  lemma SearchFailed(product: nat, level: SecurityLevel, k: nat, ringDim: nat)
    requires IsRingDim(U32(product), level, ringDim)
    requires forall t: nat :: t < 1000000 && 1 + U32(2 * ringDim) * t > k ==> !Prime(1 + U32(2 * ringDim) * t)
    ensures NoModulus(k, product, level)
  {
    hide Prime, U32;
    forall other: nat | IsRingDim(U32(product), level, other) ensures !SearchSucceeds(k, U32(2 * other)) {
      RingDimUnique(U32(product), level, ringDim, other);
    }
  }

  lemma RingDimUnique(featureDim: nat, level: SecurityLevel, a: nat, b: nat)
    requires IsRingDim(featureDim, level, a) && IsRingDim(featureDim, level, b)
    ensures a == b
  {
  }

  /**
   DeriveWithoutFlooding, for every k and m on which its search ends.  A derived set holds
   its features exactly when the true product k * m is at most 2^30.
   */
  method DeriveWithoutFlooding(k: nat, m: nat, security: SecurityLevel, thresholdMode: bool, giantStep: GiantStepMode)
    returns (r: Result<PiccardParams>)
    requires SearchEnds(k * m)
    ensures k == 0 || m < 2 ==> r.Err? && r.error.InvalidArgument?
    ensures r.Ok? ==> DerivedFrom(r.value, k * m, security) && r.value.k == k && r.value.m == m
    ensures r.Ok? ==> (HoldsProduct(r.value, k * m) <==> k * m <= TWO_30)
    ensures r.Ok? && k * m <= TWO_30 ==> r.value.DerivedOneHot()
    ensures r.Ok? ==> r.value.multDepth == if thresholdMode then NaturalDepth(k, giantStep) else 1
    ensures r.Err? && k > 0 && m >= 2 ==> NoModulus(k, k * m, security)
  {
    hide DerivedFrom, SearchSucceeds, NaturalDepth, LeastModulus, IsRingDim;
    if k == 0 { return Err(InvalidArgument("k must be > 0")); }
    if m < 2 { return Err(InvalidArgument("m must be >= 2")); }
    var multDepth := 1;
    if thresholdMode {
      multDepth := PatersonStockmeyerNaturalDepth(k, giantStep);
    }
    var product := k * m;
    r := DeriveRing(k, m, 0, product, security, multDepth);
  }

  /**
   Past 2^30 a derivation can succeed without room for its features: k = m = 65536 is
   accepted at every security level, with feature dimension 0.
   */
  method DeriveWrapped(security: SecurityLevel) returns (params: PiccardParams)
    ensures params.k == params.m == 65536 && params.featureDim == 0
    ensures params.ringDim == MinRingDimForSecurity(security) < params.k * params.m && params.plaintextMod == 65537
  {
    hide IsRingDim, LeastModulus, SearchSucceeds, Prime;
    ghost var ring := SomeRing(0, security);
    WrappedProductAccepted(65536 * 65536, security, ring);
    var r := DeriveWithoutFlooding(65536, 65536, security, false, Horner);
    params := r.value;
    WrappedProductAccepted(65536 * 65536, security, params.ringDim);
    LeastUnique(65536, U32(2 * params.ringDim), params.plaintextMod, 65537);
  }

  lemma SomeRing(featureDim: nat, level: SecurityLevel) returns (ring: nat)
    requires featureDim == 0
    ensures IsRingDim(featureDim, level, ring)
  {
    ring := MinRingDimForSecurity(level);
    MinRingIsPow2(level);
  }

  lemma LeastUnique(minVal: nat, modulus: nat, p: nat, q: nat)
    requires LeastModulus(minVal, modulus, p) && LeastModulus(minVal, modulus, q)
    ensures p == q
  {
    var t: nat :| t >= 1 && p == 1 + modulus * t;
    var u: nat :| u >= 1 && q == 1 + modulus * u;
  }

  /** Number of halvings down to 1. */
  function Log2(m: nat): nat {
    if m <= 1 then 0 else 1 + Log2(m / 2)
  }

  function SqrtBase(m: nat): nat {
    Pow2(Log2(m) / 2)
  }

  lemma {:induction false} LogOfPow2(m: nat)
    requires IsPow2(m)
    ensures Pow2(Log2(m)) == m
  {
    if m > 1 { LogOfPow2(m / 2); }
  }

  /** m & (m-1) vanishes exactly on powers of two. */
  lemma {:induction false} PowerOfTwoTest(m: nat)
    requires m > 0
    ensures BitAnd(m, m - 1) == 0 <==> IsPow2(m)
  {
    if m % 2 == 1 {
      if m > 1 {
        assert (m - 1) / 2 == m / 2;
        SelfAnd(m / 2);
      }
    } else {
      assert (m - 1) / 2 == m / 2 - 1;
      PowerOfTwoTest(m / 2);
    }
  }

  lemma {:induction false} SelfAnd(v: nat)
    ensures BitAnd(v, v) == v
  {
    if v > 0 { SelfAnd(v / 2); }
  }

  /** The number of bits shifted out until 1 remains. */
  method ShiftLog2(m: nat) returns (log2m: nat)
    ensures log2m == Log2(m)
  {
    log2m := 0;
    var tmp := m;
    while tmp > 1
      invariant log2m + Log2(tmp) == Log2(m)
    {
      log2m := log2m + 1;
      tmp := tmp / 2;
    }
  }

  ghost predicate SqrtShaped(m: nat) {
    m >= 4 && IsPow2(m) && Log2(m) % 2 == 0
  }

  lemma SqrtBaseSquares(m: nat)
    requires SqrtShaped(m)
    ensures IsPow2(SqrtBase(m)) && SqrtBase(m) >= 2 && SqrtBase(m) * SqrtBase(m) == m
  {
    LogOfPow2(m);
    Pow2Add(Log2(m) / 2, Log2(m) / 2);
  }

  /** IsSqrtValid of the comparison benchmark accepts exactly the shapes the derivation accepts. */
  method IsSqrtValid(m: nat) returns (valid: bool)
    ensures valid <==> SqrtShaped(m)
  {
    if m > 0 { PowerOfTwoTest(m); }
    if m < 4 || BitAnd(m, m - 1) != 0 { return false; }
    var log2m := ShiftLog2(m);
    return log2m % 2 == 0;
  }

  /** The factors of the sqrt feature dimension, for an m whose shape is accepted. */
  function SqrtProduct(k: nat, m: nat): nat {
    k * (2 * SqrtBase(m))
  }

  method DeriveSqrtWithoutFlooding(k: nat, m: nat, security: SecurityLevel) returns (r: Result<PiccardParams>)
    requires SearchEnds(SqrtProduct(k, m))
    ensures k == 0 || !SqrtShaped(m) ==> r.Err? && r.error.InvalidArgument?
    ensures r.Ok? ==> DerivedFrom(r.value, SqrtProduct(k, m), security) && r.value.k == k && r.value.m == m
    ensures r.Ok? ==> r.value.multDepth == 3
    ensures r.Ok? ==> (HoldsProduct(r.value, SqrtProduct(k, m)) <==> SqrtProduct(k, m) <= TWO_30)
    ensures r.Ok? && SqrtProduct(k, m) <= TWO_30 ==> r.value.DerivedSqrt()
    ensures r.Err? && k > 0 && SqrtShaped(m) ==> NoModulus(k, SqrtProduct(k, m), security)
  {
    hide IsPow2, BitAnd, Log2, LeastModulus, SearchSucceeds, IsRingDim, DerivedFrom;
    if k == 0 { return Err(InvalidArgument("k must be > 0")); }
    if m < 4 { return Err(InvalidArgument("m must be >= 4 for sqrt encoding")); }
    PowerOfTwoTest(m);
    if BitAnd(m, m - 1) != 0 { return Err(InvalidArgument("m must be a power of 2 for sqrt encoding")); }
    var log2m := ShiftLog2(m);
    if log2m % 2 != 0 { return Err(InvalidArgument("log2(m) must be even for sqrt encoding")); }
    var sqrtBase := Pow2(log2m / 2);
    assert sqrtBase == SqrtBase(m);
    SqrtBaseSquares(m);
    var product := k * (2 * sqrtBase);
    r := DeriveRing(k, m, sqrtBase, product, security, 3);
  }

  // ------------------------------------------------------------------ context

  /** The packed slots of the ring exist modulo p, and p exceeds the counts. */
  ghost predicate Packs(p: nat, k: nat, ringDim: nat) {
    ringDim > 0 && p > k && Prime(p) && (p - 1) % (2 * ringDim) == 0
  }

  /** ValidatePackedPlaintextParameters. */
  method PackedPlaintextCompatible(p: nat, k: nat, ringDim: nat) returns (compatible: bool)
    ensures compatible <==> Packs(p, k, ringDim)
  {
    if ringDim == 0 { return false; }
    if p <= k { return false; }
    var prime := IsPrime(p);
    return prime && (p - 1) % (2 * ringDim) == 0;
  }

  /** A context whose plaintext modulus carries every match count without wrapping. */
  ghost predicate Realized(params: PiccardParams, ctx: Context) {
    && ctx.Valid() && ctx.p == params.plaintextMod && Prime(ctx.p) && params.k < ctx.p
    && params.featureDim <= ctx.n && 2 * params.k < ctx.p && 2 * ctx.n < ctx.p
  }

  /** The library's view of an accepted set: its modulus over the ring it realised. */
  ghost predicate Opened(params: PiccardParams, ctx: Context) {
    ctx.Valid() && ctx.p == params.plaintextMod && Prime(ctx.p) && params.k < ctx.p && 2 * ctx.n < ctx.p
  }

  /** The larger of the configured ring and the least power of two that covers the features, which wraps to 0. */
  ghost predicate PlannedRing(params: PiccardParams, planned: nat) {
    if params.featureDim > TWO_31 then planned == params.ringDim
    else exists next: nat ::
      IsNextPow2(params.featureDim, next) && planned == if next < params.ringDim then params.ringDim else next
  }

  /**
   InitializeContextOnly, for any parameter set: both the planned and the realised ring
   are validated against p.  The context carries the features and the counts exactly when
   the realised ring holds the features and 2k stays below p; a derived set always does.
   */
  method InitializeContext(params: PiccardParams, runtimeRing: nat, layout: Layout)
    returns (r: Result<Context>, ghost planned: nat)
    requires IsPow2(runtimeRing) && params.featureDim < TWO_32
    ensures PlannedRing(params, planned)
    ensures r.Ok? <==>
      Packs(params.plaintextMod, params.k, planned) && Packs(params.plaintextMod, params.k, runtimeRing)
    ensures r.Ok? ==> Opened(params, r.value) && r.value == Context(runtimeRing, params.plaintextMod, layout)
    ensures r.Ok? ==>
      (Realized(params, r.value) <==> params.featureDim <= runtimeRing && 2 * params.k < params.plaintextMod)
    ensures params.Derived() ==> planned == params.ringDim
    ensures params.Derived() ==> (r.Ok? <==> (params.plaintextMod - 1) % (2 * runtimeRing) == 0)
    ensures r.Ok? && params.Derived() && params.k <= params.featureDim <= runtimeRing ==> Realized(params, r.value)
  {
    var p := params.plaintextMod;
    if params.Derived() { DerivedPacks(params, runtimeRing); }
    if Packs(p, params.k, runtimeRing) { OpenedRealizes(params, Context(runtimeRing, p, layout)); }
    hide Packs, Realized, Opened, LeastModulus, IsPow2;
    var next := NextPowerOf2(params.featureDim);
    var needed := if next < params.ringDim then params.ringDim else next;
    planned := needed;
    PlannedIs(params, next, needed);
    hide PlannedRing, IsNextPow2;
    var plannedFits := PackedPlaintextCompatible(p, params.k, needed);
    if !plannedFits { return Err(InvalidArgument("planned packed plaintext parameters are incompatible")), needed; }
    var realizedFits := PackedPlaintextCompatible(p, params.k, runtimeRing);
    if !realizedFits { return Err(InvalidArgument("realized packed plaintext parameters are incompatible")), needed; }
    r := Ok(Context(runtimeRing, p, layout));
  }

  lemma PlannedIs(params: PiccardParams, next: nat, planned: nat)
    requires if params.featureDim > TWO_31 then next == 0 else IsNextPow2(params.featureDim, next)
    requires planned == if next < params.ringDim then params.ringDim else next
    ensures PlannedRing(params, planned) && (params.Derived() ==> planned == params.ringDim)
  {
    hide LeastModulus, IsPow2;
  }

  lemma DerivedPacks(params: PiccardParams, runtimeRing: nat)
    requires params.Derived() && runtimeRing > 0
    ensures Packs(params.plaintextMod, params.k, params.ringDim)
    ensures Packs(params.plaintextMod, params.k, runtimeRing) <==> (params.plaintextMod - 1) % (2 * runtimeRing) == 0
  {
    hide Prime, IsPow2;
    assert params.ringDim > 0;
    LeastModulusDivides(params.k, 2 * params.ringDim, params.plaintextMod);
  }

  lemma OpenedRealizes(params: PiccardParams, ctx: Context)
    requires IsPow2(ctx.n) && ctx.p == params.plaintextMod && Packs(ctx.p, params.k, ctx.n)
    ensures Opened(params, ctx)
    ensures Realized(params, ctx) <==> params.featureDim <= ctx.n && 2 * params.k < ctx.p
    ensures params.k <= params.featureDim <= ctx.n ==> Realized(params, ctx)
  {
    assert ctx.n > 0;
    hide Prime, IsPow2;
    RoomBelowHalf(ctx.n, ctx.p, ctx.n);
  }

  // ------------------------------------------------------------------ estimates

  /** (v/k - 1/m) / (1 - 1/m) */
  function BiasCorrected(v: int, k: nat, m: nat): real
    requires k > 0 && m >= 2
  {
    UnitShare(m);
    (v as real / k as real - 1.0 / m as real) / (1.0 - 1.0 / m as real)
  }

  lemma UnitShare(m: nat)
    requires m >= 2
    ensures 0.0 < 1.0 / m as real < 1.0
  {
    var r := m as real;
    assert 1.0 / r * r == 1.0;
  }

  function Clamp(x: real): (r: real)
    ensures 0.0 <= r <= 1.0 && (0.0 <= x <= 1.0 ==> r == x)
    ensures (x <= 0.0 ==> r == 0.0) && (x >= 1.0 ==> r == 1.0)
  {
    if x < 0.0 then 0.0 else if x > 1.0 then 1.0 else x
  }

  /**
   The estimate that v matches out of k buckets of size m give, without division: 0 up to
   the expected number of chance matches, 1 for k matches, and linear in between.
   */
  ghost predicate IsEstimate(estimate: real, v: int, k: nat, m: nat) {
    && (v * m <= k ==> estimate == 0.0)
    && (v >= k ==> estimate == 1.0)
    && (k <= v * m && v <= k ==> estimate * (k * (m - 1)) as real == (v * m - k) as real)
  }

  /** How often two sets of Jaccard j agree in a bucket: they share the minimum, or collide by chance. */
  ghost function CollisionRate(j: real, m: nat): real
    requires m > 0
  {
    j + (1.0 - j) / m as real
  }

  /** Where the counted rate is the one a Jaccard j gives, the estimate is j. */
  lemma EstimateInverts(estimate: real, v: int, k: nat, m: nat, j: real)
    requires k > 0 && m >= 2 && IsEstimate(estimate, v, k, m)
    requires 0.0 <= j <= 1.0 && v as real == k as real * CollisionRate(j, m)
    ensures estimate == j
  {
    hide CollisionRate, IsEstimate;
    var p, d := RatePoint(v, k, m, j);
    Within(j, d, p);
    EstimateTimes(estimate, v, k, m, p, d);
    SameQuotient(estimate, j, d);
  }

  lemma RatePoint(v: int, k: nat, m: nat, j: real) returns (p: real, d: real)
    requires k > 0 && m >= 2 && v as real == k as real * CollisionRate(j, m)
    ensures p == (v * m - k) as real && d == (k * (m - 1)) as real && p == j * d && d > 0.0 && (v <= k <==> p <= d)
  {
    hide CollisionRate;
    var q := RateIs(j, m);
    p, d := Casts(v, k, m);
    RateTimes(k as real, m as real, v as real, j, q, d, p);
  }

  lemma Within(j: real, d: real, p: real)
    requires 0.0 <= j <= 1.0 && d > 0.0 && p == j * d
    ensures 0.0 <= p <= d
  {
    RealProduct(j, d, p);
    RealProduct(1.0 - j, d, (1.0 - j) * d);
    assert (1.0 - j) * d == d - j * d;
  }

  lemma RateIs(j: real, m: nat) returns (q: real)
    requires m > 0
    ensures CollisionRate(j, m) == j + q && q * m as real == 1.0 - j
  {
    q := (1.0 - j) / m as real;
    Divided(1.0 - j, m as real);
  }

  /** The three cases of the estimate, in reals. */
  lemma EstimateTimes(estimate: real, v: int, k: nat, m: nat, p: real, d: real)
    requires k > 0 && m >= 2 && p == (v * m - k) as real && d == (k * (m - 1)) as real && 0.0 <= p <= d
    requires v <= k <==> p <= d
    ensures IsEstimate(estimate, v, k, m) ==> estimate * d == p
  {
    var vm, km := v * m, k * (m - 1);
    if IsEstimate(estimate, v, k, m) {
      assert k <= vm && v <= k;
    }
  }

  lemma Casts(v: int, k: nat, m: nat) returns (p: real, d: real)
    requires k > 0 && m >= 2
    ensures p == (v * m - k) as real == v as real * m as real - k as real
    ensures d == (k * (m - 1)) as real == k as real * (m as real - 1.0) && d > 0.0
    ensures (v >= k ==> p >= d) && (v <= k <==> p <= d)
  {
    var vm, km, low := v * m, k * m, k * (m - 1);
    p, d := (vm - k) as real, low as real;
    CastProduct(v, m, vm);
    CastProduct(k, m, km);
    CountCases(v, k, m, vm, km, low);
    KmReal(k as real, m as real, km as real);
  }

  lemma CastProduct(a: int, b: int, ab: int)
    requires ab == a * b
    ensures ab as real == a as real * b as real
  {
  }

  lemma KmReal(k: real, m: real, km: real)
    requires km == k * m
    ensures k * (m - 1.0) == km - k
  {
  }

  lemma CountCases(v: int, k: nat, m: nat, vm: int, km: int, low: int)
    requires k > 0 && m >= 2 && vm == v * m && km == k * m && low == k * (m - 1)
    ensures low == km - k && low > 0
    ensures (v >= k ==> vm - k >= low) && (v <= k <==> vm - k <= low)
  {
    if v >= k { MulMono(k, v, m); }
    if v > k { MulMono(k + 1, v, m); assert (k + 1) * m == km + m; }
    if v <= k { MulMono(v, k, m); }
    MulMono(1, k, m - 1);
  }

  lemma RateTimes(k: real, m: real, v: real, j: real, q: real, d: real, p: real)
    requires v == k * (j + q) && q * m == 1.0 - j && d == k * (m - 1.0) && p == v * m - k
    ensures p == j * d
  {
    var jm := j * m;
    assert v * m == k * (jm + q * m);
    assert k * (jm + (1.0 - j)) == k * jm + k - k * j;
    assert j * d == k * jm - k * j;
  }

  lemma SameQuotient(x: real, y: real, d: real)
    requires d > 0.0
    ensures x * d == y * d ==> x == y
  {
    assert (x - y) * d == x * d - y * d;
    if x > y { RealPositive(x - y, d, (x - y) * d); }
    if x < y { RealPositive(y - x, d, (y - x) * d); }
  }

  /** The clamped correction is the estimate. */
  lemma CorrectionEstimates(v: int, k: nat, m: nat)
    requires k > 0 && m >= 2
    ensures IsEstimate(Clamp(BiasCorrected(v, k, m)), v, k, m)
  {
    var x := BiasCorrected(v, k, m);
    var a, u := CorrectionIs(v, k, m, x);
    var p, d := Casts(v, k, m);
    Scaled(x, a, u, k as real, m as real, v as real, d, p);
    Ordered(x, d, p);
    var clamped := Clamp(x);
    hide BiasCorrected, Clamp;
    EstimateFrom(x, clamped, v, k, m, p, d);
  }

  lemma EstimateFrom(x: real, clamped: real, v: int, k: nat, m: nat, p: real, d: real)
    requires k > 0 && m >= 2 && p == (v * m - k) as real && d == (k * (m - 1)) as real && x * d == p
    requires (v >= k ==> p >= d) && (v <= k <==> p <= d)
    requires (p <= 0.0 ==> x <= 0.0) && (p >= d ==> x >= 1.0) && (0.0 <= p <= d ==> 0.0 <= x <= 1.0)
    requires (x <= 0.0 ==> clamped == 0.0) && (x >= 1.0 ==> clamped == 1.0) && (0.0 <= x <= 1.0 ==> clamped == x)
    ensures IsEstimate(clamped, v, k, m)
  {
    var vm := v * m;
    assert vm <= k <==> p <= 0.0;
    assert k <= vm <==> 0.0 <= p;
  }

  lemma CorrectionIs(v: int, k: nat, m: nat, x: real) returns (a: real, u: real)
    requires k > 0 && m >= 2 && x == BiasCorrected(v, k, m)
    ensures a * m as real == 1.0 && u * k as real == v as real && x * (1.0 - a) == u - a
  {
    UnitShare(m);
    a, u := 1.0 / m as real, v as real / k as real;
    Divided(1.0, m as real);
    Divided(v as real, k as real);
    Divided(u - a, 1.0 - a);
  }

  lemma Divided(x: real, y: real)
    requires y != 0.0
    ensures (x / y) * y == x
  {
  }

  lemma Scaled(x: real, a: real, u: real, k: real, m: real, v: real, d: real, p: real)
    requires a * m == 1.0 && u * k == v && x * (1.0 - a) == u - a && d == k * (m - 1.0) && p == v * m - k
    ensures x * d == p
  {
    var xa, um := x * a, u * m;
    assert xa * m == x * (a * m);
    assert (x - xa) * m == x * m - x;
    assert (u - a) * m == um - 1.0;
    assert x * d == k * (x * m - x);
    assert k * (um - 1.0) == (u * k) * m - k;
  }

  lemma Ordered(x: real, d: real, p: real)
    requires d > 0.0 && x * d == p
    ensures (p <= 0.0 ==> x <= 0.0) && (p >= d ==> x >= 1.0) && (0.0 <= p <= d ==> 0.0 <= x <= 1.0)
  {
    assert (x - 1.0) * d == p - d && (1.0 - x) * d == d - p && (-x) * d == -p;
    if x > 0.0 { RealPositive(x, d, p); }
    if x < 0.0 { RealPositive(-x, d, (-x) * d); }
    if x > 1.0 { RealPositive(x - 1.0, d, (x - 1.0) * d); }
    if x < 1.0 { RealPositive(1.0 - x, d, (1.0 - x) * d); }
  }

  /** The count threshold is the Jaccard threshold seen through the bias correction. */
  lemma CountThresholdIsJaccardThreshold(v: int, tau: nat, k: nat, m: nat)
    requires k > 0 && m >= 2
    ensures v >= tau <==> BiasCorrected(v, k, m) >= BiasCorrected(tau, k, m)
  {
    UnitShare(m);
    var a, kk, t := 1.0 / m as real, k as real, tau as real;
    QuotientOrder(v as real, t, kk);
    QuotientOrder(v as real / kk - a, t / kk - a, 1.0 - a);
  }

  lemma QuotientOrder(x: real, y: real, d: real)
    requires d > 0.0
    ensures x >= y <==> x / d >= y / d
  {
    var u, v := x / d, y / d;
    assert u * d == x && v * d == y;
    if u >= v { assert (u - v) * d >= 0.0; } else { assert (v - u) * d > 0.0; }
  }

  lemma InvertsAll(estimate: real, v: int, k: nat, m: nat)
    requires k > 0 && m >= 2 && IsEstimate(estimate, v, k, m)
    ensures forall j: real :: 0.0 <= j <= 1.0 && v as real == k as real * CollisionRate(j, m) ==> estimate == j
  {
    hide IsEstimate, CollisionRate;
    forall j: real | 0.0 <= j <= 1.0 && v as real == k as real * CollisionRate(j, m) ensures estimate == j {
      EstimateInverts(estimate, v, k, m, j);
    }
  }

  datatype JaccardResult = JaccardResult(matchCount: int, jaccardEstimate: real) {
    /** The estimate belongs to the count, and is the Jaccard whose collision rate was counted, if there is one. */
    ghost predicate Estimates(k: nat, m: nat)
      requires m > 0
    {
      && IsEstimate(jaccardEstimate, matchCount, k, m)
      && forall j: real :: 0.0 <= j <= 1.0 && matchCount as real == k as real * CollisionRate(j, m) ==>
           jaccardEstimate == j
    }
  }

  // ------------------------------------------------------------------ one-hot and sqrt protocols

  method DecodeCount(ctx: Context, k: nat, m: nat, ct: Cipher) returns (r: JaccardResult)
    requires ctx.Valid() && ctx.Holds(ct) && k > 0 && m >= 2
    ensures r.matchCount == ctx.Decrypt(ct)[0]
    ensures r.Estimates(k, m)
  {
    var values := ctx.Decrypt(ct);
    var v := values[0];
    CorrectionEstimates(v, k, m);
    InvertsAll(Clamp(BiasCorrected(v, k, m)), v, k, m);
    return JaccardResult(v, Clamp(BiasCorrected(v, k, m)));
  }

  /** Piccard::Run on signatures: the decrypted count is the plaintext match count. */
  method RunPiccard(params: PiccardParams, ctx: Context, sx: seq<nat>, sy: seq<nat>) returns (r: Result<JaccardResult>)
    requires params.DerivedOneHot() && Realized(params, ctx)
    ensures r.Ok? <==> |sx| == params.k && |sy| == params.k
    ensures r.Ok? ==> r.value.matchCount == MatchCount(sx, sy, params.m) == |Agreeing(sx, sy, params.m)|
    ensures r.Ok? ==> r.value.Estimates(params.k, params.m)
  {
    var fx := OneHotEncode(params.k, params.m, ctx.n, sx);
    var fy := OneHotEncode(params.k, params.m, ctx.n, sy);
    var featX :- fx;
    var featY :- fy;
    var ct := EvaluateOneHot(ctx, ctx.Encrypt(featX), ctx.Encrypt(featY));
    MatchCountIsCardinality(sx, sy, params.m);
    OneHotExact(ctx, params.m, sx, sy);
    DecodedExactly(ctx, ct, MatchCount(sx, sy, params.m));
    var result := DecodeCount(ctx, params.k, params.m, ct);
    return Ok(result);
  }

  /** SqrtPiccard::Run on signatures gives the same result, from a smaller feature. */
  method RunSqrtPiccard(params: PiccardParams, ctx: Context, sx: seq<nat>, sy: seq<nat>)
    returns (r: Result<JaccardResult>)
    requires params.DerivedSqrt() && Realized(params, ctx)
    ensures r.Ok? <==> |sx| == params.k && |sy| == params.k
    ensures r.Ok? ==> r.value.matchCount == MatchCount(sx, sy, params.m) == |Agreeing(sx, sy, params.m)|
    ensures r.Ok? ==> r.value.Estimates(params.k, params.m)
  {
    var b := params.sqrtBase;
    var fx := SqrtEncode(params.k, params.m, b, ctx.n, sx);
    var fy := SqrtEncode(params.k, params.m, b, ctx.n, sy);
    var featX :- fx;
    var featY :- fy;
    MulMono(1, params.k, 2 * b);
    var ct := EvaluateSqrt(ctx, b, ctx.Encrypt(featX), ctx.Encrypt(featY));
    MatchCountIsCardinality(sx, sy, params.m);
    SqrtExact(ctx, params.m, b, sx, sy);
    DecodedExactly(ctx, ct, MatchCount(sx, sy, params.m));
    var result := DecodeCount(ctx, params.k, params.m, ct);
    return Ok(result);
  }

  // ------------------------------------------------------------------ threshold protocol

  /** e_1 = (1, 0, ..., 0) */
  function UnitVector(n: nat): seq<int>
    requires n > 0
  {
    seq(n, j => if j == 0 then 1 else 0)
  }

  lemma MaskKeepsSlotZero(ctx: Context, ct: Cipher)
    requires ctx.Valid() && ctx.Holds(ct)
    ensures ctx.MultiplyPlain(ct, UnitVector(ctx.n)).slots[0] == ct.slots[0]
  {
    ModIs(1, ctx.p, 0, 1);
    ModIs(ct.slots[0], ctx.p, 0, ct.slots[0]);
  }

  lemma IndicatorDecodes(ctx: Context, ct: Cipher, bit: bool)
    requires ctx.Valid() && ctx.Holds(ct) && ctx.p > 2 && ct.slots[0] == if bit then 1 else 0
    ensures ctx.Decrypt(ct)[0] >= 1 <==> bit
  {
    var c := if bit then 1 else 0;
    ModIs(c, ctx.p, 0, c);
    DecodedExactly(ctx, ct, c);
  }

  /** ThresholdPiccard::EvaluateRaw: rotate-and-sum, mask slot 0, evaluate the polynomial. */
  method EvaluateThreshold(ctx: Context, poly: seq<int>, mode: GiantStepMode, x: Cipher, y: Cipher)
    returns (ct: Cipher)
    requires ctx.Valid() && ctx.Holds(x) && ctx.Holds(y) && |poly| >= 2
    ensures ctx.Holds(ct)
    ensures ct.slots[0] == Eval(poly, OneHotCircuit(ctx, x, y).slots[0]) % ctx.p
    ensures ct.depth == OneHotCircuit(ctx, x, y).depth + EvalDepth(poly, mode)
  {
    var rotatedSum := EvaluateOneHot(ctx, x, y);
    var e1 := UnitVector(ctx.n);
    var masked := ctx.MultiplyPlain(rotatedSum, e1);
    MaskKeepsSlotZero(ctx, rotatedSum);
    var evaluated, _ := EvalPolyBFV(ctx, masked, poly, mode);
    ct := evaluated.value;
    assert IsValue(ctx, masked, ct, poly);
  }

  /** The derivation provisioned the depth of the threshold circuit under this giant step. */
  ghost predicate Provisioned(params: PiccardParams, mode: GiantStepMode) {
    params.multDepth == NaturalDepth(params.k, mode)
  }

  /** Where the degree k is covered, no threshold needs more depth than provisioned. */
  lemma ThresholdDepthCovered(poly: seq<int>, k: nat, mode: GiantStepMode)
    requires |poly| == k + 1 && k >= 1
    ensures DegreeCovered(k, mode) ==> 1 + EvalDepth(poly, mode) <= NaturalDepth(k, mode)
  {
    hide DegreeCovered, EvalDepth, NaturalDepth;
    if DegreeCovered(k, mode) { CoveredFits(poly, k, mode); }
  }

  /** Where the highest power alone is too deep, every threshold that can go either way needs more. */
  lemma ThresholdDepthExceeds(poly: seq<int>, tau: nat, k: nat, p: nat, mode: GiantStepMode)
    requires Prime(p) && p > k && 1 <= tau <= k && TopPowerTooDeep(k, mode)
    requires |poly| == k + 1 && StepOn(poly, tau, k + 1, k, p)
    ensures 1 + EvalDepth(poly, mode) > NaturalDepth(k, mode)
  {
    hide EvalDepth, NaturalDepth, Prime, StepOn, TopPowerTooDeep;
    ThresholdDegree.LeadingCoefficient(poly, tau, k, p);
    ModIs(0, p, 0, 0);
    TopPowerExceeds(poly, k, mode);
  }

  lemma FreshDepth(ctx: Context, x: Cipher, y: Cipher)
    requires ctx.Valid() && ctx.Holds(x) && ctx.Holds(y) && x.depth == y.depth == 0
    ensures OneHotCircuit(ctx, x, y).depth == 1
  {
  }

  /**
   ThresholdPiccard::Run on signatures: the decision is exactly `match count >= tau`,
   for every tau up to k + 1, either giant step and either slot layout.  `depth` is the
   multiplicative depth of the returned ciphertext; against what was provisioned it is
   decided by the room of the chunks of `poly`, and for most k by k alone.
   */
  method RunThresholdPiccard(params: PiccardParams, ctx: Context, tau: nat, mode: GiantStepMode, sx: seq<nat>,
                             sy: seq<nat>)
    returns (r: Result<bool>, ghost depth: nat, ghost poly: seq<int>)
    requires params.DerivedOneHot() && Realized(params, ctx)
    ensures r.Ok? <==> tau <= params.k + 1 && |sx| == params.k && |sy| == params.k
    ensures r.Ok? ==> (r.value <==> |Agreeing(sx, sy, params.m)| >= tau)
    ensures r.Ok? ==> |poly| == params.k + 1 && StepOn(poly, tau, params.k + 1, params.k, ctx.p)
    ensures r.Ok? && Provisioned(params, mode) ==> (depth <= params.multDepth <==> RoomFits(poly, mode))
    ensures r.Ok? && Provisioned(params, mode) && DegreeCovered(params.k, mode) ==> depth <= params.multDepth
    ensures r.Ok? && Provisioned(params, mode) && TopPowerTooDeep(params.k, mode) && 1 <= tau <= params.k ==>
              depth > params.multDepth
  {
    hide DegreeCovered, EvalDepth, NaturalDepth, OneHotCircuit, LeastModulus, Prime, Feature, MatchCount;
    hide RoomFits, TopPowerTooDeep;
    depth, poly := 0, [];
    PrimeSeparates(ctx.p, params.k);
    var built := BuildThresholdPoly(tau, params.k, ctx.p);
    if built.Err? { return Err(built.error), 0, []; }
    var coeffs := built.value;
    var fx := OneHotEncode(params.k, params.m, ctx.n, sx);
    if fx.Err? { return Err(fx.error), 0, []; }
    var fy := OneHotEncode(params.k, params.m, ctx.n, sy);
    if fy.Err? { return Err(fy.error), 0, []; }
    var x, y := ctx.Encrypt(fx.value), ctx.Encrypt(fy.value);
    var ct := EvaluateThreshold(ctx, coeffs, mode, x, y);
    depth, poly := ct.depth, coeffs;
    FreshDepth(ctx, x, y);
    DepthDecided(coeffs, tau, params.k, ctx.p, mode);
    ThresholdDecides(ctx, coeffs, tau, params.k, params.m, sx, sy, x, y, ct);
    MatchCountIsCardinality(sx, sy, params.m);
    var values := ctx.Decrypt(ct);
    r := Ok(values[0] >= 1);
  }

  /** The three ways in which the depth of a threshold polynomial is decided. */
  lemma DepthDecided(poly: seq<int>, tau: nat, k: nat, p: nat, mode: GiantStepMode)
    requires Prime(p) && p > k >= 1 && |poly| == k + 1 && StepOn(poly, tau, k + 1, k, p)
    ensures 1 + EvalDepth(poly, mode) <= NaturalDepth(k, mode) <==> RoomFits(poly, mode)
    ensures DegreeCovered(k, mode) ==> 1 + EvalDepth(poly, mode) <= NaturalDepth(k, mode)
    ensures TopPowerTooDeep(k, mode) && 1 <= tau <= k ==> 1 + EvalDepth(poly, mode) > NaturalDepth(k, mode)
  {
    hide DegreeCovered, EvalDepth, NaturalDepth, Prime, RoomFits, TopPowerTooDeep, StepOn;
    DepthCovered(poly, k, mode);
    ThresholdDepthCovered(poly, k, mode);
    if TopPowerTooDeep(k, mode) && 1 <= tau <= k { ThresholdDepthExceeds(poly, tau, k, p, mode); }
  }

  /** The step polynomial at the match count decodes to the comparison. */
  lemma ThresholdDecides(ctx: Context, poly: seq<int>, tau: nat, k: nat, m: nat, sx: seq<nat>, sy: seq<nat>,
                         x: Cipher, y: Cipher, ct: Cipher)
    requires ctx.Valid() && ctx.Holds(x) && ctx.Holds(y) && ctx.Holds(ct) && m > 0 && |sx| == |sy| == k
    requires EncryptsFeature(ctx, x, OneHot(m), sx) && EncryptsFeature(ctx, y, OneHot(m), sy)
    requires k < ctx.p && ctx.p > 2 && StepOn(poly, tau, k + 1, k, ctx.p)
    requires ct.slots[0] == Eval(poly, OneHotCircuit(ctx, x, y).slots[0]) % ctx.p
    ensures ctx.Decrypt(ct)[0] >= 1 <==> MatchCount(sx, sy, m) >= tau
  {
    hide OneHotCircuit, Feature, MatchCount, Eval;
    var count := MatchCount(sx, sy, m);
    OneHotExact(ctx, m, sx, sy);
    ModIs(count, ctx.p, 0, count);
    IndicatorDecodes(ctx, ct, count >= tau);
  }
}
