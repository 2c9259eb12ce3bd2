/**
 Homomorphic polynomial evaluation (`BFVContext::EvalPolyBFV`): baby-step
 powers, chunks of s coefficients, and the two giant-step combinations.  Proved:
 the value in every slot, the exact multiplicative depth, and the number of
 giant-step multiplications.
 */
module PolyEval {
  import opened Num
  import opened Bfv
  import opened ThresholdPoly
  import opened Wrappers
  import Params

  // ------------------------------------------------------------------ values in slots

  ghost function Pow(x: int, e: nat): int {
    if e == 0 then 1 else x * Pow(x, e - 1)
  }

  lemma {:induction false} PowAdd(x: int, a: nat, b: nat)
    ensures Pow(x, a + b) == Pow(x, a) * Pow(x, b)
  {
    if a > 0 {
      PowAdd(x, a - 1, b);
      assert x * (Pow(x, a - 1) * Pow(x, b)) == (x * Pow(x, a - 1)) * Pow(x, b);
    }
  }

  /** c[0] + c[1] * x + ... + c[t - 1] * x^(t - 1) */
  ghost function PowerSum(c: seq<int>, x: int, t: nat): int
    requires t <= |c|
  {
    if t == 0 then 0 else PowerSum(c, x, t - 1) + c[t - 1] * Pow(x, t - 1)
  }

  /** The value of a polynomial, power by power. */
  lemma {:induction false} EvalIsPowerSum(c: seq<int>, x: int, t: nat)
    requires t <= |c|
    ensures Eval(c, x) == PowerSum(c, x, t) + Pow(x, t) * Eval(c[t..], x)
    ensures t == |c| ==> Eval(c, x) == PowerSum(c, x, t)
  {
    if t == 0 {
      assert c[0..] == c;
    } else {
      EvalIsPowerSum(c, x, t - 1);
      assert c[t - 1..][0] == c[t - 1] && c[t - 1..][1..] == c[t..];
      var p, e := Pow(x, t - 1), Eval(c[t..], x);
      assert Eval(c[t - 1..], x) == c[t - 1] + x * e;
      assert Pow(x, t) == x * p;
      hide Eval, Pow, PowerSum;
      SplitTerm(p, c[t - 1], x, e);
    }
    assert Eval(c[|c|..], x) == 0;
  }

  lemma SplitTerm(p: int, c: int, x: int, e: int)
    ensures p * (c + x * e) == c * p + (x * p) * e
  {
    assert p * (x * e) == (x * p) * e;
  }

  /** Slot by slot, r is the e-th power of the input. */
  ghost predicate IsPower(ctx: Context, input: Cipher, r: Cipher, e: nat)
    requires ctx.Valid() && ctx.Holds(input)
  {
    ctx.Holds(r) && forall j :: 0 <= j < ctx.n ==> r.slots[j] == Pow(input.slots[j], e) % ctx.p
  }

  /** Slot by slot, r is the polynomial c at the input. */
  ghost predicate IsValue(ctx: Context, input: Cipher, r: Cipher, c: seq<int>)
    requires ctx.Valid() && ctx.Holds(input)
  {
    ctx.Holds(r) && forall j :: 0 <= j < ctx.n ==> r.slots[j] == Eval(c, input.slots[j]) % ctx.p
  }

  lemma PowerProduct(ctx: Context, input: Cipher, a: Cipher, b: Cipher, e: nat, f: nat)
    requires ctx.Valid() && ctx.Holds(input) && IsPower(ctx, input, a, e) && IsPower(ctx, input, b, f)
    ensures IsPower(ctx, input, ctx.Multiply(a, b), e + f)
  {
    forall j | 0 <= j < ctx.n
      ensures ctx.Multiply(a, b).slots[j] == Pow(input.slots[j], e + f) % ctx.p
    {
      var x := input.slots[j];
      PowAdd(x, e, f);
      ModMul(Pow(x, e), Pow(x, f), ctx.p);
      ModMul(Pow(x, e) % ctx.p, Pow(x, f), ctx.p);
    }
  }

  lemma {:induction false} EvalAppend(c: seq<int>, d: seq<int>, x: int)
    ensures Eval(c + d, x) == Eval(c, x) + Pow(x, |c|) * Eval(d, x)
  {
    if c == [] {
      assert c + d == d;
    } else {
      assert (c + d)[1..] == c[1..] + d;
      EvalAppend(c[1..], d, x);
      Distribute(x, Eval(c[1..], x), Pow(x, |c| - 1), Eval(d, x));
    }
  }

  lemma Distribute(x: int, a: int, p: int, e: int)
    ensures x * (a + p * e) == x * a + (x * p) * e
  {
    assert x * (p * e) == (x * p) * e;
  }

  lemma EvalOne(a: int, x: int)
    ensures Eval([a], x) == a
  {
    assert [a][1..] == [];
    assert Eval([], x) == 0;
  }

  /** Coefficient c[e] times x^e. */
  lemma ScalarTerm(ctx: Context, input: Cipher, power: Cipher, e: nat, c: int)
    requires ctx.Valid() && ctx.Holds(input) && IsPower(ctx, input, power, e)
    ensures forall j :: 0 <= j < ctx.n ==>
              ctx.MultiplyScalar(power, c).slots[j] == (Pow(input.slots[j], e) * c) % ctx.p
  {
    forall j | 0 <= j < ctx.n
      ensures ctx.MultiplyScalar(power, c).slots[j] == (Pow(input.slots[j], e) * c) % ctx.p
    {
      ModMul(Pow(input.slots[j], e), c, ctx.p);
    }
  }

  /** Appending the coefficient c to a polynomial of |part| coefficients. */
  lemma AddTerm(ctx: Context, input: Cipher, part: Cipher, coeffs: seq<int>, power: Cipher, c: int)
    requires ctx.Valid() && ctx.Holds(input)
    requires IsValue(ctx, input, part, coeffs) && IsPower(ctx, input, power, |coeffs|)
    ensures IsValue(ctx, input, ctx.Add(part, ctx.MultiplyScalar(power, c)), coeffs + [c])
  {
    var term := ctx.MultiplyScalar(power, c);
    ScalarTerm(ctx, input, power, |coeffs|, c);
    forall j | 0 <= j < ctx.n
      ensures ctx.Add(part, term).slots[j] == Eval(coeffs + [c], input.slots[j]) % ctx.p
    {
      var x := input.slots[j];
      EvalAppend(coeffs, [c], x);
      EvalOne(c, x);
      ModAdd(Eval(coeffs, x), Pow(x, |coeffs|) * c, ctx.p);
    }
  }

  /** A first non-zero term after zeros only. */
  lemma FirstTerm(ctx: Context, input: Cipher, zeros: seq<int>, power: Cipher, c: int)
    requires ctx.Valid() && ctx.Holds(input) && IsPower(ctx, input, power, |zeros|)
    requires forall t :: 0 <= t < |zeros| ==> zeros[t] == 0
    ensures IsValue(ctx, input, ctx.MultiplyScalar(power, c), zeros + [c])
  {
    ScalarTerm(ctx, input, power, |zeros|, c);
    forall j | 0 <= j < ctx.n
      ensures ctx.MultiplyScalar(power, c).slots[j] == Eval(zeros + [c], input.slots[j]) % ctx.p
    {
      var x := input.slots[j];
      EvalAppend(zeros, [c], x);
      EvalOne(c, x);
      EvalZeros(zeros, x);
    }
  }

  lemma EvalAppendZero(c: seq<int>, x: int)
    ensures Eval(c + [0], x) == Eval(c, x)
  {
    EvalAppend(c, [0], x);
    EvalOne(0, x);
    assert Pow(x, |c|) * 0 == 0;
  }

  lemma AppendZero(ctx: Context, input: Cipher, part: Cipher, coeffs: seq<int>)
    requires ctx.Valid() && ctx.Holds(input) && IsValue(ctx, input, part, coeffs)
    ensures IsValue(ctx, input, part, coeffs + [0])
  {
    forall j | 0 <= j < ctx.n
      ensures part.slots[j] == Eval(coeffs + [0], input.slots[j]) % ctx.p
    {
      EvalAppendZero(coeffs, input.slots[j]);
    }
  }

  /** Adding the constant term. */
  lemma AddConstant(ctx: Context, input: Cipher, part: Cipher, tail: seq<int>, c: int, plain: seq<int>)
    requires ctx.Valid() && ctx.Holds(input) && IsValue(ctx, input, part, [0] + tail)
    requires |plain| == ctx.n && forall j :: 0 <= j < ctx.n ==> plain[j] == c
    ensures IsValue(ctx, input, ctx.AddPlain(part, plain), [c] + tail)
  {
    var sum := ctx.AddPlain(part, plain);
    forall j | 0 <= j < ctx.n
      ensures sum.slots[j] == Eval([c] + tail, input.slots[j]) % ctx.p
    {
      var x := input.slots[j];
      assert ([c] + tail)[1..] == tail && ([0] + tail)[1..] == tail;
      assert Eval([c] + tail, x) == Eval([0] + tail, x) + c;
      ModAdd(Eval([0] + tail, x), c, ctx.p);
      ModAdd(Eval([0] + tail, x) % ctx.p, c, ctx.p);
    }
  }

  /** A multiple of zero is the zero polynomial. */
  lemma ZeroCipher(ctx: Context, input: Cipher, power: Cipher, zeros: seq<int>)
    requires ctx.Valid() && ctx.Holds(input) && ctx.Holds(power)
    requires forall t :: 0 <= t < |zeros| ==> zeros[t] == 0
    ensures IsValue(ctx, input, ctx.MultiplyScalar(power, 0), zeros)
  {
    ModIs(0, ctx.p, 0, 0);
    forall j | 0 <= j < ctx.n
      ensures ctx.MultiplyScalar(power, 0).slots[j] == Eval(zeros, input.slots[j]) % ctx.p
    {
      EvalZeros(zeros, input.slots[j]);
    }
  }

  /** low(x) + x^|low| * high(x). */
  lemma Combine(ctx: Context, input: Cipher, low: Cipher, high: Cipher, power: Cipher, a: seq<int>, b: seq<int>)
    requires ctx.Valid() && ctx.Holds(input)
    requires IsValue(ctx, input, low, a) && IsValue(ctx, input, high, b) && IsPower(ctx, input, power, |a|)
    ensures IsValue(ctx, input, ctx.Add(low, ctx.Multiply(high, power)), a + b)
    ensures IsValue(ctx, input, ctx.Add(ctx.Multiply(high, power), low), a + b)
  {
    forall j | 0 <= j < ctx.n
      ensures ctx.Add(low, ctx.Multiply(high, power)).slots[j] == Eval(a + b, input.slots[j]) % ctx.p
      ensures ctx.Add(ctx.Multiply(high, power), low).slots[j] == Eval(a + b, input.slots[j]) % ctx.p
    {
      var x := input.slots[j];
      EvalAppend(a, b, x);
      ShiftedSum(Eval(a, x), Pow(x, |a|), Eval(b, x), ctx.p);
    }
  }

  lemma ShiftedSum(a: int, s: int, b: int, p: nat)
    requires p > 0
    ensures (a % p + ((b % p) * (s % p)) % p) % p == (a + s * b) % p
    ensures (((b % p) * (s % p)) % p + a % p) % p == (a + s * b) % p
  {
    ModMul(b, s, p);
    assert b * s == s * b;
    ModAdd(a, s * b, p);
  }

  // ------------------------------------------------------------------ depths

  /** Depth of x^j in the power tree: even j squares, odd j multiplies by x. */
  function PowDepth(j: nat): nat {
    if j <= 1 then 0 else if j % 2 == 0 then 1 + PowDepth(j / 2) else 1 + PowDepth(j - 1)
  }

  /** Depth of a chunk: its deepest power with a non-zero coefficient. */
  function ChunkDepth(cs: seq<int>): nat {
    if |cs| <= 1 then 0 else
      var last := |cs| - 1;
      if cs[last] == 0 then ChunkDepth(cs[..last]) else Max(ChunkDepth(cs[..last]), PowDepth(last))
  }

  /** Depth of the Horner giant step from chunk i up, for chunk depths ds and power depth d. */
  ghost function HornerDepth(ds: seq<nat>, d: nat, i: nat): nat
    requires i < |ds|
    decreases |ds| - i
  {
    if i == |ds| - 1 then ds[i] else Max(Max(HornerDepth(ds, d, i + 1), d) + 1, ds[i])
  }

  /** Largest power of two below size, and its logarithm: the tree's split point. */
  function SplitLevel(size: nat): (level: nat)
    requires size >= 2
    ensures Pow2(level) < size <= 2 * Pow2(level)
  {
    SplitLevelFrom(size, 0)
  }

  function SplitLevelFrom(size: nat, level: nat): (r: nat)
    requires Pow2(level) < size
    ensures Pow2(r) < size <= 2 * Pow2(r) && r >= level
    decreases size - Pow2(level)
  {
    if Pow2(level) * 2 < size then SplitLevelFrom(size, level + 1) else level
  }

  /** Depth of the tree giant step over chunks lo..hi. */
  ghost function TreeDepth(ds: seq<nat>, d: nat, lo: nat, hi: nat): nat
    requires lo < hi <= |ds|
    decreases hi - lo
  {
    if hi - lo == 1 then ds[lo] else
      var level := SplitLevel(hi - lo);
      var mid := lo + Pow2(level);
      Max(TreeDepth(ds, d, lo, mid), Max(TreeDepth(ds, d, mid, hi), d + level) + 1)
  }

  // ------------------------------------------------------------------ chunk boundaries

  function At(i: nat, s: nat, len: nat): (r: nat)
    ensures r <= len
  {
    if i * s <= len then i * s else len
  }

  lemma AtMono(i: nat, k: nat, s: nat, len: nat)
    requires i <= k
    ensures At(i, s, len) <= At(k, s, len)
  {
    MulMono(i, k, s);
  }

  /** Coefficients of chunks lo..hi. */
  ghost function Slice(coeffs: seq<int>, s: nat, lo: nat, hi: nat): seq<int>
    requires lo <= hi
  {
    AtMono(lo, hi, s, |coeffs|);
    coeffs[At(lo, s, |coeffs|)..At(hi, s, |coeffs|)]
  }

  /** The chunks partition the coefficients: the last starts inside, and the next would start at or past the end. */
  ghost predicate Chunked(coeffs: seq<int>, s: nat, count: nat) {
    s > 0 && count > 0 && (count - 1) * s < |coeffs| <= count * s
  }

  lemma SliceSplit(coeffs: seq<int>, s: nat, count: nat, lo: nat, mid: nat, hi: nat)
    requires Chunked(coeffs, s, count) && lo <= mid < hi <= count
    ensures Slice(coeffs, s, lo, hi) == Slice(coeffs, s, lo, mid) + Slice(coeffs, s, mid, hi)
    ensures |Slice(coeffs, s, lo, mid)| == (mid - lo) * s
  {
    AtMono(lo, mid, s, |coeffs|);
    AtMono(mid, hi, s, |coeffs|);
    MulMono(mid, count - 1, s);
    MulMono(lo, mid, s);
    assert (mid - lo) * s == mid * s - lo * s;
  }

  lemma WholeSlice(coeffs: seq<int>, s: nat, count: nat)
    requires Chunked(coeffs, s, count)
    ensures Slice(coeffs, s, 0, count) == coeffs
  {
    assert 0 * s == 0;
  }

  // ------------------------------------------------------------------ shape

  datatype GiantStepMode = Horner | Tree

  /** Smallest s >= 1 with s*s >= n. */
  function CeilSqrt(n: nat): (s: nat)
    ensures s >= 1 && s * s >= n && (s > 1 ==> (s - 1) * (s - 1) < n)
  {
    CeilSqrtFrom(n, 1)
  }

  function CeilSqrtFrom(n: nat, s: nat): (r: nat)
    requires s >= 1 && (s > 1 ==> (s - 1) * (s - 1) < n)
    ensures r >= 1 && r * r >= n && (r > 1 ==> (r - 1) * (r - 1) < n)
    decreases n + 1 - s
  {
    if s * s >= n then s else
      MulMono(1, s, s);
      CeilSqrtFrom(n, s + 1)
  }

  /** The baby-step search loop. */
  method BabyStepSize(degree: nat) returns (s: nat)
    ensures s == CeilSqrt(degree + 1)
  {
    s := 1;
    while s * s < degree + 1
      invariant s >= 1 && (s > 1 ==> (s - 1) * (s - 1) < degree + 1)
      invariant CeilSqrtFrom(degree + 1, s) == CeilSqrt(degree + 1)
      decreases degree + 1 - s
    {
      MulMono(1, s, s);
      s := s + 1;
    }
  }

  function ChunkCount(degree: nat): (count: nat)
    ensures count >= 1
  {
    var s := CeilSqrt(degree + 1);
    QuotientBounds(degree, s);
    degree / s + 1
  }

  lemma ChunkShape(coeffs: seq<int>, degree: nat, s: nat)
    requires |coeffs| == degree + 1 && s > 0
    ensures (degree + s) / s == degree / s + 1 && Chunked(coeffs, s, degree / s + 1)
  {
    QuotientBounds(degree, s);
    var q := degree / s;
    assert (q + 1) * s == q * s + s;
    ModIs(degree + s, s, q + 1, degree - q * s);
  }

  /** Smallest d with 2^d >= n. */
  function CeilLog2(n: nat): nat {
    CeilLog2From(n, 0)
  }

  function CeilLog2From(n: nat, d: nat): (r: nat)
    ensures r >= d && Pow2(r) >= n && (r > d ==> Pow2(r - 1) < n)
    decreases n - Pow2(d)
  {
    if Pow2(d) < n then CeilLog2From(n, d + 1) else d
  }

  lemma {:induction false} CeilLog2Is(n: nat, e: nat)
    requires n <= Pow2(e) && (e > 0 ==> Pow2(e - 1) < n)
    ensures CeilLog2(n) == e
  {
    var r := CeilLog2(n);
    if r < e { Params.Pow2Mono(r, e - 1); }
    if e < r { Params.Pow2Mono(e, r - 1); }
  }

  /** PatersonStockmeyerNaturalDepth: the depth the parameters provision for. */
  ghost function NaturalDepth(degree: nat, mode: GiantStepMode): nat {
    var d, count := PowDepth(CeilSqrt(degree + 1)), ChunkCount(degree);
    1 + d + match mode case Tree => CeilLog2(count) case Horner => count - 1
  }

  /** PatersonStockmeyerGiantMults. */
  ghost function GiantMults(degree: nat, mode: GiantStepMode): nat {
    var count := ChunkCount(degree);
    if count <= 1 then 0 else
      match mode case Tree => (count - 1) + (CeilLog2(count) - 1) case Horner => count - 1
  }

  /** Multiplications on the way down from x^s. */
  method BabyDepth(s: nat) returns (babyDepth: nat)
    requires s >= 1
    ensures babyDepth == PowDepth(s)
  {
    babyDepth := 0;
    var v := s;
    while v > 1
      invariant v >= 1 && babyDepth + PowDepth(v) == PowDepth(s)
      decreases v
    {
      babyDepth := babyDepth + 1;
      if v % 2 == 1 { v := v - 1; } else { v := v / 2; }
    }
  }

  method TreeLevels(count: nat) returns (levels: nat)
    ensures levels == CeilLog2(count)
  {
    levels := 0;
    while Pow2(levels) < count
      invariant CeilLog2From(count, levels) == CeilLog2(count)
      decreases count - Pow2(levels)
    {
      levels := levels + 1;
    }
  }

  /** The parameter derivation's own loops compute NaturalDepth. */
  method PatersonStockmeyerNaturalDepth(degree: nat, mode: GiantStepMode) returns (depth: nat)
    ensures depth == NaturalDepth(degree, mode)
  {
    hide PowDepth, CeilSqrt, CeilLog2;
    var s := BabyStepSize(degree);
    var babyDepth := BabyDepth(s);
    var count := (degree + s) / s;
    ChunkShape(seq(degree + 1, i => 0), degree, s);
    var giantDepth := count - 1;
    if mode == Tree {
      giantDepth := TreeLevels(count);
    }
    return 1 + babyDepth + giantDepth;
  }

  // ------------------------------------------------------------------ the evaluator

  /** powers[j] holds x^j for 1 <= j <= s; entry 0 is never used. */
  ghost predicate PowersReady(ctx: Context, ct: Cipher, powers: seq<Cipher>, s: nat)
    requires ctx.Valid() && ctx.Holds(ct)
  {
    |powers| > s && forall j :: 1 <= j <= s ==>
        IsPower(ctx, ct, powers[j], j) && powers[j].depth == ct.depth + PowDepth(j)
  }

  lemma FirstPower(ctx: Context, ct: Cipher)
    requires ctx.Valid() && ctx.Holds(ct)
    ensures IsPower(ctx, ct, ct, 1)
  {
    forall j | 0 <= j < ctx.n ensures ct.slots[j] == Pow(ct.slots[j], 1) % ctx.p {
      assert Pow(ct.slots[j], 1) == ct.slots[j] * Pow(ct.slots[j], 0);
      ModIs(ct.slots[j], ctx.p, 0, ct.slots[j]);
    }
  }

  /** The next power, by squaring or by one multiplication with x. */
  method NextPower(ctx: Context, ct: Cipher, powers: seq<Cipher>, j: nat) returns (next: Cipher)
    requires ctx.Valid() && ctx.Holds(ct) && j >= 2 && PowersReady(ctx, ct, powers, j - 1)
    ensures IsPower(ctx, ct, next, j) && next.depth == ct.depth + PowDepth(j)
  {
    if j % 2 == 0 {
      next := ctx.Multiply(powers[j / 2], powers[j / 2]);
      PowerProduct(ctx, ct, powers[j / 2], powers[j / 2], j / 2, j / 2);
    } else {
      next := ctx.Multiply(powers[j - 1], powers[1]);
      PowerProduct(ctx, ct, powers[j - 1], powers[1], j - 1, 1);
    }
  }

  method BabySteps(ctx: Context, ct: Cipher, s: nat) returns (powers: seq<Cipher>)
    requires ctx.Valid() && ctx.Holds(ct) && s >= 1
    ensures |powers| == s + 1 && PowersReady(ctx, ct, powers, s)
  {
    powers := [ct, ct];
    FirstPower(ctx, ct);
    for j := 2 to s + 1
      invariant |powers| == j && PowersReady(ctx, ct, powers, j - 1)
    {
      var next := NextPower(ctx, ct, powers, j);
      powers := powers + [next];
    }
  }

  /** State of the term loop after coefficients 1..j-1 of the chunk cs. */
  ghost predicate TermsDone(ctx: Context, ct: Cipher, cs: seq<int>, j: nat, chunk: Cipher, initialized: bool)
    requires ctx.Valid() && ctx.Holds(ct)
  {
    && 1 <= j <= |cs|
    && (initialized ==> IsValue(ctx, ct, chunk, [0] + cs[1..j]) && chunk.depth == ct.depth + ChunkDepth(cs[..j]))
    && (!initialized ==> ChunkDepth(cs[..j]) == 0 && forall t :: 1 <= t < j ==> cs[t] == 0)
  }

  lemma TermStep(ctx: Context, ct: Cipher, cs: seq<int>, j: nat, chunk: Cipher, initialized: bool, power: Cipher)
    requires ctx.Valid() && ctx.Holds(ct) && TermsDone(ctx, ct, cs, j, chunk, initialized) && j < |cs|
    requires IsPower(ctx, ct, power, j) && power.depth == ct.depth + PowDepth(j)
    ensures ctx.Holds(power) && (initialized ==> ctx.Holds(chunk))
    ensures cs[j] == 0 ==> TermsDone(ctx, ct, cs, j + 1, chunk, initialized)
    ensures cs[j] != 0 && initialized
      ==> TermsDone(ctx, ct, cs, j + 1, ctx.Add(chunk, ctx.MultiplyScalar(power, cs[j])), true)
    ensures cs[j] != 0 && !initialized ==> TermsDone(ctx, ct, cs, j + 1, ctx.MultiplyScalar(power, cs[j]), true)
  {
    var front := [0] + cs[1..j];
    assert [0] + cs[1..j + 1] == front + [cs[j]];
    assert cs[..j + 1][..j] == cs[..j];
    if initialized {
      if cs[j] == 0 {
        AppendZero(ctx, ct, chunk, front);
      } else {
        AddTerm(ctx, ct, chunk, front, power, cs[j]);
      }
    } else if cs[j] != 0 {
      FirstTerm(ctx, ct, front, power, cs[j]);
    }
  }

  lemma NoTerms(ctx: Context, ct: Cipher, cs: seq<int>)
    requires ctx.Valid() && ctx.Holds(ct) && cs != []
    ensures TermsDone(ctx, ct, cs, 1, ct, false)
  {
  }

  /** The non-constant terms of one chunk. */
  method SumTerms(ctx: Context, ct: Cipher, powers: seq<Cipher>, s: nat, coeffs: seq<int>, start: nat,
                  ghost cs: seq<int>)
    returns (chunk: Cipher, initialized: bool)
    requires ctx.Valid() && ctx.Holds(ct) && s >= 1 && PowersReady(ctx, ct, powers, s) && start < |coeffs|
    requires cs == coeffs[start..if start + s <= |coeffs| then start + s else |coeffs|]
    ensures TermsDone(ctx, ct, cs, |cs|, chunk, initialized)
  {
    hide IsValue, IsPower, ChunkDepth, PowDepth;
    chunk, initialized := ct, false;
    NoTerms(ctx, ct, cs);
    hide TermsDone;
    var j := 1;
    while j < s && start + j < |coeffs|
      invariant TermsDone(ctx, ct, cs, j, chunk, initialized)
      invariant 1 <= j <= s
      decreases s - j
    {
      var c := coeffs[start + j];
      TermStep(ctx, ct, cs, j, chunk, initialized, powers[j]);
      if c != 0 {
        var term := ctx.MultiplyScalar(powers[j], c);
        chunk := if initialized then ctx.Add(chunk, term) else term;
        initialized := true;
      }
      j := j + 1;
    }
    assert j == |cs|;
  }

  lemma AllTerms(ctx: Context, ct: Cipher, cs: seq<int>, chunk: Cipher, initialized: bool, power: Cipher)
    requires ctx.Valid() && ctx.Holds(ct) && ctx.Holds(power) && power.depth == ct.depth
    requires |cs| >= 1 && TermsDone(ctx, ct, cs, |cs|, chunk, initialized)
    ensures initialized ==> IsValue(ctx, ct, chunk, [0] + cs[1..]) && chunk.depth == ct.depth + ChunkDepth(cs)
    ensures !initialized ==> var zero := ctx.MultiplyScalar(power, 0);
              IsValue(ctx, ct, zero, [0] + cs[1..]) && zero.depth == ct.depth + ChunkDepth(cs)
  {
    assert cs[..|cs|] == cs && cs[1..|cs|] == cs[1..];
    if !initialized { ZeroCipher(ctx, ct, power, [0] + cs[1..]); }
  }

  /** Evaluate one chunk with plaintext-ciphertext operations only. */
  method EvaluateChunk(ctx: Context, ct: Cipher, powers: seq<Cipher>, s: nat, coeffs: seq<int>, i: nat)
    returns (chunk: Cipher)
    requires ctx.Valid() && ctx.Holds(ct) && s >= 1 && PowersReady(ctx, ct, powers, s) && i * s < |coeffs|
    ensures IsValue(ctx, ct, chunk, Slice(coeffs, s, i, i + 1))
    ensures chunk.depth == ct.depth + ChunkDepth(Slice(coeffs, s, i, i + 1))
  {
    ghost var cs := Slice(coeffs, s, i, i + 1);
    var start := i * s;
    SliceIsChunk(coeffs, s, i, start);
    var initialized;
    chunk, initialized := SumTerms(ctx, ct, powers, s, coeffs, start, cs);
    AllTerms(ctx, ct, cs, chunk, initialized, powers[1]);
    if !initialized {
      chunk := ctx.MultiplyScalar(powers[1], 0);
    }
    assert [cs[0]] + cs[1..] == cs;
    var c := coeffs[start];
    if c != 0 {
      var plain := seq(ctx.n, slot => c);
      AddConstant(ctx, ct, chunk, cs[1..], c, plain);
      chunk := ctx.AddPlain(chunk, plain);
    }
  }

  lemma SliceIsChunk(coeffs: seq<int>, s: nat, i: nat, start: nat)
    requires start == i * s && start < |coeffs| && s >= 1
    ensures Slice(coeffs, s, i, i + 1) == coeffs[start..if start + s <= |coeffs| then start + s else |coeffs|]
  {
    assert (i + 1) * s == i * s + s;
  }

  ghost function ChunkDepths(coeffs: seq<int>, s: nat, count: nat): (ds: seq<nat>)
    ensures |ds| == count
  {
    seq(count, i requires 0 <= i < count => ChunkDepth(Slice(coeffs, s, i, i + 1)))
  }

  ghost predicate ChunksReady(ctx: Context, ct: Cipher, chunks: seq<Cipher>, coeffs: seq<int>, s: nat)
    requires ctx.Valid() && ctx.Holds(ct)
  {
    forall i :: 0 <= i < |chunks| ==>
      && IsValue(ctx, ct, chunks[i], Slice(coeffs, s, i, i + 1))
      && chunks[i].depth == ct.depth + ChunkDepth(Slice(coeffs, s, i, i + 1))
  }

  method EvaluateChunks(ctx: Context, ct: Cipher, powers: seq<Cipher>, s: nat, coeffs: seq<int>, count: nat)
    returns (chunks: seq<Cipher>)
    requires ctx.Valid() && ctx.Holds(ct) && PowersReady(ctx, ct, powers, s) && Chunked(coeffs, s, count)
    ensures |chunks| == count && ChunksReady(ctx, ct, chunks, coeffs, s)
  {
    hide IsValue, Slice, ChunkDepth, PowersReady;
    chunks := [];
    for i := 0 to count
      invariant |chunks| == i && ChunksReady(ctx, ct, chunks, coeffs, s)
    {
      MulMono(i, count - 1, s);
      var chunk := EvaluateChunk(ctx, ct, powers, s, coeffs, i);
      chunks := chunks + [chunk];
    }
  }

  /** A partial Horner result over the chunks from i on. */
  ghost predicate HornerResult(ctx: Context, ct: Cipher, r: Cipher, coeffs: seq<int>, s: nat, count: nat, d: nat,
                               i: nat)
    requires ctx.Valid() && ctx.Holds(ct)
  {
    && i < count
    && IsValue(ctx, ct, r, Slice(coeffs, s, i, count))
    && r.depth == ct.depth + HornerDepth(ChunkDepths(coeffs, s, count), d, i)
  }

  lemma HornerStep(ctx: Context, ct: Cipher, chunks: seq<Cipher>, result: Cipher, xs: Cipher, coeffs: seq<int>, s: nat,
                   d: nat, i: nat)
    requires ctx.Valid() && ctx.Holds(ct) && Chunked(coeffs, s, |chunks|) && ChunksReady(ctx, ct, chunks, coeffs, s)
    requires IsPower(ctx, ct, xs, s) && xs.depth == ct.depth + d
    requires i + 1 < |chunks| && HornerResult(ctx, ct, result, coeffs, s, |chunks|, d, i + 1)
    ensures ctx.Holds(result) && ctx.Holds(xs) && ctx.Holds(chunks[i])
    ensures HornerResult(ctx, ct, ctx.Add(ctx.Multiply(result, xs), chunks[i]), coeffs, s, |chunks|, d, i)
  {
    var count := |chunks|;
    SliceSplit(coeffs, s, count, i, i + 1, count);
    Combine(ctx, ct, chunks[i], result, xs, Slice(coeffs, s, i, i + 1), Slice(coeffs, s, i + 1, count));
    assert ChunkDepths(coeffs, s, count)[i] == ChunkDepth(Slice(coeffs, s, i, i + 1));
  }

  lemma HornerEntry(ctx: Context, ct: Cipher, chunks: seq<Cipher>, coeffs: seq<int>, s: nat, d: nat, i: nat)
    requires ctx.Valid() && ctx.Holds(ct) && ChunksReady(ctx, ct, chunks, coeffs, s) && i + 1 == |chunks|
    ensures HornerResult(ctx, ct, chunks[i], coeffs, s, |chunks|, d, i)
  {
    assert ChunkDepths(coeffs, s, |chunks|)[i] == ChunkDepth(Slice(coeffs, s, i, i + 1));
  }

  /** From the last chunk down: multiply the result by x^s and add the chunk. */
  method HornerGiantStep(ctx: Context, ct: Cipher, chunks: seq<Cipher>, xs: Cipher, s: nat, coeffs: seq<int>)
    returns (result: Cipher, ghost mults: nat)
    requires ctx.Valid() && ctx.Holds(ct) && Chunked(coeffs, s, |chunks|) && ChunksReady(ctx, ct, chunks, coeffs, s)
    requires IsPower(ctx, ct, xs, s) && xs.depth >= ct.depth
    ensures IsValue(ctx, ct, result, coeffs)
    ensures result.depth == ct.depth + HornerDepth(ChunkDepths(coeffs, s, |chunks|), xs.depth - ct.depth, 0)
    ensures mults == |chunks| - 1
  {
    hide HornerDepth, ChunkDepths, IsValue, IsPower, ChunksReady, Eval;
    var i := |chunks| - 1;
    ghost var d := xs.depth - ct.depth;
    result, mults := chunks[i], 0;
    HornerEntry(ctx, ct, chunks, coeffs, s, d, i);
    while i > 0
      invariant 0 <= i < |chunks| && mults == |chunks| - 1 - i
      invariant HornerResult(ctx, ct, result, coeffs, s, |chunks|, d, i)
    {
      i := i - 1;
      HornerStep(ctx, ct, chunks, result, xs, coeffs, s, d, i);
      result := ctx.Multiply(result, xs);
      mults := mults + 1;
      result := ctx.Add(result, chunks[i]);
    }
    WholeSlice(coeffs, s, |chunks|);
  }

  /** giant[j] = x^(s * 2^j), at depth d + j. */
  ghost predicate GiantReady(ctx: Context, ct: Cipher, giant: seq<Cipher>, s: nat, d: nat)
    requires ctx.Valid() && ctx.Holds(ct)
  {
    forall j :: 0 <= j < |giant| ==> IsPower(ctx, ct, giant[j], Pow2(j) * s) && giant[j].depth == ct.depth + d + j
  }

  lemma GiantStep(ctx: Context, ct: Cipher, giant: seq<Cipher>, s: nat, d: nat)
    requires ctx.Valid() && ctx.Holds(ct) && |giant| >= 1 && GiantReady(ctx, ct, giant, s, d)
    ensures var last := giant[|giant| - 1];
      ctx.Holds(last) && GiantReady(ctx, ct, giant + [ctx.Multiply(last, last)], s, d)
  {
    var last, g := giant[|giant| - 1], |giant|;
    var e := Pow2(g - 1) * s;
    PowerProduct(ctx, ct, last, last, e, e);
    assert e + e == Pow2(g) * s by { assert Pow2(g) == 2 * Pow2(g - 1); assert (2 * Pow2(g - 1)) * s == 2 * e; }
  }

  method GiantPowers(ctx: Context, ct: Cipher, xs: Cipher, s: nat, count: nat)
    returns (giant: seq<Cipher>, ghost mults: nat)
    requires ctx.Valid() && ctx.Holds(ct) && IsPower(ctx, ct, xs, s) && xs.depth >= ct.depth && count >= 1
    ensures GiantReady(ctx, ct, giant, s, xs.depth - ct.depth)
    ensures |giant| >= 1 && Pow2(|giant|) >= count
    ensures mults == |giant| - 1 == if count == 1 then 0 else CeilLog2(count) - 1
  {
    giant, mults := [xs], 0;
    assert Pow2(0) * s == s;
    var span := 2;
    while span < count
      invariant |giant| >= 1 && span == Pow2(|giant|) && mults == |giant| - 1
      invariant |giant| > 1 ==> Pow2(|giant| - 1) < count
      invariant GiantReady(ctx, ct, giant, s, xs.depth - ct.depth)
      decreases count - span
    {
      GiantStep(ctx, ct, giant, s, xs.depth - ct.depth);
      var last := giant[|giant| - 1];
      giant := giant + [ctx.Multiply(last, last)];
      mults := mults + 1;
      span := span * 2;
    }
    if count > 1 {
      CeilLog2Is(count, |giant|);
    }
  }

  lemma LevelInRange(level: nat, size: nat, count: nat, g: nat)
    requires Pow2(level) < size <= count <= Pow2(g)
    ensures level < g
  {
    if level >= g { Params.Pow2Mono(g, level); }
  }

  /** One node of the tree: left + x^(s*h) * right, h = 2^level. */
  lemma CombineNode(ctx: Context, ct: Cipher, left: Cipher, right: Cipher, giant: seq<Cipher>, s: nat, d: nat,
                    coeffs: seq<int>, count: nat, lo: nat, hi: nat, level: nat)
    requires ctx.Valid() && ctx.Holds(ct) && Chunked(coeffs, s, count) && GiantReady(ctx, ct, giant, s, d)
    requires level < |giant| && lo + Pow2(level) < hi <= count
    requires IsValue(ctx, ct, left, Slice(coeffs, s, lo, lo + Pow2(level)))
    requires IsValue(ctx, ct, right, Slice(coeffs, s, lo + Pow2(level), hi))
    ensures ctx.Holds(left) && ctx.Holds(right) && ctx.Holds(giant[level])
    ensures giant[level].depth == ct.depth + d + level
    ensures IsValue(ctx, ct, ctx.Add(left, ctx.Multiply(right, giant[level])), Slice(coeffs, s, lo, hi))
  {
    var mid := lo + Pow2(level);
    SliceSplit(coeffs, s, count, lo, mid, hi);
    assert mid - lo == Pow2(level);
    Combine(ctx, ct, left, right, giant[level], Slice(coeffs, s, lo, mid), Slice(coeffs, s, mid, hi));
  }

  lemma NodeDepth(ds: seq<nat>, d: nat, lo: nat, hi: nat, level: nat, base: nat, left: nat, right: nat)
    requires lo + 1 < hi <= |ds| && level == SplitLevel(hi - lo)
    requires left == base + TreeDepth(ds, d, lo, lo + Pow2(level))
    requires right == base + TreeDepth(ds, d, lo + Pow2(level), hi)
    ensures Max(left, Max(right, base + d + level) + 1) == base + TreeDepth(ds, d, lo, hi)
  {
  }

  /** A subtree result over chunks lo..hi. */
  ghost predicate TreeResult(ctx: Context, ct: Cipher, r: Cipher, coeffs: seq<int>, s: nat, count: nat, d: nat, lo: nat,
                             hi: nat)
    requires ctx.Valid() && ctx.Holds(ct)
  {
    && lo < hi <= count
    && IsValue(ctx, ct, r, Slice(coeffs, s, lo, hi))
    && r.depth == ct.depth + TreeDepth(ChunkDepths(coeffs, s, count), d, lo, hi)
  }

  lemma TreeNode(ctx: Context, ct: Cipher, left: Cipher, right: Cipher, giant: seq<Cipher>, s: nat, d: nat,
                 coeffs: seq<int>, count: nat, lo: nat, mid: nat, hi: nat, level: nat)
    requires ctx.Valid() && ctx.Holds(ct) && Chunked(coeffs, s, count) && GiantReady(ctx, ct, giant, s, d)
    requires lo + 1 < hi <= count && level == SplitLevel(hi - lo) && level < |giant| && mid == lo + Pow2(level)
    requires TreeResult(ctx, ct, left, coeffs, s, count, d, lo, mid)
    requires TreeResult(ctx, ct, right, coeffs, s, count, d, mid, hi)
    ensures ctx.Holds(left) && ctx.Holds(right) && ctx.Holds(giant[level])
    ensures TreeResult(ctx, ct, ctx.Add(left, ctx.Multiply(right, giant[level])), coeffs, s, count, d, lo, hi)
  {
    hide IsValue, Chunked, TreeDepth, Slice, IsPower;
    CombineNode(ctx, ct, left, right, giant, s, d, coeffs, count, lo, hi, level);
    NodeDepth(ChunkDepths(coeffs, s, count), d, lo, hi, level, ct.depth, left.depth, right.depth);
  }

  lemma TreeLeafResult(ctx: Context, ct: Cipher, chunks: seq<Cipher>, coeffs: seq<int>, s: nat, d: nat, lo: nat)
    requires ctx.Valid() && ctx.Holds(ct) && ChunksReady(ctx, ct, chunks, coeffs, s) && lo < |chunks|
    ensures TreeResult(ctx, ct, chunks[lo], coeffs, s, |chunks|, d, lo, lo + 1)
  {
    assert ChunkDepths(coeffs, s, |chunks|)[lo] == ChunkDepth(Slice(coeffs, s, lo, lo + 1));
  }

  /** The loop that finds the split point. */
  method FindSplit(size: nat) returns (h: nat, level: nat)
    requires size >= 2
    ensures level == SplitLevel(size) && h == Pow2(level) && h < size
  {
    h, level := 1, 0;
    while h * 2 < size
      invariant h == Pow2(level) && h < size
      invariant SplitLevelFrom(size, level) == SplitLevel(size)
      decreases size - h
    {
      h, level := h * 2, level + 1;
    }
  }

  /** The recursive lambda: split at the largest power of two below the size. */
  method CombineTree(ctx: Context, ct: Cipher, chunks: seq<Cipher>, giant: seq<Cipher>, s: nat, coeffs: seq<int>,
                     ghost d: nat, lo: nat, hi: nat)
    returns (result: Cipher, ghost mults: nat)
    requires ctx.Valid() && ctx.Holds(ct) && Chunked(coeffs, s, |chunks|) && ChunksReady(ctx, ct, chunks, coeffs, s)
    requires GiantReady(ctx, ct, giant, s, d) && |chunks| <= Pow2(|giant|) && lo < hi <= |chunks|
    ensures TreeResult(ctx, ct, result, coeffs, s, |chunks|, d, lo, hi)
    ensures mults == hi - lo - 1
    decreases hi - lo
  {
    hide TreeResult, GiantReady, ChunksReady, Chunked;
    var size := hi - lo;
    if size == 1 {
      TreeLeafResult(ctx, ct, chunks, coeffs, s, d, lo);
      return chunks[lo], 0;
    }
    var h, level := FindSplit(size);
    LevelInRange(level, size, |chunks|, |giant|);
    var left, m1 := CombineTree(ctx, ct, chunks, giant, s, coeffs, d, lo, lo + h);
    var right, m2 := CombineTree(ctx, ct, chunks, giant, s, coeffs, d, lo + h, hi);
    TreeNode(ctx, ct, left, right, giant, s, d, coeffs, |chunks|, lo, lo + h, hi, level);
    result := ctx.Add(left, ctx.Multiply(right, giant[level]));
    mults := m1 + m2 + 1;
  }

  method TreeGiantStep(ctx: Context, ct: Cipher, chunks: seq<Cipher>, xs: Cipher, s: nat, coeffs: seq<int>)
    returns (result: Cipher, ghost mults: nat)
    requires ctx.Valid() && ctx.Holds(ct) && Chunked(coeffs, s, |chunks|) && ChunksReady(ctx, ct, chunks, coeffs, s)
    requires IsPower(ctx, ct, xs, s) && xs.depth >= ct.depth
    ensures IsValue(ctx, ct, result, coeffs)
    ensures result.depth == ct.depth + TreeDepth(ChunkDepths(coeffs, s, |chunks|), xs.depth - ct.depth, 0, |chunks|)
    ensures mults == if |chunks| == 1 then 0 else (|chunks| - 1) + (CeilLog2(|chunks|) - 1)
  {
    var giant, m1 := GiantPowers(ctx, ct, xs, s, |chunks|);
    ghost var m2;
    result, m2 := CombineTree(ctx, ct, chunks, giant, s, coeffs, xs.depth - ct.depth, 0, |chunks|);
    WholeSlice(coeffs, s, |chunks|);
    mults := m1 + m2;
  }

  /** Depth the evaluator adds to its input, for a polynomial of at least two coefficients. */
  ghost function EvalDepth(coeffs: seq<int>, mode: GiantStepMode): nat
    requires |coeffs| >= 2
  {
    var s, count := CeilSqrt(|coeffs|), ChunkCount(|coeffs| - 1);
    var ds := ChunkDepths(coeffs, s, count);
    match mode
    case Horner => HornerDepth(ds, PowDepth(s), 0)
    case Tree => TreeDepth(ds, PowDepth(s), 0, count)
  }

  method EvalConstant(ctx: Context, ct: Cipher, coeffs: seq<int>) returns (r: Cipher)
    requires ctx.Valid() && ctx.Holds(ct) && |coeffs| == 1
    ensures IsValue(ctx, ct, r, coeffs) && r.depth == 0
  {
    r := ctx.Encrypt(seq(ctx.n, slot => coeffs[0]));
    assert coeffs == [coeffs[0]];
    forall j | 0 <= j < ctx.n ensures r.slots[j] == Eval(coeffs, ct.slots[j]) % ctx.p {
      EvalOne(coeffs[0], ct.slots[j]);
    }
  }

  lemma NoGiantMults(mode: GiantStepMode)
    ensures GiantMults(0, mode) == 0
  {
  }

  method EvalByChunks(ctx: Context, ct: Cipher, coeffs: seq<int>, mode: GiantStepMode)
    returns (r: Cipher, ghost mults: nat)
    requires ctx.Valid() && ctx.Holds(ct) && |coeffs| >= 2
    ensures IsValue(ctx, ct, r, coeffs) && r.depth == ct.depth + EvalDepth(coeffs, mode)
    ensures mults == GiantMults(|coeffs| - 1, mode)
  {
    hide IsPower, IsValue, Slice, Eval, ChunkDepths, CeilSqrt, ChunksReady;
    var degree := |coeffs| - 1;
    var s := BabyStepSize(degree);
    var powers := BabySteps(ctx, ct, s);
    var numChunks := (degree + s) / s;
    ChunkShape(coeffs, degree, s);
    var chunks := EvaluateChunks(ctx, ct, powers, s, coeffs, numChunks);
    var xs := powers[s];
    if mode == Horner {
      r, mults := HornerGiantStep(ctx, ct, chunks, xs, s, coeffs);
    } else {
      r, mults := TreeGiantStep(ctx, ct, chunks, xs, s, coeffs);
    }
  }

  /**
   EvalPolyBFV: every slot receives the polynomial's value, at exactly the depth
   EvalDepth, with GiantMults multiplications in the giant step.
   */
  method EvalPolyBFV(ctx: Context, ct: Cipher, coeffs: seq<int>, mode: GiantStepMode)
    returns (r: Result<Cipher>, ghost mults: nat)
    requires ctx.Valid() && ctx.Holds(ct)
    ensures r.Err? <==> |coeffs| == 0
    ensures r.Ok? ==> IsValue(ctx, ct, r.value, coeffs)
    ensures |coeffs| == 1 ==> r.Ok? && r.value.depth == 0
    ensures |coeffs| >= 2 ==> r.Ok? && r.value.depth == ct.depth + EvalDepth(coeffs, mode)
    ensures |coeffs| >= 1 ==> mults == GiantMults(|coeffs| - 1, mode)
  {
    hide IsValue, EvalDepth, GiantMults, Eval;
    mults := 0;
    if |coeffs| == 0 {
      r := Err(InvalidArgument("Polynomial must have at least one coefficient"));
    } else if |coeffs| == 1 {
      var constant := EvalConstant(ctx, ct, coeffs);
      NoGiantMults(mode);
      r := Ok(constant);
    } else {
      var result;
      result, mults := EvalByChunks(ctx, ct, coeffs, mode);
      r := Ok(result);
    }
  }
}
