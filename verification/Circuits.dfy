/**
 The two packed match-count circuits: one-hot (`Piccard::EvaluateRaw`) and
 base-sqrt(m) (`SqrtPiccard::EvaluateRaw`), and their agreement with the
 plaintext match count.
 */
module Circuits {
  import opened Num
  import opened Bfv
  import opened RotateSum
  import opened Encoding

  // ------------------------------------------------------------------ the circuits

  function OneHotCircuit(ctx: Context, x: Cipher, y: Cipher): (r: Cipher)
    requires ctx.Valid() && ctx.Holds(x) && ctx.Holds(y)
    ensures ctx.Holds(r)
  {
    RotateAndAdd(ctx, ctx.Multiply(x, y), 1, ctx.n)
  }

  function SqrtCircuit(ctx: Context, b: nat, x: Cipher, y: Cipher): (r: Cipher)
    requires ctx.Valid() && ctx.Holds(x) && ctx.Holds(y) && ctx.HasRotationKey(b)
    ensures ctx.Holds(r)
  {
    RotateAndAdd(ctx, Anded(ctx, b, x, y), 2 * b, ctx.n)
  }

  /** ct encrypts the feature of a signature. */
  ghost predicate EncryptsFeature(ctx: Context, ct: Cipher, code: Code, sig: seq<nat>)
    requires ctx.Valid() && code.Valid()
  {
    |sig| * code.Width() <= ctx.n && ct == ctx.Encrypt(Feature(code, sig, ctx.n))
  }

  /** Slot 0 counts the matching residues of whatever signatures x and y encode. */
  ghost predicate CountsMatches(ctx: Context, result: Cipher, x: Cipher, y: Cipher, code: Code)
    requires ctx.Valid() && ctx.Holds(result) && code.Valid()
  {
    forall sx, sy :: |sx| == |sy| && EncryptsFeature(ctx, x, code, sx) && EncryptsFeature(ctx, y, code, sy) ==>
      result.slots[0] == MatchCount(sx, sy, code.m) % ctx.p
  }

  /** Multiply and rotate-and-sum: the sum of all slot products, and on one-hot features the match count. */
  method EvaluateOneHot(ctx: Context, x: Cipher, y: Cipher) returns (result: Cipher)
    requires ctx.Valid() && ctx.Holds(x) && ctx.Holds(y)
    ensures result == OneHotCircuit(ctx, x, y) && result.depth == Max(x.depth, y.depth) + 1
    ensures result.slots[0] == SumEvery(ctx.Multiply(x, y).slots, 1, ctx.n) % ctx.p
    ensures forall m: nat :: m > 0 ==> CountsMatches(ctx, result, x, y, OneHot(m))
  {
    hide OneHotCircuit, CountsMatches;
    var product := ctx.Multiply(x, y);
    result := RotateAndSum(ctx, product, 1, ctx.n);
    OneHotSums(ctx, x, y, result);
    forall m: nat | m > 0 ensures CountsMatches(ctx, result, x, y, OneHot(m)) {
      OneHotCounts(ctx, x, y, m);
    }
  }

  lemma OneHotSums(ctx: Context, x: Cipher, y: Cipher, result: Cipher)
    requires ctx.Valid() && ctx.Holds(x) && ctx.Holds(y) && result == RotateAndAdd(ctx, ctx.Multiply(x, y), 1, ctx.n)
    ensures result == OneHotCircuit(ctx, x, y)
    ensures result.slots[0] == SumEvery(ctx.Multiply(x, y).slots, 1, ctx.n) % ctx.p
  {
    Doubling(ctx, ctx.Multiply(x, y), 1, ctx.n);
    FromZero(ctx, ctx.Multiply(x, y).slots, 1, ctx.n);
  }

  lemma OneHotCounts(ctx: Context, x: Cipher, y: Cipher, m: nat)
    requires ctx.Valid() && ctx.Holds(x) && ctx.Holds(y) && m > 0
    ensures CountsMatches(ctx, OneHotCircuit(ctx, x, y), x, y, OneHot(m))
  {
    hide OneHotCircuit, Feature, MatchCount;
    forall sx, sy | |sx| == |sy| && EncryptsFeature(ctx, x, OneHot(m), sx) && EncryptsFeature(ctx, y, OneHot(m), sy)
      ensures OneHotCircuit(ctx, x, y).slots[0] == MatchCount(sx, sy, m) % ctx.p
    {
      OneHotExact(ctx, m, sx, sy);
    }
  }

  /** Multiply, digit sums, digit AND and cross-entry sum: on two-digit features the match count. */
  method EvaluateSqrt(ctx: Context, b: nat, x: Cipher, y: Cipher) returns (result: Cipher)
    requires ctx.Valid() && ctx.Holds(x) && ctx.Holds(y) && ctx.HasRotationKey(b)
    ensures result == SqrtCircuit(ctx, b, x, y) && result.depth == Max(x.depth, y.depth) + 2
    ensures 2 * b <= ctx.n ==> CountsMatches(ctx, result, x, y, Squared(b))
  {
    hide SqrtCircuit, CountsMatches;
    var block := 2 * b;
    var product := ctx.Multiply(x, y);
    var digitSums := RotateAndSum(ctx, product, 1, b);
    var shifted := ctx.Rotate(digitSums, b);
    var anded := ctx.Multiply(digitSums, shifted);
    result := RotateAndSum(ctx, anded, block, ctx.n);
    SqrtIsCircuit(ctx, b, x, y, digitSums, result);
    if 2 * b <= ctx.n { SqrtCounts(ctx, b, x, y); }
  }

  /** The two-digit code of base b. */
  function Squared(b: nat): (code: Code)
    requires b > 0
    ensures code.Valid()
  {
    MulMono(1, b, b);
    Digits(b * b, b)
  }

  lemma SqrtIsCircuit(ctx: Context, b: nat, x: Cipher, y: Cipher, digitSums: Cipher, result: Cipher)
    requires ctx.Valid() && ctx.Holds(x) && ctx.Holds(y) && ctx.HasRotationKey(b)
    requires digitSums == RotateAndAdd(ctx, ctx.Multiply(x, y), 1, b)
    requires result == RotateAndAdd(ctx, ctx.Multiply(digitSums, ctx.Rotate(digitSums, b)), 2 * b, ctx.n)
    ensures result == SqrtCircuit(ctx, b, x, y)
  {
    hide RotateAndAdd;
  }

  lemma SqrtCounts(ctx: Context, b: nat, x: Cipher, y: Cipher)
    requires ctx.Valid() && ctx.Holds(x) && ctx.Holds(y) && ctx.HasRotationKey(b) && 2 * b <= ctx.n
    ensures CountsMatches(ctx, SqrtCircuit(ctx, b, x, y), x, y, Squared(b))
  {
    hide SqrtCircuit, Feature, MatchCount;
    forall sx, sy | |sx| == |sy| && EncryptsFeature(ctx, x, Squared(b), sx) && EncryptsFeature(ctx, y, Squared(b), sy)
      ensures SqrtCircuit(ctx, b, x, y).slots[0] == MatchCount(sx, sy, b * b) % ctx.p
    {
      SqrtExact(ctx, b * b, b, sx, sy);
    }
  }

  // ------------------------------------------------------------------ inner products of bit vectors

  ghost function Dot(x: seq<int>, y: seq<int>): int
    requires |x| == |y|
  {
    if x == [] then 0 else
      var last := |x| - 1;
      Dot(x[..last], y[..last]) + x[last] * y[last]
  }

  lemma {:induction false} DotConcat(a: seq<int>, b: seq<int>, c: seq<int>, d: seq<int>)
    requires |a| == |c| && |b| == |d|
    ensures Dot(a + b, c + d) == Dot(a, c) + Dot(b, d)
  {
    if b == [] {
      assert a + b == a && c + d == c;
    } else {
      var last := |b| - 1;
      DotConcat(a, b[..last], c, d[..last]);
      assert (a + b)[..|a| + last] == a + b[..last];
      assert (c + d)[..|a| + last] == c + d[..last];
    }
  }

  lemma {:induction false} DotZero(x: seq<int>, y: seq<int>)
    requires |x| == |y| && forall j :: 0 <= j < |x| ==> x[j] * y[j] == 0
    ensures Dot(x, y) == 0
  {
    if x != [] {
      var last := |x| - 1;
      forall j | 0 <= j < last ensures x[..last][j] * y[..last][j] == 0 {
        assert x[j] * y[j] == 0;
      }
      DotZero(x[..last], y[..last]);
    }
  }

  /** Two indicators meet exactly when they mark the same place. */
  lemma {:induction false} DotIndicators(width: nat, a: nat, b: nat)
    requires a < width && b < width
    ensures Dot(Indicator(width, a), Indicator(width, b)) == if a == b then 1 else 0
  {
    var x, y, last := Indicator(width, a), Indicator(width, b), width - 1;
    assert x[..last] == Indicator(last, a) && y[..last] == Indicator(last, b);
    if a == last || b == last {
      DotZero(x[..last], y[..last]);
    } else {
      DotIndicators(last, a, b);
    }
  }

  /** Slots of v are the products of the bits of x and y. */
  ghost predicate Products(v: seq<nat>, x: seq<int>, y: seq<int>) {
    |v| == |x| == |y| && forall j :: 0 <= j < |v| ==> v[j] == x[j] * y[j]
  }

  lemma {:induction false} SumIsDot(v: seq<nat>, x: seq<int>, y: seq<int>)
    requires Products(v, x, y)
    ensures SumEvery(v, 1, |v|) == Dot(x, y)
  {
    if v != [] {
      var last := |v| - 1;
      SumIsDot(v[..last], x[..last], y[..last]);
      SumEveryPrefix(v, v[..last], last);
    }
  }

  /** The product ciphertext of two encrypted bit vectors. */
  lemma EncryptedProducts(ctx: Context, x: seq<int>, y: seq<int>)
    requires ctx.Valid() && |x| == |y| == ctx.n && Bits(x) && Bits(y)
    ensures Products(ctx.Multiply(ctx.Encrypt(x), ctx.Encrypt(y)).slots, x, y)
  {
    var cx, cy := ctx.Encrypt(x), ctx.Encrypt(y);
    var product := ctx.Multiply(cx, cy);
    forall j | 0 <= j < ctx.n ensures product.slots[j] == x[j] * y[j] {
      assert cx.slots[j] == x[j] % ctx.p && cy.slots[j] == y[j] % ctx.p;
      BitResidue(x[j], y[j], ctx.p);
    }
  }

  lemma BitResidue(a: int, b: int, p: nat)
    requires p >= 2 && (a == 0 || a == 1) && (b == 0 || b == 1)
    ensures ((a % p) * (b % p)) % p == a * b
  {
    ModIs(a, p, 0, a);
    ModIs(b, p, 0, b);
    if a == 0 { assert a * b == 0; } else { assert a * b == b; }
  }

  // ------------------------------------------------------------------ one-hot

  lemma {:induction false} DotOneHot(m: nat, sx: seq<nat>, sy: seq<nat>)
    requires m > 0 && |sx| == |sy|
    ensures |Concat(OneHot(m).BlocksOf(sx))| == |Concat(OneHot(m).BlocksOf(sy))|
    ensures Dot(Concat(OneHot(m).BlocksOf(sx)), Concat(OneHot(m).BlocksOf(sy))) == MatchCount(sx, sy, m)
  {
    var code := OneHot(m);
    if sx != [] {
      var last := |sx| - 1;
      DotOneHot(m, sx[..last], sy[..last]);
      BlocksStep(code, sx, last);
      BlocksStep(code, sy, last);
      assert sx[..last + 1] == sx && sy[..last + 1] == sy;
      DotConcat(Concat(code.BlocksOf(sx[..last])), code.Block(sx[last]), Concat(code.BlocksOf(sy[..last])),
          code.Block(sy[last]));
      DotIndicators(m, sx[last] % m, sy[last] % m);
    }
  }

  /** Slot 0 of the rotate-and-sum of a product of encrypted bit vectors is their inner product. */
  lemma OneHotCircuitIsDot(ctx: Context, x: seq<int>, y: seq<int>)
    requires ctx.Valid() && |x| == |y| == ctx.n && Bits(x) && Bits(y)
    ensures OneHotCircuit(ctx, ctx.Encrypt(x), ctx.Encrypt(y)).slots[0] == Dot(x, y) % ctx.p
  {
    var product := ctx.Multiply(ctx.Encrypt(x), ctx.Encrypt(y));
    Doubling(ctx, product, 1, ctx.n);
    FromZero(ctx, product.slots, 1, ctx.n);
    EncryptedProducts(ctx, x, y);
    SumIsDot(product.slots, x, y);
  }

  lemma DotPack(xs: seq<seq<int>>, ys: seq<seq<int>>, n: nat)
    requires |Concat(xs)| == |Concat(ys)| <= n
    ensures Dot(Pack(xs, n), Pack(ys, n)) == Dot(Concat(xs), Concat(ys))
  {
    var pad := Zeros(n - |Concat(xs)|);
    DotConcat(Concat(xs), pad, Concat(ys), pad);
    DotZero(pad, pad);
  }

  lemma DotFeatures(m: nat, sx: seq<nat>, sy: seq<nat>, n: nat)
    requires m > 0 && |sx| == |sy| && |sx| * m <= n
    ensures Dot(Feature(OneHot(m), sx, n), Feature(OneHot(m), sy, n)) == MatchCount(sx, sy, m)
  {
    ConcatLength(OneHot(m).BlocksOf(sx), m);
    ConcatLength(OneHot(m).BlocksOf(sy), m);
    DotPack(OneHot(m).BlocksOf(sx), OneHot(m).BlocksOf(sy), n);
    DotOneHot(m, sx, sy);
  }

  /** The one-hot circuit counts the matching residues, modulo the plaintext modulus. */
  lemma OneHotExact(ctx: Context, m: nat, sx: seq<nat>, sy: seq<nat>)
    requires ctx.Valid() && m > 0 && |sx| == |sy| && |sx| * m <= ctx.n
    ensures OneHotCircuit(ctx, ctx.Encrypt(Feature(OneHot(m), sx, ctx.n)),
                               ctx.Encrypt(Feature(OneHot(m), sy, ctx.n))).slots[0]
         == MatchCount(sx, sy, m) % ctx.p
  {
    var x, y := Feature(OneHot(m), sx, ctx.n), Feature(OneHot(m), sy, ctx.n);
    FeatureIsBits(OneHot(m), sx, ctx.n);
    FeatureIsBits(OneHot(m), sy, ctx.n);
    DotFeatures(m, sx, sy, ctx.n);
    OneHotCircuitIsDot(ctx, x, y);
  }

  // ------------------------------------------------------------------ base sqrt(m)

  /** Inner products of the low and of the high digit halves of two blocks. */
  ghost function LowDot(s: seq<int>, t: seq<int>, b: nat): int
    requires |s| == |t| == 2 * b
  {
    Dot(s[..b], t[..b])
  }

  ghost function HighDot(s: seq<int>, t: seq<int>, b: nat): int
    requires |s| == |t| == 2 * b
  {
    Dot(s[b..], t[b..])
  }

  /** The digits of a residue, and the block they mark. */
  lemma BlockDigits(m: nat, b: nat, h: nat) returns (lo: nat, hi: nat)
    requires b > 0 && m == b * b
    ensures lo < b && hi < b && h % m == hi * b + lo
    ensures Digits(m, b).Block(h)[..b] == Indicator(b, lo) && Digits(m, b).Block(h)[b..] == Indicator(b, hi)
  {
    var v := h % m;
    DigitBound(v, b);
    lo, hi := v % b, v / b;
  }

  lemma DigitsDetermine(b: nat, lo: nat, hi: nat, lo': nat, hi': nat)
    requires lo < b && lo' < b
    ensures hi * b + lo == hi' * b + lo' <==> (lo == lo' && hi == hi')
  {
    if hi < hi' { MulMono(hi + 1, hi', b); }
    if hi' < hi { MulMono(hi' + 1, hi, b); }
  }

  /** Both halves of two blocks meet in at most one slot. */
  ghost predicate HalvesMeetOnce(s: seq<int>, t: seq<int>, b: nat) {
    && |s| == |t| == 2 * b
    && (LowDot(s, t, b) == 0 || LowDot(s, t, b) == 1)
    && (HighDot(s, t, b) == 0 || HighDot(s, t, b) == 1)
  }

  /** 1 when both halves of the blocks meet. */
  ghost function BothMeet(s: seq<int>, t: seq<int>, b: nat): nat
    requires |s| == |t| == 2 * b
  {
    if LowDot(s, t, b) == 1 && HighDot(s, t, b) == 1 then 1 else 0
  }

  /** The digit blocks of two hashes both meet exactly when the residues are equal. */
  lemma BlockMatch(m: nat, b: nat, g: nat, h: nat)
    requires b > 0 && m == b * b
    ensures HalvesMeetOnce(Digits(m, b).Block(g), Digits(m, b).Block(h), b)
    ensures BothMeet(Digits(m, b).Block(g), Digits(m, b).Block(h), b) == if g % m == h % m then 1 else 0
  {
    var lo, hi := BlockDigits(m, b, g);
    var lo', hi' := BlockDigits(m, b, h);
    DigitsDetermine(b, lo, hi, lo', hi');
    DotIndicators(b, lo, lo');
    DotIndicators(b, hi, hi');
  }

  /** Number of positions whose blocks meet in both halves. */
  ghost function MeetCount(xs: seq<seq<int>>, ys: seq<seq<int>>, b: nat): nat
    requires |xs| == |ys| && Uniform(xs, 2 * b) && Uniform(ys, 2 * b)
  {
    if xs == [] then 0 else
      var last := |xs| - 1;
      MeetCount(xs[..last], ys[..last], b) + BothMeet(xs[last], ys[last], b)
  }

  lemma {:induction false} MeetCountIsMatchCount(xs: seq<seq<int>>, ys: seq<seq<int>>, b: nat, sx: seq<nat>,
                                                 sy: seq<nat>, m: nat)
    requires m > 0 && |xs| == |ys| == |sx| == |sy| && Uniform(xs, 2 * b) && Uniform(ys, 2 * b)
    requires forall i :: 0 <= i < |xs| ==> BothMeet(xs[i], ys[i], b) == if sx[i] % m == sy[i] % m then 1 else 0
    ensures MeetCount(xs, ys, b) == MatchCount(sx, sy, m)
  {
    if sx != [] {
      var last := |sx| - 1;
      MeetCountIsMatchCount(xs[..last], ys[..last], b, sx[..last], sy[..last], m);
    }
  }

  lemma ProductsSlice(v: seq<nat>, x: seq<int>, y: seq<int>, at: nat, b: nat)
    requires Products(v, x, y) && at + b <= |v|
    ensures Products(v[at..at + b], x[at..at + b], y[at..at + b])
  {
  }

  /** After the intra-digit loop the head of an aligned b-block holds the block's sum. */
  lemma BlockSumAtHead(ctx: Context, ct: Cipher, b: nat, i: nat, at: nat)
    requires ctx.Valid() && ctx.HasRotationKey(b) && ctx.Holds(ct) && at == i * b && at + b <= ctx.n
    ensures RotateAndAdd(ctx, ct, 1, b).slots[at] == SumEvery(ct.slots[at..at + b], 1, b) % ctx.p
  {
    Doubling(ctx, ct, 1, b);
    FromBlockHead(ctx, ct.slots, b, i, b);
  }

  /** On a product of encrypted bits that sum is the block's inner product. */
  lemma DigitSumAtHead(ctx: Context, x: seq<int>, y: seq<int>, b: nat, i: nat, at: nat)
    requires ctx.Valid() && ctx.HasRotationKey(b) && |x| == |y| == ctx.n && Bits(x) && Bits(y)
    requires at == i * b && at + b <= ctx.n
    ensures RotateAndAdd(ctx, ctx.Multiply(ctx.Encrypt(x), ctx.Encrypt(y)), 1, b).slots[at]
         == Dot(x[at..at + b], y[at..at + b]) % ctx.p
  {
    var product := ctx.Multiply(ctx.Encrypt(x), ctx.Encrypt(y));
    EncryptedProducts(ctx, x, y);
    ProductsSlice(product.slots, x, y, at, b);
    SumIsDot(product.slots[at..at + b], x[at..at + b], y[at..at + b]);
    BlockSumAtHead(ctx, product, b, i, at);
  }

  /** The ciphertext after the digit AND. */
  function Anded(ctx: Context, b: nat, x: Cipher, y: Cipher): (r: Cipher)
    requires ctx.Valid() && ctx.Holds(x) && ctx.Holds(y) && ctx.HasRotationKey(b)
    ensures ctx.Holds(r)
  {
    var digitSums := RotateAndAdd(ctx, ctx.Multiply(x, y), 1, b);
    ctx.Multiply(digitSums, ctx.Rotate(digitSums, b))
  }

  /** The digit AND at a block head multiplies the sums at the two sub-block heads. */
  lemma AndedSlot(ctx: Context, b: nat, x: Cipher, y: Cipher, i: nat, at: nat)
    requires ctx.Valid() && ctx.HasRotationKey(b) && ctx.Holds(x) && ctx.Holds(y)
    requires at == i * (2 * b) && at + 2 * b <= ctx.n
    ensures var digitSums := RotateAndAdd(ctx, ctx.Multiply(x, y), 1, b);
      Anded(ctx, b, x, y).slots[at] == (digitSums.slots[at] * digitSums.slots[at + b]) % ctx.p
  {
    ctx.SourceInBlock(2 * b, b, i);
  }

  lemma HalfBlocks(i: nat, b: nat)
    ensures i * (2 * b) == (2 * i) * b && i * (2 * b) + b == (2 * i + 1) * b
  {
  }

  /** On encrypted bits those sums are the inner products of the two halves. */
  lemma HalfSums(ctx: Context, x: seq<int>, y: seq<int>, b: nat, i: nat, at: nat, mid: nat)
    requires ctx.Valid() && ctx.HasRotationKey(b) && |x| == |y| == ctx.n && Bits(x) && Bits(y)
    requires at == (2 * i) * b && mid == (2 * i + 1) * b && mid + b <= ctx.n
    ensures at + b == mid
    ensures var digitSums := RotateAndAdd(ctx, ctx.Multiply(ctx.Encrypt(x), ctx.Encrypt(y)), 1, b);
      digitSums.slots[at] == Dot(x[at..mid], y[at..mid]) % ctx.p
      && digitSums.slots[mid] == Dot(x[mid..mid + b], y[mid..mid + b]) % ctx.p
  {
    hide RotateAndAdd, Dot, Bits, IsPow2;
    var lo, hi := 2 * i, 2 * i + 1;
    assert hi * b == lo * b + b;
    DigitSumAtHead(ctx, x, y, b, lo, at);
    DigitSumAtHead(ctx, x, y, b, hi, mid);
  }

  lemma HalvesOfSlice(x: seq<int>, y: seq<int>, b: nat, at: nat)
    requires |x| == |y| && at + 2 * b <= |x|
    ensures var s, t := x[at..at + 2 * b], y[at..at + 2 * b];
      LowDot(s, t, b) == Dot(x[at..at + b], y[at..at + b])
      && HighDot(s, t, b) == Dot(x[at + b..at + 2 * b], y[at + b..at + 2 * b])
  {
    var s, t := x[at..at + 2 * b], y[at..at + 2 * b];
    assert s[..b] == x[at..at + b] && t[..b] == y[at..at + b];
    assert s[b..] == x[at + b..at + 2 * b] && t[b..] == y[at + b..at + 2 * b];
  }

  lemma AndedAtHead(ctx: Context, b: nat, x: seq<int>, y: seq<int>, i: nat, at: nat)
    requires ctx.Valid() && ctx.HasRotationKey(b) && |x| == |y| == ctx.n && Bits(x) && Bits(y)
    requires at == i * (2 * b) && at + 2 * b <= ctx.n
    ensures var s, t := x[at..at + 2 * b], y[at..at + 2 * b];
      Anded(ctx, b, ctx.Encrypt(x), ctx.Encrypt(y)).slots[at]
        == ((LowDot(s, t, b) % ctx.p) * (HighDot(s, t, b) % ctx.p)) % ctx.p
  {
    hide Anded, RotateAndAdd, LowDot, HighDot, Dot;
    HalfBlocks(i, b);
    HalfSums(ctx, x, y, b, i, at, at + b);
    HalvesOfSlice(x, y, b, at);
    assert at + b + b == at + 2 * b;
    AndedSlot(ctx, b, ctx.Encrypt(x), ctx.Encrypt(y), i, at);
  }

  lemma BitProduct(lo: int, hi: int, p: nat)
    requires p >= 2 && (lo == 0 || lo == 1) && (hi == 0 || hi == 1)
    ensures ((lo % p) * (hi % p)) % p == if lo == 1 && hi == 1 then 1 else 0
  {
    assert 0 % p == 0 && 1 % p == 1;
  }

  /** Two lists of 2b-slot bit blocks, as many as fit, whose halves meet at most once. */
  ghost predicate DigitBlocks(xs: seq<seq<int>>, ys: seq<seq<int>>, b: nat, n: nat) {
    && |xs| == |ys| && Uniform(xs, 2 * b) && Uniform(ys, 2 * b)
    && |Concat(xs)| <= n && |Concat(ys)| <= n
    && (forall i :: 0 <= i < |xs| ==> Bits(xs[i]) && Bits(ys[i]) && HalvesMeetOnce(xs[i], ys[i], b))
  }

  lemma PaddingHalves(s: seq<int>, t: seq<int>, b: nat)
    requires s == t == Zeros(2 * b)
    ensures LowDot(s, t, b) == 0 && HighDot(s, t, b) == 0
  {
    DotZero(s[..b], t[..b]);
    DotZero(s[b..], t[b..]);
  }

  /** The halves of block i of two packed vectors. */
  lemma HalvesAt(xs: seq<seq<int>>, ys: seq<seq<int>>, b: nat, n: nat, i: nat, at: nat)
    requires DigitBlocks(xs, ys, b, n) && at == i * (2 * b) && at + 2 * b <= n
    ensures var s, t := Pack(xs, n)[at..at + 2 * b], Pack(ys, n)[at..at + 2 * b];
      HalvesMeetOnce(s, t, b) && BothMeet(s, t, b) == if i < |xs| then BothMeet(xs[i], ys[i], b) else 0
  {
    hide Pack, Concat, LowDot, HighDot;
    var w := 2 * b;
    PackAt(xs, w, n, i, at);
    PackAt(ys, w, n, i, at);
    if i >= |xs| {
      PaddingHalves(Pack(xs, n)[at..at + w], Pack(ys, n)[at..at + w], b);
    }
  }

  /** The digit AND is exact at every block head, whatever the other slots hold. */
  lemma AndedIsMeet(ctx: Context, b: nat, xs: seq<seq<int>>, ys: seq<seq<int>>, i: nat, at: nat)
    requires ctx.Valid() && ctx.HasRotationKey(b) && DigitBlocks(xs, ys, b, ctx.n)
    requires at == i * (2 * b) && at + 2 * b <= ctx.n
    ensures Anded(ctx, b, ctx.Encrypt(Pack(xs, ctx.n)), ctx.Encrypt(Pack(ys, ctx.n))).slots[at]
         == if i < |xs| then BothMeet(xs[i], ys[i], b) else 0
  {
    var x, y := Pack(xs, ctx.n), Pack(ys, ctx.n);
    var lo, hi := LowDot(x[at..at + 2 * b], y[at..at + 2 * b], b), HighDot(x[at..at + 2 * b], y[at..at + 2 * b], b);
    assert Anded(ctx, b, ctx.Encrypt(x), ctx.Encrypt(y)).slots[at] == ((lo % ctx.p) * (hi % ctx.p)) % ctx.p by {
      PackIsBits(xs, ctx.n);
      PackIsBits(ys, ctx.n);
      AndedAtHead(ctx, b, x, y, i, at);
    }
    HalvesAt(xs, ys, b, ctx.n, i, at);
    BitProduct(lo, hi, ctx.p);
  }

  /** Counting the blocks below i. */
  lemma {:induction false} SumOfHeads(v: seq<nat>, xs: seq<seq<int>>, ys: seq<seq<int>>, b: nat, i: nat, reach: nat)
    requires b > 0 && |xs| == |ys| && Uniform(xs, 2 * b) && Uniform(ys, 2 * b) && reach == i * (2 * b) && reach <= |v|
    requires HeadsMeet(v, xs, ys, b)
    ensures var c := if i < |xs| then i else |xs|;
            SumEvery(v, 2 * b, reach) == MeetCount(xs[..c], ys[..c], b)
  {
    hide BothMeet, MeetCount, SumEvery, HeadsMeet;
    if i > 0 {
      var w, at := 2 * b, reach - 2 * b;
      BackOne(i, w, reach);
      SumOfHeads(v, xs, ys, b, i - 1, at);
      HeadAt(v, xs, ys, b, i - 1, at);
      SumEveryStep(v, w, at, reach);
      MeetCountStep(xs, ys, b, i);
    } else {
      SumEveryNone(v, 2 * b, reach);
      MeetCountStep(xs, ys, b, 0);
    }
  }

  lemma BackOne(i: nat, w: nat, reach: nat)
    requires i > 0 && reach == i * w
    ensures reach >= w && reach - w == (i - 1) * w
  {
    MulMono(1, i, w);
  }

  lemma HeadAt(v: seq<nat>, xs: seq<seq<int>>, ys: seq<seq<int>>, b: nat, l: nat, at: nat)
    requires b > 0 && |xs| == |ys| && Uniform(xs, 2 * b) && Uniform(ys, 2 * b) && HeadsMeet(v, xs, ys, b)
    requires at == l * (2 * b) && at + 2 * b <= |v|
    ensures v[at] == if l < |xs| then BothMeet(xs[l], ys[l], b) else 0
  {
    hide BothMeet;
    assert HeadMeets(v, xs, ys, b, l, at);
  }

  lemma SumEveryStep(v: seq<nat>, w: nat, at: nat, reach: nat)
    requires w > 0 && reach == at + w && reach <= |v|
    ensures SumEvery(v, w, reach) == SumEvery(v, w, at) + v[at]
  {
  }

  lemma SumEveryNone(v: seq<nat>, w: nat, reach: nat)
    requires w > 0 && reach == 0
    ensures SumEvery(v, w, reach) == 0
  {
  }

  /** One block more, up to the last block. */
  lemma MeetCountStep(xs: seq<seq<int>>, ys: seq<seq<int>>, b: nat, i: nat)
    requires |xs| == |ys| && Uniform(xs, 2 * b) && Uniform(ys, 2 * b)
    ensures i == 0 ==> MeetCount(xs[..0], ys[..0], b) == 0
    ensures 0 < i <= |xs| ==>
      MeetCount(xs[..i], ys[..i], b)
      == MeetCount(xs[..i - 1], ys[..i - 1], b) + BothMeet(xs[i - 1], ys[i - 1], b)
  {
    hide BothMeet;
    assert xs[..0] == [] && ys[..0] == [];
    if 0 < i <= |xs| {
      assert xs[..i][..i - 1] == xs[..i - 1] && ys[..i][..i - 1] == ys[..i - 1];
      assert xs[..i][i - 1] == xs[i - 1] && ys[..i][i - 1] == ys[i - 1];
    }
  }

  ghost predicate HeadMeets(v: seq<nat>, xs: seq<seq<int>>, ys: seq<seq<int>>, b: nat, l: nat, at: nat)
    requires b > 0 && |xs| == |ys| && Uniform(xs, 2 * b) && Uniform(ys, 2 * b)
  {
    at == l * (2 * b) && at + 2 * b <= |v| ==> v[at] == if l < |xs| then BothMeet(xs[l], ys[l], b) else 0
  }

  /** v holds the meet of block l at each block head l * 2b, and zero past the blocks. */
  ghost predicate HeadsMeet(v: seq<nat>, xs: seq<seq<int>>, ys: seq<seq<int>>, b: nat)
    requires b > 0 && |xs| == |ys| && Uniform(xs, 2 * b) && Uniform(ys, 2 * b)
  {
    forall l: nat, at: nat :: HeadMeets(v, xs, ys, b, l, at)
  }

  lemma BlocksFit(xs: seq<seq<int>>, w: nat, q: nat)
    requires Uniform(xs, w) && w > 0 && |Concat(xs)| <= q * w
    ensures |xs| <= q
  {
    ConcatLength(xs, w);
    if q < |xs| { MulMono(q + 1, |xs|, w); }
  }

  lemma SumOfAllHeads(v: seq<nat>, xs: seq<seq<int>>, ys: seq<seq<int>>, b: nat)
    requires IsPow2(2 * b) && IsPow2(|v|) && 2 * b <= |v|
    requires |xs| == |ys| && Uniform(xs, 2 * b) && Uniform(ys, 2 * b) && |Concat(xs)| <= |v|
    requires HeadsMeet(v, xs, ys, b)
    ensures SumEvery(v, 2 * b, |v|) == MeetCount(xs, ys, b)
  {
    var q := Pow2Divides(2 * b, |v|);
    BlocksFit(xs, 2 * b, q);
    SumOfHeads(v, xs, ys, b, q, |v|);
    assert xs[..|xs|] == xs && ys[..|xs|] == ys;
  }

  lemma AndedHeads(ctx: Context, b: nat, xs: seq<seq<int>>, ys: seq<seq<int>>)
    requires ctx.Valid() && ctx.HasRotationKey(b) && DigitBlocks(xs, ys, b, ctx.n)
    ensures HeadsMeet(Anded(ctx, b, ctx.Encrypt(Pack(xs, ctx.n)), ctx.Encrypt(Pack(ys, ctx.n))).slots, xs, ys, b)
  {
    hide Anded, Pack, BothMeet;
    var anded := Anded(ctx, b, ctx.Encrypt(Pack(xs, ctx.n)), ctx.Encrypt(Pack(ys, ctx.n)));
    forall l: nat, at: nat ensures HeadMeets(anded.slots, xs, ys, b, l, at) {
      if at == l * (2 * b) && at + 2 * b <= ctx.n { AndedIsMeet(ctx, b, xs, ys, l, at); }
    }
  }

  /** The sqrt circuit on packed digit blocks counts the positions that meet in both digits. */
  lemma SqrtOnBlocks(ctx: Context, b: nat, xs: seq<seq<int>>, ys: seq<seq<int>>)
    requires ctx.Valid() && ctx.HasRotationKey(b) && 2 * b <= ctx.n && DigitBlocks(xs, ys, b, ctx.n)
    ensures SqrtCircuit(ctx, b, ctx.Encrypt(Pack(xs, ctx.n)), ctx.Encrypt(Pack(ys, ctx.n))).slots[0]
         == MeetCount(xs, ys, b) % ctx.p
  {
    hide Anded, Pack, MeetCount, RotateAndAdd, HeadsMeet;
    var anded := Anded(ctx, b, ctx.Encrypt(Pack(xs, ctx.n)), ctx.Encrypt(Pack(ys, ctx.n)));
    AndedHeads(ctx, b, xs, ys);
    SumOfAllHeads(anded.slots, xs, ys, b);
    Doubling(ctx, anded, 2 * b, ctx.n);
    FromZero(ctx, anded.slots, 2 * b, ctx.n);
  }

  lemma SignatureBlocksMatch(m: nat, b: nat, sx: seq<nat>, sy: seq<nat>, i: nat)
    requires b > 0 && m == b * b && |sx| == |sy| && i < |sx|
    ensures var s, t := Digits(m, b).BlocksOf(sx)[i], Digits(m, b).BlocksOf(sy)[i];
      Bits(s) && Bits(t) && HalvesMeetOnce(s, t, b) && BothMeet(s, t, b) == if sx[i] % m == sy[i] % m then 1 else 0
  {
    BlockMatch(m, b, sx[i], sy[i]);
  }

  lemma BlocksCount(xs: seq<seq<int>>, ys: seq<seq<int>>, b: nat, sx: seq<nat>, sy: seq<nat>, m: nat, n: nat)
    requires m > 0 && |xs| == |ys| == |sx| == |sy| && |xs| * (2 * b) <= n && Uniform(xs, 2 * b) && Uniform(ys, 2 * b)
    requires forall i :: 0 <= i < |xs| ==> Bits(xs[i]) && Bits(ys[i]) && HalvesMeetOnce(xs[i], ys[i], b)
    requires forall i :: 0 <= i < |xs| ==> BothMeet(xs[i], ys[i], b) == if sx[i] % m == sy[i] % m then 1 else 0
    ensures DigitBlocks(xs, ys, b, n) && MeetCount(xs, ys, b) == MatchCount(sx, sy, m)
  {
    ConcatLength(xs, 2 * b);
    ConcatLength(ys, 2 * b);
    MeetCountIsMatchCount(xs, ys, b, sx, sy, m);
  }

  lemma FeaturesAreDigitBlocks(m: nat, b: nat, sx: seq<nat>, sy: seq<nat>, n: nat)
    requires b > 0 && m == b * b && |sx| == |sy| && |sx| * (2 * b) <= n
    ensures var xs, ys := Digits(m, b).BlocksOf(sx), Digits(m, b).BlocksOf(sy);
      DigitBlocks(xs, ys, b, n) && MeetCount(xs, ys, b) == MatchCount(sx, sy, m)
  {
    MulMono(1, b, b);
    var xs, ys := Digits(m, b).BlocksOf(sx), Digits(m, b).BlocksOf(sy);
    forall i | 0 <= i < |sx|
      ensures Bits(xs[i]) && Bits(ys[i]) && HalvesMeetOnce(xs[i], ys[i], b)
      ensures BothMeet(xs[i], ys[i], b) == if sx[i] % m == sy[i] % m then 1 else 0
    {
      SignatureBlocksMatch(m, b, sx, sy, i);
    }
    BlocksCount(xs, ys, b, sx, sy, m, n);
  }

  /** The sqrt circuit counts the matching residues, modulo the plaintext modulus. */
  lemma SqrtExact(ctx: Context, m: nat, b: nat, sx: seq<nat>, sy: seq<nat>)
    requires ctx.Valid() && IsPow2(b) && m == b * b && |sx| == |sy| && |sx| * (2 * b) <= ctx.n && 2 * b <= ctx.n
    ensures SqrtCircuit(ctx, b, ctx.Encrypt(Feature(Digits(m, b), sx, ctx.n)),
                                ctx.Encrypt(Feature(Digits(m, b), sy, ctx.n))).slots[0]
         == MatchCount(sx, sy, m) % ctx.p
  {
    MulMono(1, b, b);
    FeaturesAreDigitBlocks(m, b, sx, sy, ctx.n);
    SqrtOnBlocks(ctx, b, Digits(m, b).BlocksOf(sx), Digits(m, b).BlocksOf(sy));
  }

  // ------------------------------------------------------------------ decoded results

  /** A count below half the modulus survives the reduction and the centred decoding. */
  lemma DecodedExactly(ctx: Context, ct: Cipher, count: nat)
    requires ctx.Valid() && ctx.Holds(ct) && ct.slots[0] == count % ctx.p && 2 * count < ctx.p
    ensures ct.slots[0] == count && ctx.Decrypt(ct)[0] == count
  {
    ModIs(count, ctx.p, 0, count);
    var v := ctx.Decrypt(ct)[0];
    if v >= 0 { ModIs(v, ctx.p, 0, v); } else { ModIs(v, ctx.p, -1, v + ctx.p); }
  }

  /**
   Both circuits, each with its own encoding, ring and plaintext modulus, decode to
   the same number: the plaintext match count.
   */
  lemma CircuitsAgree(ctx1: Context, ctx2: Context, m: nat, b: nat, sx: seq<nat>, sy: seq<nat>)
    requires ctx1.Valid() && ctx2.Valid() && IsPow2(b) && m == b * b && |sx| == |sy|
    requires |sx| * m <= ctx1.n && |sx| * (2 * b) <= ctx2.n && 2 * b <= ctx2.n
    requires 2 * |sx| < ctx1.p && 2 * |sx| < ctx2.p
    ensures ctx1.Decrypt(OneHotCircuit(ctx1, ctx1.Encrypt(Feature(OneHot(m), sx, ctx1.n)),
                                             ctx1.Encrypt(Feature(OneHot(m), sy, ctx1.n))))[0]
         == MatchCount(sx, sy, m)
         == ctx2.Decrypt(SqrtCircuit(ctx2, b, ctx2.Encrypt(Feature(Digits(m, b), sx, ctx2.n)),
                                              ctx2.Encrypt(Feature(Digits(m, b), sy, ctx2.n))))[0]
  {
    hide OneHotCircuit, SqrtCircuit, Feature, MatchCount;
    MulMono(1, b, b);
    OneHotDecodes(ctx1, m, sx, sy);
    SqrtDecodes(ctx2, m, b, sx, sy);
  }

  lemma OneHotDecodes(ctx: Context, m: nat, sx: seq<nat>, sy: seq<nat>)
    requires ctx.Valid() && m > 0 && |sx| == |sy| && |sx| * m <= ctx.n && 2 * |sx| < ctx.p
    ensures ctx.Decrypt(OneHotCircuit(ctx, ctx.Encrypt(Feature(OneHot(m), sx, ctx.n)),
                                           ctx.Encrypt(Feature(OneHot(m), sy, ctx.n))))[0] == MatchCount(sx, sy, m)
  {
    hide OneHotCircuit, Feature, MatchCount, IsPow2;
    OneHotExact(ctx, m, sx, sy);
    var ct := OneHotCircuit(ctx, ctx.Encrypt(Feature(OneHot(m), sx, ctx.n)),
        ctx.Encrypt(Feature(OneHot(m), sy, ctx.n)));
    DecodedExactly(ctx, ct, MatchCount(sx, sy, m));
  }

  lemma SqrtDecodes(ctx: Context, m: nat, b: nat, sx: seq<nat>, sy: seq<nat>)
    requires ctx.Valid() && IsPow2(b) && m > 0 && m == b * b && |sx| == |sy| && |sx| * (2 * b) <= ctx.n
      && 2 * b <= ctx.n
    requires 2 * |sx| < ctx.p
    ensures ctx.Decrypt(SqrtCircuit(ctx, b, ctx.Encrypt(Feature(Digits(m, b), sx, ctx.n)),
                                            ctx.Encrypt(Feature(Digits(m, b), sy, ctx.n))))[0] == MatchCount(sx, sy, m)
  {
    hide SqrtCircuit, Feature, MatchCount;
    SqrtExact(ctx, m, b, sx, sy);
    var ct := SqrtCircuit(ctx, b, ctx.Encrypt(Feature(Digits(m, b), sx, ctx.n)),
        ctx.Encrypt(Feature(Digits(m, b), sy, ctx.n)));
    DecodedExactly(ctx, ct, MatchCount(sx, sy, m));
  }

  /** Multiplicative depth: one for the one-hot circuit, two for the sqrt circuit. */
  lemma CircuitDepths(ctx: Context, b: nat, x: Cipher, y: Cipher)
    requires ctx.Valid() && ctx.Holds(x) && ctx.Holds(y) && ctx.HasRotationKey(b) && x.depth == y.depth == 0
    ensures OneHotCircuit(ctx, x, y).depth == 1 && SqrtCircuit(ctx, b, x, y).depth == 2
  {
    assert RotateAndAdd(ctx, ctx.Multiply(x, y), 1, b).depth == 1;
  }
}
