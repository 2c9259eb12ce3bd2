/**
 Whether the provisioned depth formula (`PatersonStockmeyerNaturalDepth`, which must
 match `EvalPolyBFV`) covers the circuit: the exact condition, for both giant steps.
 */
module PolyDepth {
  import opened Num
  import opened Bfv
  import opened ThresholdPoly
  import opened PolyEval
  import Params

  /** Horner's depth stays within X exactly when every chunk leaves room for the multiplications after it. */
  lemma {:induction false} HornerWithin(ds: seq<nat>, d: nat, i: nat, x: int)
    requires i < |ds|
    ensures HornerDepth(ds, d, i) <= x <==>
      (forall k :: i <= k < |ds| ==> ds[k] + (k - i) <= x) && (i < |ds| - 1 ==> d + (|ds| - 1 - i) <= x)
    decreases |ds| - i
  {
    if i < |ds| - 1 {
      HornerWithin(ds, d, i + 1, x - 1);
      assert HornerDepth(ds, d, i) <= x <==> HornerDepth(ds, d, i + 1) <= x - 1 && d <= x - 1 && ds[i] <= x;
      if forall k :: i <= k < |ds| ==> ds[k] + (k - i) <= x {
        forall k | i + 1 <= k < |ds| ensures ds[k] + (k - (i + 1)) <= x - 1 {
          assert ds[k] + (k - i) <= x;
        }
      }
      if forall k :: i + 1 <= k < |ds| ==> ds[k] + (k - (i + 1)) <= x - 1 {
        forall k | i <= k < |ds| && ds[i] <= x ensures ds[k] + (k - i) <= x {
          assert k > i ==> ds[k] + (k - (i + 1)) <= x - 1;
        }
      }
    }
  }

  function PopCount(v: nat): nat {
    if v == 0 then 0 else v % 2 + PopCount(v / 2)
  }

  lemma {:induction false} PopCountSplit(level: nat, r: nat)
    requires r < Pow2(level)
    ensures PopCount(Pow2(level) + r) == 1 + PopCount(r)
  {
    hide IsPow2, PopCount, Pow2;
    Pow2Unfold(level);
    if level == 0 {
      LowestBit();
    } else {
      DoubledBits(Pow2(level - 1), r, Pow2(level) + r);
      PopCountSplit(level - 1, r / 2);
    }
  }

  lemma Pow2Unfold(level: nat)
    ensures Pow2(level) == if level == 0 then 1 else 2 * Pow2(level - 1)
  {
  }

  lemma LowestBit()
    ensures PopCount(1) == 1 && PopCount(0) == 0
  {
  }

  lemma DoubledBits(half: nat, r: nat, n: nat)
    requires r < 2 * half && n == 2 * half + r
    ensures PopCount(n) == r % 2 + PopCount(half + r / 2) && PopCount(r) == r % 2 + PopCount(r / 2) && r / 2 < half
  {
    PopCountHalf(n);
    PopCountHalf(r);
    hide PopCount;
    assert n / 2 == half + r / 2 && n % 2 == r % 2;
  }

  lemma PopCountHalf(n: nat)
    ensures PopCount(n) == if n == 0 then 0 else n % 2 + PopCount(n / 2)
  {
  }

  /** Every chunk k of lo..hi stays within x after one multiplication per set bit of its index. */
  ghost predicate LevelsFit(ds: seq<nat>, lo: nat, hi: nat, x: int)
    requires lo <= hi <= |ds|
  {
    forall k :: lo <= k < hi ==> LevelFits(ds, lo, k, x)
  }

  ghost predicate LevelFits(ds: seq<nat>, lo: nat, k: nat, x: int)
    requires lo <= k < |ds|
  {
    ds[k] + PopCount(k - lo) <= x
  }

  lemma LevelsSplit(ds: seq<nat>, lo: nat, mid: nat, hi: nat, level: nat, x: int, y: int)
    requires mid == lo + Pow2(level) && mid < hi <= |ds| && hi - mid <= Pow2(level) && y == x - 1
    ensures LevelsFit(ds, lo, hi, x) <==> LevelsFit(ds, lo, mid, x) && LevelsFit(ds, mid, hi, y)
  {
    forall k | mid <= k < hi ensures LevelFits(ds, lo, k, x) <==> LevelFits(ds, mid, k, y) {
      PopCountSplit(level, k - mid);
      assert k - lo == Pow2(level) + (k - mid);
    }
    if LevelsFit(ds, lo, hi, x) {
      forall k | mid <= k < hi ensures LevelFits(ds, mid, k, y) {
        assert LevelFits(ds, lo, k, x);
      }
    }
    if LevelsFit(ds, lo, mid, x) && LevelsFit(ds, mid, hi, y) {
      forall k | lo <= k < hi ensures LevelFits(ds, lo, k, x) {
        assert k >= mid ==> LevelFits(ds, mid, k, y);
      }
    }
  }

  lemma SplitLogs(lo: nat, hi: nat, level: nat)
    requires hi - lo > 1 && level == SplitLevel(hi - lo)
    ensures CeilLog2(hi - lo) == level + 1 && CeilLog2(Pow2(level)) == level
    ensures CeilLog2(hi - lo - Pow2(level)) <= level
  {
    CeilLog2Is(hi - lo, level + 1);
    if level > 0 { Params.Pow2Strict(level - 1, level); }
    CeilLog2Is(Pow2(level), level);
    CeilLogMono(hi - lo - Pow2(level), Pow2(level));
  }

  /** The tree's depth stays within x exactly when the chunks and the giant powers do. */
  ghost predicate TreeFits(ds: seq<nat>, d: nat, lo: nat, hi: nat, x: int)
    requires lo < hi <= |ds|
  {
    LevelsFit(ds, lo, hi, x) && (hi - lo > 1 ==> d + CeilLog2(hi - lo) <= x)
  }

  lemma TreeFitsSplit(ds: seq<nat>, d: nat, lo: nat, mid: nat, hi: nat, level: nat, x: int, y: int)
    requires lo + 1 < hi <= |ds| && level == SplitLevel(hi - lo) && mid == lo + Pow2(level) && y == x - 1
    ensures TreeFits(ds, d, lo, hi, x) <==> TreeFits(ds, d, lo, mid, x) && TreeFits(ds, d, mid, hi, y) && d + level <= y
  {
    LevelsSplit(ds, lo, mid, hi, level, x, y);
    SplitLogs(lo, hi, level);
  }

  lemma TreeDepthSplit(ds: seq<nat>, d: nat, lo: nat, mid: nat, hi: nat, level: nat, x: int)
    requires lo + 1 < hi <= |ds| && level == SplitLevel(hi - lo) && mid == lo + Pow2(level)
    ensures TreeDepth(ds, d, lo, hi) <= x <==>
      TreeDepth(ds, d, lo, mid) <= x && TreeDepth(ds, d, mid, hi) <= x - 1 && d + level <= x - 1
  {
    hide TreeDepth, SplitLevel, Pow2, Max;
    TreeDepthIs(ds, d, lo, mid, hi, level);
    var left, right := TreeDepth(ds, d, lo, mid), TreeDepth(ds, d, mid, hi);
    MaxWithin(right, d + level, x - 1);
    MaxWithin(left, Max(right, d + level) + 1, x);
  }

  lemma MaxWithin(a: nat, b: nat, x: int)
    ensures Max(a, b) <= x <==> a <= x && b <= x
  {
  }

  lemma TreeDepthIs(ds: seq<nat>, d: nat, lo: nat, mid: nat, hi: nat, level: nat)
    requires lo + 1 < hi <= |ds| && level == SplitLevel(hi - lo) && mid == lo + Pow2(level)
    ensures TreeDepth(ds, d, lo, hi) == Max(TreeDepth(ds, d, lo, mid), Max(TreeDepth(ds, d, mid, hi), d + level) + 1)
  {
    hide Pow2, SplitLevel, Max;
  }

  lemma TreeLeaf(ds: seq<nat>, d: nat, lo: nat, x: int)
    requires lo < |ds|
    ensures TreeDepth(ds, d, lo, lo + 1) <= x <==> TreeFits(ds, d, lo, lo + 1, x)
  {
    assert LevelFits(ds, lo, lo, x) <==> ds[lo] <= x;
  }

  lemma {:induction false} TreeWithin(ds: seq<nat>, d: nat, lo: nat, hi: nat, x: int)
    requires lo < hi <= |ds|
    ensures TreeDepth(ds, d, lo, hi) <= x <==> TreeFits(ds, d, lo, hi, x)
    decreases hi - lo
  {
    if hi - lo == 1 {
      TreeLeaf(ds, d, lo, x);
    } else {
      var level := SplitLevel(hi - lo);
      var mid := lo + Pow2(level);
      TreeWithin(ds, d, lo, mid, x);
      TreeWithin(ds, d, mid, hi, x - 1);
      TreeDepthSplit(ds, d, lo, mid, hi, level, x);
      TreeFitsSplit(ds, d, lo, mid, hi, level, x, x - 1);
    }
  }

  lemma CeilLogMono(m: nat, n: nat)
    requires m <= n
    ensures CeilLog2(m) <= CeilLog2(n)
  {
    var a, b := CeilLog2(m), CeilLog2(n);
    if a > b { Params.Pow2Mono(b, a - 1); }
  }

  /** Chunk i is at most count-1-i levels deeper than d. */
  ghost predicate HornerRoom(ds: seq<nat>, d: nat) {
    forall i :: 0 <= i < |ds| ==> ds[i] <= d + (|ds| - 1 - i)
  }

  /**
   The natural depth covers the Horner circuit (plus the initial ciphertext product)
   exactly when chunk i is at most count-1-i levels deeper than x^s.
   */
  lemma HornerDepthCovered(coeffs: seq<int>)
    requires |coeffs| >= 2
    ensures var s, count := CeilSqrt(|coeffs|), ChunkCount(|coeffs| - 1);
      1 + EvalDepth(coeffs, Horner) <= NaturalDepth(|coeffs| - 1, Horner) <==>
        HornerRoom(ChunkDepths(coeffs, s, count), PowDepth(s))
  {
    hide CeilSqrt, ChunkCount, ChunkDepths, HornerDepth, HornerRoom, PowDepth;
    var s, count := CeilSqrt(|coeffs|), ChunkCount(|coeffs| - 1);
    HornerRoomIs(ChunkDepths(coeffs, s, count), PowDepth(s));
  }

  lemma HornerRoomIs(ds: seq<nat>, d: nat)
    requires |ds| > 0
    ensures HornerDepth(ds, d, 0) <= d + (|ds| - 1) <==> HornerRoom(ds, d)
  {
    var n := |ds|;
    HornerWithin(ds, d, 0, d + (n - 1));
    if HornerRoom(ds, d) {
      forall k | 0 <= k < n ensures ds[k] + (k - 0) <= d + (n - 1) {
        assert ds[k] <= d + (n - 1 - k);
      }
    }
    if forall k :: 0 <= k < n ==> ds[k] + (k - 0) <= d + (n - 1) {
      forall i | 0 <= i < n ensures ds[i] <= d + (n - 1 - i) {
        assert ds[i] + (i - 0) <= d + (n - 1);
      }
    }
  }

  /** Chunk i stays within x after one multiplication per set bit of i. */
  ghost predicate TreeRoom(ds: seq<nat>, x: nat) {
    forall i :: 0 <= i < |ds| ==> ds[i] + PopCount(i) <= x
  }

  /** The same for the tree, where chunk i is multiplied PopCount(i) times. */
  lemma TreeDepthCovered(coeffs: seq<int>)
    requires |coeffs| >= 2
    ensures var s, count := CeilSqrt(|coeffs|), ChunkCount(|coeffs| - 1);
      1 + EvalDepth(coeffs, Tree) <= NaturalDepth(|coeffs| - 1, Tree) <==>
        TreeRoom(ChunkDepths(coeffs, s, count), PowDepth(s) + CeilLog2(count))
  {
    hide CeilSqrt, ChunkCount, ChunkDepths, TreeDepth, TreeRoom, PowDepth;
    var s, count := CeilSqrt(|coeffs|), ChunkCount(|coeffs| - 1);
    TreeRoomIs(ChunkDepths(coeffs, s, count), PowDepth(s));
  }

  lemma TreeRoomIs(ds: seq<nat>, d: nat)
    requires |ds| > 0
    ensures TreeDepth(ds, d, 0, |ds|) <= d + CeilLog2(|ds|) <==> TreeRoom(ds, d + CeilLog2(|ds|))
  {
    var x := d + CeilLog2(|ds|);
    TreeWithin(ds, d, 0, |ds|, x);
    if LevelsFit(ds, 0, |ds|, x) {
      forall i | 0 <= i < |ds| ensures ds[i] + PopCount(i) <= x {
        assert LevelFits(ds, 0, i, x);
      }
    }
  }

  // ------------------------------------------------------------------ the condition by degree

  /** Depth of a chunk of w non-zero coefficients. */
  function DenseDepth(w: nat): nat {
    if w <= 1 then 0 else Max(DenseDepth(w - 1), PowDepth(w - 1))
  }

  lemma {:induction false} DenseChunk(cs: seq<int>)
    ensures ChunkDepth(cs) <= DenseDepth(|cs|)
    ensures (forall t :: 0 <= t < |cs| ==> cs[t] != 0) ==> ChunkDepth(cs) == DenseDepth(|cs|)
  {
    if |cs| > 1 { DenseChunk(cs[..|cs| - 1]); }
  }

  lemma {:induction false} DenseMono(v: nat, w: nat)
    requires v <= w
    ensures DenseDepth(v) <= DenseDepth(w)
  {
    if v < w { DenseMono(v, w - 1); }
  }

  /** Coefficients in the last chunk. */
  function LastWidth(degree: nat): (w: int) {
    degree + 1 - (ChunkCount(degree) - 1) * CeilSqrt(degree + 1)
  }

  lemma ChunkWidths(coeffs: seq<int>, i: nat)
    requires |coeffs| >= 2 && i < ChunkCount(|coeffs| - 1)
    ensures var s, degree := CeilSqrt(|coeffs|), |coeffs| - 1;
      1 <= LastWidth(degree) <= s
      && |Slice(coeffs, s, i, i + 1)| == if i < ChunkCount(degree) - 1 then s else LastWidth(degree)
  {
    hide CeilSqrt;
    var s, degree := CeilSqrt(|coeffs|), |coeffs| - 1;
    var count := ChunkCount(degree);
    ChunkShape(coeffs, degree, s);
    hide ChunkCount;
    SliceLength(coeffs, s, count, i, LastWidth(degree));
  }

  lemma SliceLength(coeffs: seq<int>, s: nat, count: nat, i: nat, w: int)
    requires Chunked(coeffs, s, count) && i < count && w == |coeffs| - (count - 1) * s
    ensures 1 <= w <= s && |Slice(coeffs, s, i, i + 1)| == if i < count - 1 then s else w
  {
    var at := i * s;
    NextMultiple(i, s);
    NextMultiple(count - 1, s);
    AtMono(i, i + 1, s, |coeffs|);
    if i < count - 1 { MulMono(i + 1, count - 1, s); }
  }

  lemma NextMultiple(i: int, s: int)
    ensures (i + 1) * s == i * s + s
  {
  }

  /** What the depth formula sees of a degree: depth of x^s, of a full chunk, of the last chunk, number of chunks. */
  datatype Shape = Shape(d: nat, full: nat, last: nat, count: nat) {
    predicate HornerFits() {
      last <= d && (count > 1 ==> full <= d + 1)
    }

    predicate TreeFits() {
      count >= 1 && last + PopCount(count - 1) <= d + CeilLog2(count)
      && forall i :: 0 <= i < count - 1 ==> full + PopCount(i) <= d + CeilLog2(count)
    }
  }

  function ShapeOf(degree: nat): Shape {
    var s, last := CeilSqrt(degree + 1), LastWidth(degree);
    Shape(PowDepth(s), DenseDepth(s), DenseDepth(if last < 0 then 0 else last), ChunkCount(degree))
  }

  /** A check before the call: the Horner depth formula covers every polynomial of this degree. */
  predicate HornerDegreeCovered(degree: nat) {
    ShapeOf(degree).HornerFits()
  }

  /** The same check for the tree. */
  predicate TreeDegreeCovered(degree: nat) {
    ShapeOf(degree).TreeFits()
  }

  ghost predicate Dense(coeffs: seq<int>) {
    forall t :: 0 <= t < |coeffs| ==> coeffs[t] != 0
  }

  /** Chunk depths are bounded by `full` except the last, bounded by `last`; exactly so when tight. */
  ghost predicate DepthShape(ds: seq<nat>, full: nat, last: nat, tight: bool) {
    forall i :: 0 <= i < |ds| ==>
      var bound := if i < |ds| - 1 then full else last;
      ds[i] <= bound && (tight ==> ds[i] == bound)
  }

  lemma HornerShape(ds: seq<nat>, shape: Shape, tight: bool)
    requires |ds| == shape.count > 0 && DepthShape(ds, shape.full, shape.last, tight)
    ensures shape.HornerFits() ==> HornerRoom(ds, shape.d)
    ensures tight && HornerRoom(ds, shape.d) ==> shape.HornerFits()
  {
    var n := |ds|;
    if tight && HornerRoom(ds, shape.d) {
      assert ds[n - 1] <= shape.d;
      assert n > 1 ==> ds[n - 2] <= shape.d + 1;
    }
  }

  lemma TreeShape(ds: seq<nat>, shape: Shape, tight: bool)
    requires |ds| == shape.count > 0 && DepthShape(ds, shape.full, shape.last, tight)
    ensures shape.TreeFits() ==> TreeRoom(ds, shape.d + CeilLog2(|ds|))
    ensures tight && TreeRoom(ds, shape.d + CeilLog2(|ds|)) ==> shape.TreeFits()
  {
    var n, x := |ds|, shape.d + CeilLog2(|ds|);
    if shape.TreeFits() {
      forall i | 0 <= i < n ensures ds[i] + PopCount(i) <= x {
        assert i < n - 1 ==> shape.full + PopCount(i) <= x;
      }
    }
    if tight && TreeRoom(ds, x) {
      assert ds[n - 1] + PopCount(n - 1) <= x;
      forall i | 0 <= i < n - 1 ensures shape.full + PopCount(i) <= x {
        assert ds[i] + PopCount(i) <= x;
      }
    }
  }

  lemma ChunkDepthAt(coeffs: seq<int>, i: nat)
    requires |coeffs| >= 2 && i < ChunkCount(|coeffs| - 1)
    ensures var shape := ShapeOf(|coeffs| - 1);
      var bound := if i < shape.count - 1 then shape.full else shape.last;
      var depth := ChunkDepth(Slice(coeffs, CeilSqrt(|coeffs|), i, i + 1));
      depth <= bound && (Dense(coeffs) ==> depth == bound)
  {
    ChunkWidths(coeffs, i);
    AtMono(i, i + 1, CeilSqrt(|coeffs|), |coeffs|);
    DenseChunk(Slice(coeffs, CeilSqrt(|coeffs|), i, i + 1));
  }

  lemma ChunkDepthShape(coeffs: seq<int>)
    requires |coeffs| >= 2
    ensures var shape := ShapeOf(|coeffs| - 1);
      DepthShape(ChunkDepths(coeffs, CeilSqrt(|coeffs|), shape.count), shape.full, shape.last, Dense(coeffs))
  {
    var shape := ShapeOf(|coeffs| - 1);
    var ds := ChunkDepths(coeffs, CeilSqrt(|coeffs|), shape.count);
    forall i | 0 <= i < shape.count
      ensures var bound := if i < shape.count - 1 then shape.full else shape.last;
        ds[i] <= bound && (Dense(coeffs) ==> ds[i] == bound)
    {
      ChunkDepthAt(coeffs, i);
    }
  }

  /** The check is sound for every polynomial and exact for those without zero coefficients. */
  lemma HornerCoverageByDegree(coeffs: seq<int>)
    requires |coeffs| >= 2
    ensures HornerDegreeCovered(|coeffs| - 1) ==> 1 + EvalDepth(coeffs, Horner) <= NaturalDepth(|coeffs| - 1, Horner)
    ensures Dense(coeffs) ==>
      (HornerDegreeCovered(|coeffs| - 1) <==> 1 + EvalDepth(coeffs, Horner) <= NaturalDepth(|coeffs| - 1, Horner))
  {
    hide HornerDepth, ChunkDepths, CeilLog2, PowDepth, HornerRoom;
    HornerDepthCovered(coeffs);
    ChunkDepthShape(coeffs);
    var shape := ShapeOf(|coeffs| - 1);
    HornerShape(ChunkDepths(coeffs, CeilSqrt(|coeffs|), shape.count), shape, Dense(coeffs));
  }

  lemma TreeCoverageByDegree(coeffs: seq<int>)
    requires |coeffs| >= 2
    ensures TreeDegreeCovered(|coeffs| - 1) ==> 1 + EvalDepth(coeffs, Tree) <= NaturalDepth(|coeffs| - 1, Tree)
    ensures Dense(coeffs) ==>
      (TreeDegreeCovered(|coeffs| - 1) <==> 1 + EvalDepth(coeffs, Tree) <= NaturalDepth(|coeffs| - 1, Tree))
  {
    hide TreeDepth, ChunkDepths, CeilLog2, PowDepth, TreeRoom;
    TreeDepthCovered(coeffs);
    ChunkDepthShape(coeffs);
    var shape := ShapeOf(|coeffs| - 1);
    TreeShape(ChunkDepths(coeffs, CeilSqrt(|coeffs|), shape.count), shape, Dense(coeffs));
  }

  lemma CeilSqrtIs(n: nat, s: nat)
    requires s >= 1 && s * s >= n && (s > 1 ==> (s - 1) * (s - 1) < n)
    ensures CeilSqrt(n) == s
  {
    var r := CeilSqrt(n);
    if r < s { Params.SquareBelowProduct(r, s - 1, s - 1); }
    if s < r { Params.SquareBelowProduct(s, r - 1, r - 1); }
  }

  /** The shape of a degree from its baby-step size s, its last chunk's width w, and three depths. */
  lemma ShapeIs(degree: nat, s: nat, q: nat, w: nat, d: nat, full: nat, last: nat)
    requires s >= 1 && s * s >= degree + 1 && (s > 1 ==> (s - 1) * (s - 1) < degree + 1)
    requires q * s + w == degree + 1 && 1 <= w <= s
    requires PowDepth(s) == d && DenseDepth(s) == full && DenseDepth(w) == last
    ensures ShapeOf(degree) == Shape(d, full, last, q + 1)
    ensures NaturalDepth(degree, Horner) == 1 + d + q && NaturalDepth(degree, Tree) == 1 + d + CeilLog2(q + 1)
  {
    CeilSqrtIs(degree + 1, s);
    ModIs(degree, s, q, w - 1);
    assert ChunkCount(degree) == q + 1;
    assert LastWidth(degree) == w;
  }

  lemma DenseDepths()
    ensures DenseDepth(2) == 0 && DenseDepth(3) == 1 && DenseDepth(5) == 2 && DenseDepth(6) == 3
    ensures DenseDepth(7) == 3 && DenseDepth(8) == 4 && DenseDepth(9) == 4 && DenseDepth(12) == 5
  {
    assert DenseDepth(4) == 2;
    assert DenseDepth(11) == 4;
  }

  lemma LargerDenseDepths()
    ensures DenseDepth(17) == 6 && DenseDepth(23) == 6
  {
    DenseDepths();
    assert DenseDepth(14) == 5;
    assert DenseDepth(16) == 6;
    assert DenseDepth(20) == 6;
  }

  /** Is the depth formula enough for every polynomial of this degree, under this giant step? */
  predicate DegreeCovered(degree: nat, mode: GiantStepMode) {
    match mode case Horner => HornerDegreeCovered(degree) case Tree => TreeDegreeCovered(degree)
  }

  lemma CoveredFits(coeffs: seq<int>, degree: nat, mode: GiantStepMode)
    requires |coeffs| == degree + 1 && degree >= 1 && DegreeCovered(degree, mode)
    ensures 1 + EvalDepth(coeffs, mode) <= NaturalDepth(degree, mode)
  {
    hide HornerDegreeCovered, TreeDegreeCovered, EvalDepth, NaturalDepth;
    match mode
    case Horner => HornerCoverageByDegree(coeffs);
    case Tree => TreeCoverageByDegree(coeffs);
  }

  // ------------------------------------------------------------------ polynomials beyond the formula

  /** A leading coefficient that is not zero costs the last chunk its highest power. */
  lemma LastChunkDepth(coeffs: seq<int>, s: nat, count: nat, w: int)
    requires |coeffs| >= 2 && coeffs[|coeffs| - 1] != 0
    requires s == CeilSqrt(|coeffs|) && count == ChunkCount(|coeffs| - 1) && w == LastWidth(|coeffs| - 1)
    ensures w >= 1 && ChunkDepths(coeffs, s, count)[count - 1] >= PowDepth(w - 1)
  {
    hide CeilSqrt, PowDepth, LastWidth, ChunkCount, Slice, ChunkDepth;
    ChunkWidths(coeffs, count - 1);
    LastEntry(coeffs, s, count);
    TopPower(Slice(coeffs, s, count - 1, count));
  }

  lemma TopPower(cs: seq<int>)
    requires cs != [] && cs[|cs| - 1] != 0
    ensures ChunkDepth(cs) >= PowDepth(|cs| - 1)
  {
  }

  lemma LastEntry(coeffs: seq<int>, s: nat, count: nat)
    requires |coeffs| >= 2 && s == CeilSqrt(|coeffs|) && count == ChunkCount(|coeffs| - 1)
    ensures var cs := Slice(coeffs, s, count - 1, count);
      cs != [] && cs[|cs| - 1] == coeffs[|coeffs| - 1]
  {
    ChunkShape(coeffs, |coeffs| - 1, s);
    hide CeilSqrt, ChunkCount;
    LastSlice(coeffs, s, count);
  }

  lemma LastSlice(coeffs: seq<int>, s: nat, count: nat)
    requires Chunked(coeffs, s, count)
    ensures var cs := Slice(coeffs, s, count - 1, count); cs != [] && cs[|cs| - 1] == coeffs[|coeffs| - 1]
  {
    var at := (count - 1) * s;
    assert count * s == at + s;
  }

  /** Then the Horner circuit exceeds its provision whenever that power alone is deeper than x^s. */
  lemma HornerExceeds(coeffs: seq<int>, s: nat, count: nat, w: int)
    requires |coeffs| >= 2 && coeffs[|coeffs| - 1] != 0
    requires s == CeilSqrt(|coeffs|) && count == ChunkCount(|coeffs| - 1) && w == LastWidth(|coeffs| - 1)
    requires w >= 1 && PowDepth(w - 1) > PowDepth(s)
    ensures 1 + EvalDepth(coeffs, Horner) > NaturalDepth(|coeffs| - 1, Horner)
  {
    hide CeilSqrt, PowDepth, LastWidth, ChunkCount, ChunkDepths, EvalDepth, NaturalDepth;
    LastChunkDepth(coeffs, s, count, w);
    HornerDepthCovered(coeffs);
    assert |ChunkDepths(coeffs, s, count)| == count;
  }

  /** And the tree circuit whenever it does not fit beside the multiplications of the last chunk. */
  lemma TreeExceeds(coeffs: seq<int>, s: nat, count: nat, w: int)
    requires |coeffs| >= 2 && coeffs[|coeffs| - 1] != 0
    requires s == CeilSqrt(|coeffs|) && count == ChunkCount(|coeffs| - 1) && w == LastWidth(|coeffs| - 1)
    requires w >= 1 && PowDepth(w - 1) + PopCount(count - 1) > PowDepth(s) + CeilLog2(count)
    ensures 1 + EvalDepth(coeffs, Tree) > NaturalDepth(|coeffs| - 1, Tree)
  {
    hide CeilSqrt, PowDepth, LastWidth, ChunkCount, ChunkDepths, EvalDepth, NaturalDepth, CeilLog2, PopCount;
    LastChunkDepth(coeffs, s, count, w);
    TreeDepthCovered(coeffs);
    assert |ChunkDepths(coeffs, s, count)| == count;
  }

  /** A check before the call: the highest power of this degree alone does not fit the provision. */
  predicate TopPowerTooDeep(degree: nat, mode: GiantStepMode)
    requires degree >= 1
  {
    var s, count, w := CeilSqrt(degree + 1), ChunkCount(degree), LastWidth(degree);
    && w >= 1
    && match mode
       case Horner => PowDepth(w - 1) > PowDepth(s)
       case Tree => PowDepth(w - 1) + PopCount(count - 1) > PowDepth(s) + CeilLog2(count)
  }

  lemma TopPowerExceeds(coeffs: seq<int>, degree: nat, mode: GiantStepMode)
    requires degree >= 1 && |coeffs| == degree + 1 && coeffs[degree] != 0 && TopPowerTooDeep(degree, mode)
    ensures 1 + EvalDepth(coeffs, mode) > NaturalDepth(degree, mode)
  {
    hide CeilSqrt, PowDepth, LastWidth, ChunkCount, EvalDepth, NaturalDepth, CeilLog2, PopCount;
    var s, count, w := CeilSqrt(degree + 1), ChunkCount(degree), LastWidth(degree);
    match mode
    case Horner => HornerExceeds(coeffs, s, count, w);
    case Tree => TreeExceeds(coeffs, s, count, w);
  }

  /** The power x^degree by itself. */
  function Monomial(degree: nat): (coeffs: seq<int>)
    ensures |coeffs| == degree + 1 && coeffs[degree] == 1
  {
    seq(degree + 1, i => if i == degree then 1 else 0)
  }

  lemma {:induction false} ZeroChunk(cs: seq<int>)
    requires forall t :: 0 <= t < |cs| - 1 ==> cs[t] == 0
    ensures ChunkDepth(cs) <= PowDepth(if cs == [] then 0 else |cs| - 1)
    ensures cs != [] && cs[|cs| - 1] == 0 ==> ChunkDepth(cs) == 0
  {
    if |cs| > 1 { ZeroChunk(cs[..|cs| - 1]); }
  }

  /** Chunks of the monomial before the last are zero, and the last is one power. */
  lemma MonomialChunk(degree: nat, i: nat)
    requires degree >= 1 && i < ChunkCount(degree)
    ensures var s, count, w := CeilSqrt(degree + 1), ChunkCount(degree), LastWidth(degree);
      w >= 1 && ChunkDepths(Monomial(degree), s, count)[i] <= if i < count - 1 then 0 else PowDepth(w - 1)
  {
    hide CeilSqrt, PowDepth, LastWidth, ChunkDepth;
    var coeffs, s, count := Monomial(degree), CeilSqrt(degree + 1), ChunkCount(degree);
    ChunkWidths(coeffs, i);
    ChunkShape(coeffs, degree, s);
    hide ChunkCount;
    MonomialSlice(degree, s, count, i);
    ZeroChunk(Slice(coeffs, s, i, i + 1));
  }

  lemma MonomialSlice(degree: nat, s: nat, count: nat, i: nat)
    requires Chunked(Monomial(degree), s, count) && i < count
    ensures var cs := Slice(Monomial(degree), s, i, i + 1);
      cs != [] && (forall t :: 0 <= t < |cs| - 1 ==> cs[t] == 0) && (i < count - 1 ==> cs[|cs| - 1] == 0)
  {
    var at, next := i * s, (i + 1) * s;
    NextMultiple(i, s);
    MulMono(i, count - 1, s);
    if i < count - 1 { MulMono(i + 1, count - 1, s); }
  }

  lemma {:induction false} BitsBelowPow2(v: nat, log: nat)
    requires v < Pow2(log)
    ensures PopCount(v) <= log
  {
    if log > 0 {
      Pow2Unfold(log);
      BitsBelowPow2(v / 2, log - 1);
    } else {
      LowestBit();
    }
  }

  lemma MonomialFits(degree: nat, mode: GiantStepMode)
    requires degree >= 1 && !TopPowerTooDeep(degree, mode)
    ensures 1 + EvalDepth(Monomial(degree), mode) <= NaturalDepth(degree, mode)
  {
    hide CeilSqrt, PowDepth, LastWidth, EvalDepth, NaturalDepth, PopCount, Pow2, ChunkCount, ChunkDepths, Monomial;
    var s, count, w := CeilSqrt(degree + 1), ChunkCount(degree), LastWidth(degree);
    var ds := ChunkDepths(Monomial(degree), s, count);
    var x := PowDepth(s) + CeilLog2(count);
    assert count <= Pow2(CeilLog2(count));
    hide CeilLog2;
    forall i | 0 <= i < count
      ensures mode == Horner ==> ds[i] <= PowDepth(s) + (count - 1 - i)
      ensures mode == Tree ==> ds[i] + PopCount(i) <= x
    {
      MonomialChunk(degree, i);
      BitsBelowPow2(i, CeilLog2(count));
    }
    match mode
    case Horner => HornerDepthCovered(Monomial(degree));
    case Tree => TreeDepthCovered(Monomial(degree));
  }

  /** Every polynomial of the exact degree exceeds the provision, if and only if the highest power alone does. */
  lemma ExceedsExactly(degree: nat, mode: GiantStepMode)
    requires degree >= 1
    ensures TopPowerTooDeep(degree, mode) <==>
      forall coeffs: seq<int> :: |coeffs| == degree + 1 && coeffs[degree] != 0 ==>
        1 + EvalDepth(coeffs, mode) > NaturalDepth(degree, mode)
  {
    hide TopPowerTooDeep, EvalDepth, NaturalDepth;
    if TopPowerTooDeep(degree, mode) {
      forall coeffs: seq<int> | |coeffs| == degree + 1 && coeffs[degree] != 0
        ensures 1 + EvalDepth(coeffs, mode) > NaturalDepth(degree, mode)
      {
        TopPowerExceeds(coeffs, degree, mode);
      }
    } else {
      MonomialFits(degree, mode);
    }
  }

  /** What the giant step must find room for, chunk by chunk. */
  ghost predicate RoomFits(coeffs: seq<int>, mode: GiantStepMode)
    requires |coeffs| >= 2
  {
    var s, count := CeilSqrt(|coeffs|), ChunkCount(|coeffs| - 1);
    var ds := ChunkDepths(coeffs, s, count);
    match mode
    case Horner => HornerRoom(ds, PowDepth(s))
    case Tree => TreeRoom(ds, PowDepth(s) + CeilLog2(count))
  }

  /** Either giant step stays within its provision exactly when every chunk has room. */
  lemma DepthCovered(coeffs: seq<int>, degree: nat, mode: GiantStepMode)
    requires degree >= 1 && |coeffs| == degree + 1
    ensures 1 + EvalDepth(coeffs, mode) <= NaturalDepth(degree, mode) <==> RoomFits(coeffs, mode)
  {
    hide EvalDepth, NaturalDepth, HornerRoom, TreeRoom, CeilSqrt, ChunkCount, ChunkDepths, PowDepth, CeilLog2;
    match mode
    case Horner => HornerDepthCovered(coeffs);
    case Tree => TreeDepthCovered(coeffs);
  }

  /** The shape that decides about the highest power. */
  lemma TopPowerIs(degree: nat, s: nat, q: nat, w: nat)
    requires degree >= 1 && s >= 1 && s * s >= degree + 1 && (s > 1 ==> (s - 1) * (s - 1) < degree + 1)
    requires q * s + w == degree + 1 && 1 <= w <= s
    ensures TopPowerTooDeep(degree, Horner) <==> PowDepth(w - 1) > PowDepth(s)
    ensures TopPowerTooDeep(degree, Tree) <==> PowDepth(w - 1) + PopCount(q) > PowDepth(s) + CeilLog2(q + 1)
  {
    hide PowDepth, PopCount, CeilLog2;
    CeilSqrtIs(degree + 1, s);
    ModIs(degree, s, q, w - 1);
    assert ChunkCount(degree) == q + 1;
    assert LastWidth(degree) == w;
  }

  lemma TopPowerDepths()
    ensures PowDepth(7) == 4 && PowDepth(8) == 3 && PowDepth(11) == 5 && PowDepth(12) == 4
    ensures PowDepth(15) == 6 && PowDepth(16) == 4 && PopCount(7) == 3 && PopCount(15) == 4
  {
    assert PowDepth(6) == 3 && PowDepth(14) == 5 && PowDepth(10) == 4;
    assert PopCount(3) == 2;
  }

  /**
   Degrees at which the formula is no upper bound for any polynomial of that degree: x^7 is
   deeper than x^8, x^11 than x^12, and x^15 than x^16.
   */
  lemma DeepDegrees(degree: nat)
    requires degree == 55 || degree == 63 || degree == 131 || degree == 143 || degree == 255
    ensures TopPowerTooDeep(degree, Horner)
    ensures degree == 63 || degree == 255 ==> TopPowerTooDeep(degree, Tree)
  {
    TopPowerDepths();
    hide PowDepth, PopCount, TopPowerTooDeep;
    if degree == 55 { TopPowerIs(degree, 8, 6, 8); }
    if degree == 63 { TopPowerIs(degree, 8, 7, 8); CeilLog2Is(8, 3); }
    if degree == 131 { TopPowerIs(degree, 12, 10, 12); }
    if degree == 143 { TopPowerIs(degree, 12, 11, 12); }
    if degree == 255 { TopPowerIs(degree, 16, 15, 16); CeilLog2Is(16, 4); }
  }

  /** Every number of hash functions the benchmark profiles use is covered by the Horner formula. */
  lemma ProfileDegreesCovered(k: nat)
    requires k == 16 || k == 32 || k == 64 || k == 128 || k == 256 || k == 512
    ensures HornerDegreeCovered(k)
  {
    DenseDepths();
    if k == 16 { assert PowDepth(5) == 3; ShapeIs(k, 5, 3, 2, 3, 2, 0); }
    if k == 32 { assert PowDepth(6) == 3; ShapeIs(k, 6, 5, 3, 3, 3, 1); }
    if k == 64 { assert PowDepth(9) == 4; ShapeIs(k, 9, 7, 2, 4, 4, 0); }
    if k == 128 { assert PowDepth(12) == 4; ShapeIs(k, 12, 10, 9, 4, 5, 4); }
    if k >= 256 { LargerDenseDepths(); }
    if k == 256 { assert PowDepth(17) == 5; ShapeIs(k, 17, 15, 2, 5, 6, 0); }
    if k == 512 { assert PowDepth(23) == 7; ShapeIs(k, 23, 22, 7, 7, 6, 3); }
  }

  lemma SmallPopCount(i: nat)
    requires i < 22
    ensures PopCount(i) <= 4 && (i < 15 ==> PopCount(i) <= 3) && (i < 7 ==> PopCount(i) <= 2)
      && (i < 3 ==> PopCount(i) <= 1)
  {
  }

  /** No chunk index below n has more than `bound` set bits. */
  ghost predicate BitsWithin(n: nat, bound: nat) {
    forall i :: 0 <= i < n ==> PopCount(i) <= bound
  }

  lemma BitBounds()
    ensures BitsWithin(3, 1) && BitsWithin(7, 2) && BitsWithin(15, 3) && BitsWithin(22, 4)
  {
    forall i | 0 <= i < 22
      ensures PopCount(i) <= 4 && (i < 15 ==> PopCount(i) <= 3) && (i < 7 ==> PopCount(i) <= 2)
        && (i < 3 ==> PopCount(i) <= 1)
    {
      SmallPopCount(i);
    }
  }

  /** The tree check from the shape of a degree and a common bound on the set bits before the last chunk. */
  lemma TreeCoveredBy(k: nat, s: nat, q: nat, w: nat, d: nat, full: nat, last: nat, bound: nat, log: nat)
    requires s >= 1 && s * s >= k + 1 && (s > 1 ==> (s - 1) * (s - 1) < k + 1)
    requires q * s + w == k + 1 && 1 <= w <= s
    requires PowDepth(s) == d && DenseDepth(s) == full && DenseDepth(w) == last
    requires q + 1 <= Pow2(log) && (log > 0 ==> Pow2(log - 1) < q + 1)
    requires BitsWithin(q, bound) && full + bound <= d + log && last + PopCount(q) <= d + log
    ensures TreeDegreeCovered(k) && NaturalDepth(k, Tree) == 1 + d + log
  {
    hide DenseDepth, PowDepth, CeilSqrt, LastWidth, ChunkCount, PopCount, Pow2, NaturalDepth;
    CeilLog2Is(q + 1, log);
    hide CeilLog2;
    ShapeIs(k, s, q, w, d, full, last);
  }

  lemma SmallTreeProfiles(k: nat)
    requires k == 16 || k == 32 || k == 64
    ensures TreeDegreeCovered(k) && NaturalDepth(k, Tree) == if k == 16 then 6 else if k == 32 then 7 else 8
  {
    hide TreeDegreeCovered, NaturalDepth, BitsWithin;
    DenseDepths();
    BitBounds();
    hide DenseDepth;
    if k == 16 {
      assert PowDepth(5) == 3 && PopCount(3) == 2 && Pow2(2) == 4;
      TreeCoveredBy(k, 5, 3, 2, 3, 2, 0, 1, 2);
    } else if k == 32 {
      assert PowDepth(6) == 3 && PopCount(5) == 2 && Pow2(3) == 8;
      FewerBits(7, 5, 2);
      TreeCoveredBy(k, 6, 5, 3, 3, 3, 1, 2, 3);
    } else {
      assert PowDepth(9) == 4 && PopCount(7) == 3 && Pow2(3) == 8;
      TreeCoveredBy(k, 9, 7, 2, 4, 4, 0, 2, 3);
    }
  }

  lemma FewerBits(n: nat, m: nat, bound: nat)
    requires BitsWithin(n, bound) && m <= n
    ensures BitsWithin(m, bound)
  {
  }

  lemma LargeTreeProfiles(k: nat)
    requires k == 128 || k == 256 || k == 512
    ensures TreeDegreeCovered(k) && NaturalDepth(k, Tree) == if k == 128 then 9 else if k == 256 then 10 else 13
  {
    LargePowDepths();
    LargePopCounts();
    DenseDepths();
    LargerDenseDepths();
    BitBounds();
    hide TreeDegreeCovered, NaturalDepth, BitsWithin, DenseDepth, PowDepth, PopCount, Pow2;
    if k == 128 {
      FewerBits(15, 10, 3);
      TreeCoveredBy(k, 12, 10, 9, 4, 5, 4, 3, 4);
    } else if k == 256 {
      TreeCoveredBy(k, 17, 15, 2, 5, 6, 0, 3, 4);
    } else {
      TreeCoveredBy(k, 23, 22, 7, 7, 6, 3, 4, 5);
    }
  }

  lemma LargePowDepths()
    ensures PowDepth(12) == 4 && PowDepth(17) == 5 && PowDepth(23) == 7
  {
  }

  lemma LargePopCounts()
    ensures PopCount(10) == 2 && PopCount(15) == 4 && PopCount(22) == 3
    ensures Pow2(3) == 8 && Pow2(4) == 16 && Pow2(5) == 32
  {
  }

  /** Every profile's k is covered under the tree as well, at these natural depths. */
  lemma TreeProfilesCovered(k: nat)
    requires k == 16 || k == 32 || k == 64 || k == 128 || k == 256 || k == 512
    ensures TreeDegreeCovered(k)
    ensures NaturalDepth(k, Tree) == if k == 16 then 6 else if k == 32 then 7 else if k == 64 then 8
                                     else if k == 128 then 9 else if k == 256 then 10 else 13
  {
    if k <= 64 { SmallTreeProfiles(k); } else { LargeTreeProfiles(k); }
  }
}
