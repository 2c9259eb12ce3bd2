/**
 The integer square tests of the benchmarks and their relation to the shape the sqrt
 circuit needs: `IsSqrtApplicable` (`benchmarks/benchmark_profile.cpp`), `ExactSqrtBase`
 (`benchmarks/bench_review_comparison.cpp`) and the inline base of
 `benchmarks/bench_crossover.cpp`.
 */
module SquareTests {
  import opened Num
  import opened Wrappers
  import opened Params
  import opened Protocol

  ghost predicate IsSquare(m: nat) {
    exists r: nat :: r > 0 && Square(r) == m
  }

  function Square(r: nat): nat {
    r * r
  }

  lemma SquareOrder(r: nat, s: nat)
    ensures r < s ==> Square(r) < Square(s)
    ensures Square(r) == Square(s) ==> r == s
  {
    if r < s { MulMono(r, s, r); MulMono(1, s - r, s); assert s * s == r * s + (s - r) * s; }
    if s < r { MulMono(s, r, s); MulMono(1, r - s, r); assert r * r == s * r + (r - s) * r; }
  }

  /** root <= m / root is the overflow-free form of root * root <= m. */
  lemma QuotientGuard(root: nat, m: nat)
    requires root > 0
    ensures root <= m / root <==> Square(root) <= m
  {
    var q, r := m / root, m % root;
    assert m == q * root + r && 0 <= r < root;
    if root <= q { MulMono(root, q, root); }
    if root > q { MulMono(q + 1, root, root); assert (q + 1) * root == q * root + root; }
  }

  /** Where both searches stop: the least root whose square reaches m, or the first past m. */
  method SearchRoot(m: nat) returns (root: nat)
    requires m < TWO_32
    ensures root > 0 && (m > 0 ==> Square(root) >= m) && forall r: nat :: r < root && r > 0 ==> Square(r) < m
    ensures root <= 65536
  {
    root := 1;
    RootFits(1, m);
    while root <= m / root && Square(root) < m
      invariant root > 0 && forall r: nat :: r < root && r > 0 ==> Square(r) < m
      invariant root <= 65536
      decreases m - root
    {
      RootFits(root, m);
      root := root + 1;
    }
    QuotientGuard(root, m);
  }

  /**
   No product of the searches overflows: past the loop test's first half the 32-bit square
   is at most m, the next root fits 16 bits plus one, and the final 64-bit square is at most 2^32.
   */
  lemma RootFits(root: nat, m: nat)
    requires m < TWO_32 && root > 0
    ensures root <= m / root ==> Square(root) <= m < TWO_32
    ensures Square(root) < m ==> root < 65536 && root < m
    ensures root <= 65536 ==> Square(root) <= TWO_32
  {
    QuotientGuard(root, m);
    if root >= 65536 { MulMono(65536, root, root); MulMono(65536, root, 65536); }
    if root <= 65536 { MulMono(root, 65536, root); MulMono(root, 65536, 65536); }
    MulMono(1, root, root);
  }

  lemma RootDecides(root: nat, m: nat)
    requires root > 0 && (m > 0 ==> Square(root) >= m) && forall r: nat :: r < root && r > 0 ==> Square(r) < m
    ensures Square(root) == m <==> IsSquare(m)
  {
    if IsSquare(m) {
      var r: nat :| r > 0 && Square(r) == m;
      MulMono(1, r, r);
      SquareOrder(root, r);
    }
  }

  /** True exactly on the positive perfect squares. */
  method IsSqrtApplicable(m: nat) returns (applicable: bool)
    requires m < TWO_32
    ensures applicable <==> IsSquare(m)
  {
    if m == 0 {
      ZeroIsNoSquare();
      return false;
    }
    var root := SearchRoot(m);
    RootDecides(root, m);
    return Square(root) == m;
  }

  lemma ZeroIsNoSquare()
    ensures !IsSquare(0)
  {
    forall r: nat | r > 0 ensures Square(r) != 0 { MulMono(1, r, r); }
  }

  /** Succeeds on exactly the same m, with the root. */
  method ExactSqrtBase(m: nat) returns (r: Result<nat>)
    requires m < TWO_32
    ensures r.Ok? <==> IsSquare(m)
    ensures r.Ok? ==> r.value > 0 && Square(r.value) == m
    ensures r.Err? ==> r.error.InvalidArgument?
  {
    var base := SearchRoot(m);
    if m == 0 { ZeroIsNoSquare(); MulMono(1, base, base); }
    RootDecides(base, m);
    if base == 0 || Square(base) != m {
      return Err(InvalidArgument("sqrt encoding requires an exact-square m"));
    }
    return Ok(base);
  }

  /** The base the crossover sweep shifts out of m. */
  method CrossoverBase(m: nat) returns (sqrtBase: nat)
    ensures sqrtBase == SqrtBase(m)
    ensures IsPow2(sqrtBase) && (m > 0 ==> Square(sqrtBase) <= m < 4 * Square(sqrtBase))
  {
    BaseBounds(m);
    var log2m := ShiftLog2(m);
    sqrtBase := Pow2(log2m / 2);
  }

  lemma {:induction false} LogBounds(m: nat)
    requires m > 0
    ensures Pow2(Log2(m)) <= m < 2 * Pow2(Log2(m))
  {
    if m > 1 { LogBounds(m / 2); }
  }

  /** The base is the power of two whose square is the largest power of four up to m. */
  lemma BaseBounds(m: nat)
    ensures m > 0 ==> Square(SqrtBase(m)) <= m < 4 * Square(SqrtBase(m))
  {
    if m > 0 {
      var log := Log2(m);
      var half := log / 2;
      LogBounds(m);
      Params.Pow2Add(half, half);
      hide Log2;
      if log % 2 == 1 { assert Pow2(log) == 2 * Pow2(half + half); } else { assert log == half + half; }
    }
  }

  lemma {:induction false} LogOfPower(e: nat)
    ensures Log2(Pow2(e)) == e
  {
    if e > 0 { LogOfPower(e - 1); }
  }

  /**
   The square tests accept more than the circuit can rotate by: among their roots of at
   least two, the powers of two are exactly those of the m that IsSqrtValid accepts, and
   there the root is the shifted base.
   */
  lemma ValidAmongSquares(m: nat, root: nat)
    requires root >= 2 && Square(root) == m
    ensures IsPow2(root) <==> SqrtShaped(m)
    ensures SqrtShaped(m) ==> root == SqrtBase(m)
  {
    hide SqrtBase, SqrtShaped, Square, IsPow2;
    if SqrtShaped(m) {
      ValidIsSquare(m);
      SquareOrder(root, SqrtBase(m));
    }
    if IsPow2(root) { PowerRootIsValid(m, root); }
  }

  lemma PowerRootIsValid(m: nat, root: nat)
    requires root >= 2 && Square(root) == m && IsPow2(root)
    ensures SqrtShaped(m)
  {
    hide IsPow2, Log2, Pow2;
    var e := LogOf(root);
    Pow2Add(e, e);
    LogOfPower(e + e);
    MulMono(2, root, root);
  }

  lemma ValidIsSquare(m: nat)
    requires SqrtShaped(m)
    ensures IsSquare(m) && Square(SqrtBase(m)) == m && IsPow2(SqrtBase(m))
  {
    SqrtBaseSquares(m);
    assert Square(SqrtBase(m)) == m;
  }
}
