/**
 Derived parameters (`src/util/params.cpp`): ring dimension by bit smearing,
 trial-division primality, and the plaintext modulus search.
 */
module Params {
  import opened Num
  import opened Wrappers

  const TWO_32: nat := 0x1_0000_0000
  const TWO_31: nat := 0x8000_0000
  const TWO_30: nat := 0x4000_0000

  /** uint32 arithmetic keeps the low 32 bits. */
  function U32(x: nat): (r: nat)
    ensures r < TWO_32
  {
    x % TWO_32
  }

  // ------------------------------------------------------------------ bits

  predicate Bit(v: nat, i: nat) {
    if i == 0 then v % 2 == 1 else Bit(v / 2, i - 1)
  }

  /** Number of significant bits. */
  function Len(v: nat): nat {
    if v == 0 then 0 else 1 + Len(v / 2)
  }

  function BitOr(a: nat, b: nat): nat
    decreases a + b
  {
    if a == 0 then b else if b == 0 then a else
      2 * BitOr(a / 2, b / 2) + if a % 2 == 1 || b % 2 == 1 then 1 else 0
  }

  function BitAnd(a: nat, b: nat): nat {
    if a == 0 || b == 0 then 0 else
      2 * BitAnd(a / 2, b / 2) + if a % 2 == 1 && b % 2 == 1 then 1 else 0
  }

  function Shr(v: nat, c: nat): nat {
    if c == 0 then v else Shr(v / 2, c - 1)
  }

  lemma {:induction false} OrBit(a: nat, b: nat, i: nat)
    ensures Bit(BitOr(a, b), i) <==> Bit(a, i) || Bit(b, i)
    decreases i
  {
    if a == 0 {
      ZeroHasNoBits(i);
    } else if b == 0 {
      ZeroHasNoBits(i);
    } else if i > 0 {
      OrBit(a / 2, b / 2, i - 1);
    }
  }

  lemma {:induction false} ZeroHasNoBits(i: nat)
    ensures !Bit(0, i)
  {
    if i > 0 { ZeroHasNoBits(i - 1); }
  }

  lemma {:induction false} ShrBit(v: nat, c: nat, i: nat)
    ensures Bit(Shr(v, c), i) <==> Bit(v, i + c)
  {
    if c > 0 { ShrBit(v / 2, c - 1, i); }
  }

  lemma {:induction false} OrLen(a: nat, b: nat)
    ensures Len(BitOr(a, b)) == if Len(a) < Len(b) then Len(b) else Len(a)
    decreases a + b
  {
    if a != 0 && b != 0 {
      OrLen(a / 2, b / 2);
      assert BitOr(a, b) / 2 == BitOr(a / 2, b / 2);
    }
  }

  lemma {:induction false} HalfLen(v: nat)
    ensures Len(v / 2) <= Len(v)
  {
  }

  lemma {:induction false} ShrLen(v: nat, c: nat)
    ensures Len(Shr(v, c)) <= Len(v)
  {
    if c > 0 {
      ShrLen(v / 2, c - 1);
      HalfLen(v);
    }
  }

  lemma {:induction false} TopBit(v: nat)
    requires v > 0
    ensures Bit(v, Len(v) - 1)
  {
    if v > 1 { TopBit(v / 2); }
  }

  lemma {:induction false} LenBounds(v: nat)
    requires v > 0
    ensures Len(v) >= 1 && Pow2(Len(v) - 1) <= v < Pow2(Len(v))
  {
    if v > 1 { LenBounds(v / 2); }
  }

  lemma {:induction false} AllOnes(v: nat)
    requires forall i :: 0 <= i < Len(v) ==> Bit(v, i)
    ensures v == Pow2(Len(v)) - 1
  {
    if v > 0 {
      assert Bit(v, 0);
      forall i | 0 <= i < Len(v / 2) ensures Bit(v / 2, i) {
        assert Bit(v, i + 1);
      }
      AllOnes(v / 2);
    }
  }

  /** The top c bits of v are ones. */
  ghost predicate TopOnes(v: nat, c: nat) {
    forall i :: 0 <= i < Len(v) && Len(v) - c <= i ==> Bit(v, i)
  }

  /** v |= v >> c doubles the run of leading ones. */
  lemma Smear(v: nat, c: nat)
    requires TopOnes(v, c)
    ensures Len(BitOr(v, Shr(v, c))) == Len(v) && TopOnes(BitOr(v, Shr(v, c)), 2 * c)
  {
    OrLen(v, Shr(v, c));
    ShrLen(v, c);
    var w := BitOr(v, Shr(v, c));
    forall i | 0 <= i < Len(v) && Len(v) - 2 * c <= i ensures Bit(w, i) {
      OrBit(v, Shr(v, c), i);
      ShrBit(v, c, i);
      if i < Len(v) - c { assert Bit(v, i + c); }
    }
  }

  lemma {:induction false} Pow2Strict(a: nat, b: nat)
    requires a < b
    ensures Pow2(a) < Pow2(b)
  {
    if a + 1 < b { Pow2Strict(a, b - 1); }
  }

  lemma {:induction false} LogOf(x: nat) returns (e: nat)
    requires IsPow2(x)
    ensures x == Pow2(e)
  {
    if x == 1 { e := 0; } else { e := LogOf(x / 2); e := e + 1; }
  }

  lemma {:induction false} Pow2Add(a: nat, b: nat)
    ensures Pow2(a + b) == Pow2(a) * Pow2(b)
  {
    hide IsPow2;
    if a > 0 {
      Pow2Add(a - 1, b);
      Twice(Pow2(a - 1), Pow2(b));
    }
  }

  lemma Twice(x: int, y: int)
    ensures 2 * (x * y) == (2 * x) * y
  {
  }

  lemma Pow31And32()
    ensures Pow2(30) == TWO_30 && Pow2(31) == TWO_31 && Pow2(32) == TWO_32
    ensures IsPow2(TWO_30) && IsPow2(TWO_31)
  {
    FivePow2();
    hide IsPow2, Pow2;
    Pow2Add(5, 5);
    Pow2Add(10, 10);
    Pow2Add(10, 20);
    Pow2Add(1, 30);
    Pow2Add(1, 31);
  }

  lemma FivePow2()
    ensures Pow2(1) == 2 && Pow2(5) == 32
  {
  }

  /** The least power of two that is at least n. */
  ghost predicate IsNextPow2(n: nat, r: nat) {
    IsPow2(r) && n <= r && forall x :: IsPow2(x) && n <= x ==> r <= x
  }

  /** Five smearing steps leave 2^len - 1. */
  lemma SmearSteps(v: nat, v1: nat, v2: nat, v4: nat, v8: nat, v16: nat)
    requires 0 < v < TWO_32
    requires v1 == BitOr(v, Shr(v, 1)) && v2 == BitOr(v1, Shr(v1, 2)) && v4 == BitOr(v2, Shr(v2, 4))
    requires v8 == BitOr(v4, Shr(v4, 8)) && v16 == BitOr(v8, Shr(v8, 16))
    ensures v16 == Pow2(Len(v)) - 1
  {
    TopBit(v);
    Smear(v, 1);
    Smear(v1, 2);
    Smear(v2, 4);
    Smear(v4, 8);
    Smear(v8, 16);
    LenFits(v);
    AllOnes(v16);
  }

  /** Bit smearing yields the least power of two at or above n, and wraps to 0 above 2^31. */
  method NextPowerOf2(n: nat) returns (r: nat)
    requires n < TWO_32
    ensures n <= TWO_31 ==> IsNextPow2(n, r) && r <= TWO_31
    ensures n > TWO_31 ==> r == 0
  {
    if n <= 1 { return 1; }
    var v := n - 1;
    v := BitOr(v, Shr(v, 1));
    ghost var v1 := v;
    v := BitOr(v, Shr(v, 2));
    ghost var v2 := v;
    v := BitOr(v, Shr(v, 4));
    ghost var v4 := v;
    v := BitOr(v, Shr(v, 8));
    ghost var v8 := v;
    v := BitOr(v, Shr(v, 16));
    SmearSteps(n - 1, v1, v2, v4, v8, v);
    SmearedWord(n, v);
    return U32(v + 1);
  }

  lemma SmearedWord(n: nat, v: nat)
    requires 1 < n < TWO_32 && v == Pow2(Len(n - 1)) - 1
    ensures n <= TWO_31 ==> IsNextPow2(n, U32(v + 1)) && U32(v + 1) <= TWO_31
    ensures n > TWO_31 ==> U32(v + 1) == 0
  {
    hide IsPow2, Len, Pow2, U32, IsNextPow2;
    var len := Len(n - 1);
    LenFits(n - 1);
    SmearedIsNext(n, len);
    Pow31And32();
    if n <= TWO_31 {
      Pow2Mono(len, 31);
      SmallWord(v + 1);
    } else {
      assert len == 32;
      FullWord(v + 1);
    }
  }

  lemma FullWord(x: nat)
    requires x == TWO_32
    ensures U32(x) == 0
  {
  }

  lemma LenFits(v: nat)
    requires 0 < v < TWO_32
    ensures Len(v) <= 32 && (v < TWO_31 <==> Len(v) <= 31)
  {
    hide IsPow2, Len, Pow2;
    LenBounds(v);
    Pow31And32();
    if Len(v) > 32 { Pow2Mono(32, Len(v) - 1); }
    if Len(v) <= 31 { Pow2Mono(Len(v), 31); } else { Pow2Mono(31, Len(v) - 1); }
  }

  lemma Pow2Mono(a: nat, b: nat)
    requires a <= b
    ensures Pow2(a) <= Pow2(b)
  {
    if a < b { Pow2Strict(a, b); }
  }

  lemma SmearedIsNext(n: nat, len: nat)
    requires n > 1 && len == Len(n - 1)
    ensures IsNextPow2(n, Pow2(len))
  {
    LenBounds(n - 1);
    forall x | IsPow2(x) && n <= x ensures Pow2(len) <= x {
      var e := LogOf(x);
      if e < len { Pow2Mono(e, len - 1); } else { Pow2Mono(len, e); }
    }
  }

  // ------------------------------------------------------------------ ring dimension

  datatype SecurityLevel = TOY | STD128 | STD192 | STD256

  function MinRingDimForSecurity(level: SecurityLevel): (r: nat)
    ensures 1024 <= r <= 32768
  {
    match level
    case TOY => 1024
    case STD128 => 8192
    case STD192 => 16384
    case STD256 => 32768
  }

  lemma MinRingIsPow2(level: SecurityLevel)
    ensures IsPow2(MinRingDimForSecurity(level))
  {
    hide IsPow2;
    assert Pow2(5) == 32;
    Pow2Add(5, 5);
    assert Pow2(11) == 2048 && Pow2(12) == 4096 && Pow2(13) == 8192;
    assert Pow2(14) == 16384 && Pow2(15) == 32768;
  }

  /**
   The derived ring dimension of a feature dimension given as a 32-bit word: the least
   power of two covering it and the security minimum, or the minimum alone when the
   smearing has wrapped to 0.
   */
  ghost predicate IsRingDim(featureDim: nat, level: SecurityLevel, r: nat) {
    if featureDim <= TWO_31 then IsNextPow2(AtLeast(featureDim, level), r) && r <= TWO_31
    else r == MinRingDimForSecurity(level)
  }

  function AtLeast(featureDim: nat, level: SecurityLevel): nat {
    if featureDim < MinRingDimForSecurity(level) then MinRingDimForSecurity(level) else featureDim
  }

  method RingDimFor(featureDim: nat, level: SecurityLevel) returns (ringDim: nat)
    requires featureDim < TWO_32
    ensures IsRingDim(featureDim, level, ringDim)
    ensures IsPow2(ringDim) && MinRingDimForSecurity(level) <= ringDim <= TWO_31
    ensures featureDim <= 1024 ==>
      ringDim == match level case TOY => 1024 case STD128 => 8192 case STD192 => 16384 case STD256 => 32768
  {
    var minRing := MinRingDimForSecurity(level);
    MinRingIsPow2(level);
    ringDim := NextPowerOf2(featureDim);
    ghost var next := ringDim;
    if ringDim < minRing {
      ringDim := minRing;
    }
    RaisedRing(featureDim, level, next, ringDim);
  }

  lemma RaisedRing(featureDim: nat, level: SecurityLevel, next: nat, ringDim: nat)
    requires IsPow2(MinRingDimForSecurity(level))
    requires featureDim <= TWO_31 ==> IsNextPow2(featureDim, next) && next <= TWO_31
    requires featureDim <= TWO_31
      ==> ringDim == if next < MinRingDimForSecurity(level) then MinRingDimForSecurity(level) else next
    requires featureDim > TWO_31 ==> ringDim == MinRingDimForSecurity(level)
    ensures IsRingDim(featureDim, level, ringDim)
  {
  }

  lemma RingCovers(featureDim: nat, level: SecurityLevel, r: nat)
    requires IsRingDim(featureDim, level, r)
    ensures IsPow2(r) && MinRingDimForSecurity(level) <= r <= TWO_31
    ensures featureDim <= TWO_31 ==> featureDim <= r
    ensures r > TWO_30 <==> TWO_30 < featureDim <= TWO_31
  {
    hide IsPow2, Pow2;
    MinRingIsPow2(level);
    Pow31And32();
    if featureDim <= TWO_30 {
      assert AtLeast(featureDim, level) <= TWO_30;
    }
  }

  /**
   The 32-bit derivation works exactly up to 2^30 slots: for every true product, the ring
   dimension derived from its low word covers it and has a representable double if and
   only if the product is at most 2^30.
   */
  lemma DerivationRange(product: nat, level: SecurityLevel, ringDim: nat)
    requires IsRingDim(U32(product), level, ringDim)
    ensures product <= ringDim && U32(2 * ringDim) == 2 * ringDim <==> product <= TWO_30
    ensures U32(2 * ringDim) == 0 <==> TWO_30 < U32(product) <= TWO_31
  {
    RingCovers(U32(product), level, ringDim);
    DoubledRing(ringDim);
    if product <= TWO_30 { SmallWord(product); }
  }

  lemma SmallWord(x: nat)
    requires x < TWO_32
    ensures U32(x) == x
  {
  }

  /** Doubling a power of two of at most 2^31 fits a word up to 2^30 and wraps to 0 at 2^31. */
  lemma DoubledRing(ringDim: nat)
    requires IsPow2(ringDim) && ringDim <= TWO_31
    ensures ringDim <= TWO_30 ==> U32(2 * ringDim) == 2 * ringDim
    ensures ringDim > TWO_30 ==> ringDim == TWO_31 && U32(2 * ringDim) == 0
  {
    hide IsPow2, Pow2;
    Pow31And32();
    if ringDim > TWO_30 { Pow2Gap(TWO_30, ringDim); }
  }

  // ------------------------------------------------------------------ primality

  ghost predicate NoDivisorBelow(n: nat, i: nat) {
    forall d :: 2 <= d < i ==> n % d != 0
  }

  ghost predicate Prime(n: nat) {
    n >= 2 && NoDivisorBelow(n, n)
  }

  /** A number that c does not divide has no divisor m * c. */
  lemma NotDivisibleBy(n: nat, c: nat, m: nat)
    requires c > 0 && m > 0 && n % c != 0
    ensures m * c > 0 && n % (m * c) != 0
  {
    MulMono(1, m, c);
    if n % (m * c) == 0 {
      var a := n / (m * c);
      assert n == a * (m * c);
      Reassociate(a, m, c);
      ModIs(n, c, a * m, 0);
    }
  }

  lemma Reassociate(a: int, m: int, c: int)
    ensures a * (m * c) == (a * m) * c
  {
  }

  lemma SquareBelowProduct(i: nat, c: nat, d: nat)
    requires i <= c && i <= d
    ensures i * i <= c * d
  {
    MulMono(i, c, i);
    MulMono(i, d, c);
  }

  /** Past the square root, a divisor would have a smaller cofactor. */
  lemma NoLargeDivisor(n: nat, i: nat, d: nat)
    requires n >= 2 && i >= 2 && i * i > n && i <= d < n && NoDivisorBelow(n, i)
    ensures n % d != 0
  {
    if n % d == 0 {
      var c := n / d;
      assert n == c * d;
      if c <= 1 {
        MulMono(c, 1, d);
      } else if c >= i {
        SquareBelowProduct(i, c, d);
      } else {
        ModIs(n, c, d, 0);
      }
    }
  }

  /** Six consecutive candidates from i = 6k + 5 need two divisions. */
  lemma WheelTurn(n: nat, k: nat, i: nat)
    requires i == 6 * k + 5 && n % 2 != 0 && n % 3 != 0 && n % i != 0 && n % (i + 2) != 0 && NoDivisorBelow(n, i)
    ensures NoDivisorBelow(n, i + 6)
  {
    NotDivisibleBy(n, 2, 3 * k + 3);
    NotDivisibleBy(n, 2, 3 * k + 4);
    NotDivisibleBy(n, 3, 2 * k + 3);
    NotDivisibleBy(n, 2, 3 * k + 5);
    forall d | 2 <= d < i + 6 ensures n % d != 0 {
      assert d < i || d == i || d == i + 1 || d == i + 2 || d == i + 3 || d == i + 4 || d == i + 5;
    }
  }

  lemma NoDivisorBelow5(n: nat)
    requires n % 2 != 0 && n % 3 != 0
    ensures NoDivisorBelow(n, 5)
  {
    NotDivisibleBy(n, 2, 2);
  }

  lemma Composite(n: nat, d: nat)
    requires 2 <= d < n && n % d == 0
    ensures !Prime(n)
  {
  }

  lemma PrimeByTrial(n: nat, i: nat)
    requires n >= 2 && i >= 2 && i * i > n && NoDivisorBelow(n, i)
    ensures Prime(n)
  {
    forall d | 2 <= d < n ensures n % d != 0 {
      if d >= i { NoLargeDivisor(n, i, d); }
    }
  }

  method IsPrime(n: nat) returns (prime: bool)
    ensures prime <==> Prime(n)
  {
    if n < 2 { return false; }
    if n < 4 { return true; }
    if n % 2 == 0 {
      Composite(n, 2);
      return false;
    }
    if n % 3 == 0 {
      Composite(n, 3);
      return false;
    }
    var i := 5;
    ghost var k := 0;
    NoDivisorBelow5(n);
    while i * i <= n
      invariant k >= 0 && i == 6 * k + 5 && NoDivisorBelow(n, i)
      decreases n - i
    {
      MulMono(5, i, i);
      if n % i == 0 {
        Composite(n, i);
        return false;
      }
      if n % (i + 2) == 0 {
        Composite(n, i + 2);
        return false;
      }
      WheelTurn(n, k, i);
      i, k := i + 6, k + 1;
    }
    PrimeByTrial(n, i);
    return true;
  }

  /** The remaining divisions of the wheel from i on. */
  predicate PassesTrial(n: nat, i: nat)
    requires i > 0
    decreases n + 1 - i
  {
    i > n || i * i > n || (n % i != 0 && n % (i + 2) != 0 && PassesTrial(n, i + 6))
  }

  lemma {:induction false} PassedIsPrime(n: nat, k: nat, i: nat)
    requires n >= 2 && i == 6 * k + 5 && n % 2 != 0 && n % 3 != 0 && NoDivisorBelow(n, i) && PassesTrial(n, i)
    ensures Prime(n)
    decreases n + 1 - i
  {
    if i > n {
    } else if i * i > n {
      PrimeByTrial(n, i);
    } else {
      WheelTurn(n, k, i);
      PassedIsPrime(n, k + 1, i + 6);
    }
  }

  lemma FermatPrime(n: nat)
    requires n == 65537
    ensures Prime(n)
  {
    NoDivisorBelow5(n);
    assert PassesTrial(65537, 245);
    assert PassesTrial(65537, 221);
    assert PassesTrial(65537, 197);
    assert PassesTrial(65537, 173);
    assert PassesTrial(65537, 149);
    assert PassesTrial(65537, 125);
    assert PassesTrial(65537, 101);
    assert PassesTrial(65537, 77);
    assert PassesTrial(65537, 53);
    assert PassesTrial(65537, 29);
    assert PassesTrial(65537, 5);
    PassedIsPrime(n, 0, 5);
  }

  // ------------------------------------------------------------------ plaintext modulus

  /** p is the smallest prime above minVal among 1 + modulus * t, t >= 1. */
  ghost predicate LeastModulus(minVal: nat, modulus: nat, p: nat) {
    && Prime(p) && p > minVal
    && (exists t: nat :: t >= 1 && p == 1 + modulus * t)
    && forall t: nat :: 1 + modulus * t > minVal && Prime(1 + modulus * t) ==> p <= 1 + modulus * t
  }

  /**
   Smallest prime p > minVal with p = 1 (mod modulus), or an error after 10^6 candidates.
   With modulus 0 the source's first loop never ends, so modulus > 0 is needed.
   */
  method FindPlaintextModulus(minVal: nat, modulus: nat) returns (r: Result<nat>)
    requires modulus > 0
    ensures r.Ok? ==> LeastModulus(minVal, modulus, r.value)
    ensures r.Err? ==> forall t: nat :: t < 1000000 && 1 + modulus * t > minVal ==> !Prime(1 + modulus * t)
  {
    var t := 1;
    while 1 + modulus * t <= minVal
      invariant t >= 1
      invariant forall s: nat :: s < t ==> 1 + modulus * s <= minVal || s == 0
      decreases minVal + 1 - modulus * t
    {
      assert modulus * (t + 1) == modulus * t + modulus;
      t := t + 1;
    }
    ghost var first := t;
    while t < 1000000
      invariant t >= first
      invariant forall s: nat :: s < t && 1 + modulus * s > minVal ==> !Prime(1 + modulus * s)
    {
      var p := 1 + modulus * t;
      MonoCandidates(modulus, first, t);
      var prime := IsPrime(p);
      if prime {
        forall s: nat | 1 + modulus * s > minVal && Prime(1 + modulus * s) ensures p <= 1 + modulus * s {
          MonoCandidates(modulus, t, if s < t then t else s);
        }
        return Ok(p);
      }
      t := t + 1;
    }
    return Err(RuntimeError("Failed to find suitable plaintext modulus"));
  }

  lemma MonoCandidates(modulus: nat, s: nat, t: nat)
    requires s <= t
    ensures 1 + modulus * s <= 1 + modulus * t
  {
    MulMono(s, t, modulus);
  }

  /** Any p = 1 (mod 2N) above 1 leaves room for counts up to N below p/2. */
  lemma RoomBelowHalf(n: nat, p: nat, count: nat)
    requires n > 0 && p > 1 && (p - 1) % (2 * n) == 0 && count <= n
    ensures 2 * count < p
  {
    var q := (p - 1) / (2 * n);
    assert p - 1 == q * (2 * n);
    if q >= 1 { MulMono(1, q, 2 * n); }
  }

  lemma LeastModulusDivides(minVal: nat, modulus: nat, p: nat)
    requires modulus > 0 && LeastModulus(minVal, modulus, p)
    ensures p > 1 && (p - 1) % modulus == 0
  {
    var t: nat :| t >= 1 && p == 1 + modulus * t;
    hide Prime, LeastModulus;
    MulMono(1, t, modulus);
    ModIs(p - 1, modulus, t, 0);
  }

  // ------------------------------------------------------------------ beyond the range

  /** The modulus search has a candidate to return. */
  ghost predicate SearchSucceeds(minVal: nat, modulus: nat) {
    exists t: nat :: t < 1000000 && 1 + modulus * t > minVal && Prime(1 + modulus * t)
  }

  /**
   Past the range the derivation can succeed with a ring that holds nothing of the
   features: at k = m = 65536 the product wraps to 0, the ring dimension is the security
   minimum, and the search finds 65537.
   */
  lemma WrappedProductAccepted(product: nat, level: SecurityLevel, ringDim: nat)
    requires product == 65536 * 65536 && IsRingDim(U32(product), level, ringDim)
    ensures U32(product) == 0 && ringDim == MinRingDimForSecurity(level) && ringDim < product
    ensures SearchSucceeds(65536, U32(2 * ringDim)) && LeastModulus(65536, U32(2 * ringDim), 65537)
  {
    hide IsPow2, Prime, LeastModulus, SearchSucceeds;
    MinRingIsPow2(level);
    assert U32(product) == 0;
    RingAtZero(0, level, ringDim);
    DoubledRing(ringDim);
    FermatPrime(65537);
    FermatModulus(2 * ringDim, match level case TOY => 32 case STD128 => 4 case STD192 => 2 case STD256 => 1);
  }

  lemma RingAtZero(featureDim: nat, level: SecurityLevel, ringDim: nat)
    requires featureDim == 0 && IsRingDim(featureDim, level, ringDim) && IsPow2(MinRingDimForSecurity(level))
    ensures ringDim == MinRingDimForSecurity(level)
  {
  }

  lemma FermatModulus(modulus: nat, t: nat)
    requires modulus * t == 65536 && 1 <= t < 1000000 && Prime(65537)
    ensures SearchSucceeds(65536, modulus) && LeastModulus(65536, modulus, 65537)
  {
    assert 1 + modulus * t == 65537;
  }
}
