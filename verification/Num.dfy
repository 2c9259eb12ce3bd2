/** Arithmetic shared by the other modules: powers of two, residues, signs, ranges. */
module Num {

  // ---------------------------------------------------------------- powers of two

  predicate IsPow2(n: nat) {
    n == 1 || (n > 1 && n % 2 == 0 && IsPow2(n / 2))
  }

  function Pow2(e: nat): (r: nat)
    ensures r >= 1
    ensures IsPow2(r)
  {
    if e == 0 then 1 else 2 * Pow2(e - 1)
  }

  /** A power of two divides every larger one; q is the quotient. */
  lemma {:induction false} Pow2Divides(a: nat, b: nat) returns (q: nat)
    requires IsPow2(a) && IsPow2(b) && a <= b
    ensures b == q * a && IsPow2(q)
  {
    if a == 1 {
      q := b;
    } else {
      q := Pow2Divides(a / 2, b / 2);
      Regroup(q, a / 2);
    }
  }

  lemma Regroup(q: int, h: int)
    ensures 2 * (q * h) == q * (2 * h)
  {
  }

  /** Distinct powers of two are at least a factor two apart. */
  lemma {:induction false} Pow2Gap(a: nat, b: nat)
    requires IsPow2(a) && IsPow2(b) && a < b
    ensures 2 * a <= b
  {
    if a > 1 {
      Pow2Gap(a / 2, b / 2);
    }
  }

  // ---------------------------------------------------------------- residues

  lemma MulMono(a: int, b: int, p: int)
    requires a <= b && p >= 0
    ensures a * p <= b * p
  {
    assert (b - a) * p >= 0;
  }

  /** Euclidean division is unique. */
  lemma ModIs(x: int, p: int, q: int, r: int)
    requires p > 0 && 0 <= r < p && x == q * p + r
    ensures x % p == r && x / p == q
  {
    var q' := x / p;
    assert x == q' * p + x % p;
    assert (q - q') * p == x % p - r;
    assert (q' - q) * p == r - x % p;
    if q > q' {
      MulMono(1, q - q', p);
    } else if q < q' {
      MulMono(1, q' - q, p);
    }
  }

  lemma ModSelf(x: int, p: int)
    requires p > 0
    ensures (x % p) % p == x % p
  {
    ModIs(x % p, p, 0, x % p);
  }

  lemma ModAdd(x: int, y: int, p: int)
    requires p > 0
    ensures (x % p + y % p) % p == (x + y) % p
    ensures (x % p + y) % p == (x + y) % p
    ensures (x + y % p) % p == (x + y) % p
  {
    var r := (x + y) % p;
    var q := (x + y) / p;
    assert x + y == q * p + r;
    assert x == (x / p) * p + x % p && y == (y / p) * p + y % p;
    assert x % p + y % p == (q - x / p - y / p) * p + r;
    ModIs(x % p + y % p, p, q - x / p - y / p, r);
    assert x % p + y == (q - x / p) * p + r;
    ModIs(x % p + y, p, q - x / p, r);
    assert x + y % p == (q - y / p) * p + r;
    ModIs(x + y % p, p, q - y / p, r);
  }

  lemma ModMul(x: int, y: int, p: int)
    requires p > 0
    ensures ((x % p) * (y % p)) % p == (x * y) % p
    ensures ((x % p) * y) % p == (x * y) % p
    ensures (x * (y % p)) % p == (x * y) % p
  {
    ModMulLeft(x, y, p);
    ModMulLeft(y, x, p);
    ModMulLeft(x, y % p, p);
    assert (y % p) * x == x * (y % p) && y * x == x * y;
  }

  lemma ModMulLeft(x: int, y: int, p: int)
    requires p > 0
    ensures ((x % p) * y) % p == (x * y) % p
  {
    var r := (x * y) % p;
    var q := (x * y) / p;
    assert x * y == q * p + r;
    var k := x / p;
    assert x == k * p + x % p;
    assert x * y == (k * p) * y + (x % p) * y;
    assert (k * p) * y == (k * y) * p;
    assert (x % p) * y == (q - k * y) * p + r;
    ModIs((x % p) * y, p, q - k * y, r);
  }

  /** Congruent factors give congruent products. */
  lemma MulCongruent(a: int, u: int, v: int, p: int)
    requires p > 0 && u % p == v % p
    ensures (a * u) % p == (a * v) % p && (u * a) % p == (v * a) % p
  {
    ModMul(a, u, p);
    ModMul(a, v, p);
    assert u * a == a * u && v * a == a * v;
  }

  // ---------------------------------------------------------------- signs of real products

  lemma RealProduct(r: real, s: real, t: real)
    requires r >= 0.0 && s >= 0.0 && t == r * s
    ensures t >= 0.0
  {
  }

  lemma RealPositive(r: real, s: real, t: real)
    requires r > 0.0 && s > 0.0 && t == r * s
    ensures t > 0.0
  {
  }

  // ---------------------------------------------------------------- lists as sets

  /** lo, lo + 1, ..., hi - 1 */
  function Range(lo: nat, hi: nat): (s: seq<nat>)
    requires lo <= hi
    ensures |s| == hi - lo
  {
    seq(hi - lo, i requires 0 <= i < hi - lo => lo + i)
  }

  ghost function Elems(s: seq<nat>): set<nat> {
    set e | e in s
  }

  lemma {:induction false} ListAtLeastSet(s: seq<nat>)
    ensures |Elems(s)| <= |s|
  {
    if s != [] {
      var last := |s| - 1;
      ListAtLeastSet(s[..last]);
      assert Elems(s) == Elems(s[..last]) + {s[last]};
    } else {
      assert Elems(s) == {};
    }
  }
}
