/**
 The doubling loop shared by every circuit:

   for (step = base; step < limit; step *= 2) result = Add(result, Rotate(result, step))

 `RotateAndAdd` is that loop as a function; `Doubling` proves that it leaves in
 every slot the sum of the slots reached by the turns 0, base, 2*base, ... < limit.
 */
module RotateSum {
  import opened Num
  import opened Bfv

  function RotateAndAdd(ctx: Context, ct: Cipher, step: nat, limit: nat): (r: Cipher)
    requires ctx.Valid() && ctx.Holds(ct) && IsPow2(step) && limit <= ctx.n
    ensures ctx.Holds(r) && r.depth == ct.depth
    decreases limit - step
  {
    if step >= limit then ct
    else RotateAndAdd(ctx, ctx.Add(ct, ctx.Rotate(ct, step)), 2 * step, limit)
  }

  lemma RotateStep(ctx: Context, ct: Cipher, step: nat, limit: nat)
    requires ctx.Valid() && ctx.Holds(ct) && IsPow2(step) && limit <= ctx.n
    ensures step > 0 && IsPow2(step * 2)
    ensures step >= limit ==> RotateAndAdd(ctx, ct, step, limit) == ct
    ensures step < limit ==> var next := ctx.Add(ct, ctx.Rotate(ct, step));
              ctx.Holds(next) && RotateAndAdd(ctx, ct, step, limit) == RotateAndAdd(ctx, next, step * 2, limit)
  {
    hide Source;
  }

  /** The source's loop, reassigning the accumulator. */
  method RotateAndSum(ctx: Context, ct: Cipher, base: nat, limit: nat) returns (result: Cipher)
    requires ctx.Valid() && ctx.Holds(ct) && IsPow2(base) && limit <= ctx.n
    ensures result == RotateAndAdd(ctx, ct, base, limit)
    ensures ctx.Holds(result) && result.depth == ct.depth
  {
    hide Source, RotateAndAdd, IsPow2;
    result := ct;
    var step := base;
    while step < limit
      invariant IsPow2(step) && ctx.Holds(result)
      invariant RotateAndAdd(ctx, result, step, limit) == RotateAndAdd(ctx, ct, base, limit)
      decreases limit - step
    {
      RotateStep(ctx, result, step, limit);
      var rotated := ctx.Rotate(result, step);
      result := ctx.Add(result, rotated);
      step := step * 2;
    }
    RotateStep(ctx, result, step, limit);
  }

  /** Sum of v over the slots that the turns 0, base, 2*base, ... < reach bring to slot j. */
  ghost function Turned(ctx: Context, v: seq<nat>, j: nat, base: nat, reach: nat): nat
    requires ctx.Valid() && |v| == ctx.n && j < ctx.n && base > 0 && reach <= ctx.n
  {
    if reach < base then 0
    else Turned(ctx, v, j, base, reach - base) + v[Source(ctx.layout, ctx.n, reach - base, j)]
  }

  /** v[0] + v[base] + v[2*base] + ..., stopping before index reach. */
  ghost function SumEvery(v: seq<nat>, base: nat, reach: nat): nat
    requires base > 0 && reach <= |v|
  {
    if reach < base then 0 else SumEvery(v, base, reach - base) + v[reach - base]
  }

  ghost predicate Multiple(base: nat, x: nat)
    requires base > 0
  {
    x == 0 || (x >= base && Multiple(base, x - base))
  }

  lemma {:induction false} MultipleSum(base: nat, x: nat, y: nat)
    requires base > 0 && Multiple(base, x) && Multiple(base, y)
    ensures Multiple(base, x + y)
  {
    if y > 0 { MultipleSum(base, x, y - base); }
  }

  /** Every power of two from base on is a multiple of base. */
  lemma {:induction false} Pow2Multiple(base: nat, x: nat)
    requires IsPow2(base) && IsPow2(x) && base <= x
    ensures Multiple(base, x)
  {
    if base == x {
      assert Multiple(base, 0);
    } else {
      Pow2Gap(base, x);
      Pow2Multiple(base, x / 2);
      MultipleSum(base, x / 2, x / 2);
    }
  }

  /** Two adjacent windows of turns join into one. */
  lemma {:induction false} JoinWindows(ctx: Context, v: seq<nat>, j: nat, base: nat, step: nat, r: nat)
    requires ctx.Valid() && |v| == ctx.n && j < ctx.n && base > 0
    requires ctx.HasRotationKey(step) && r <= step && step + r <= ctx.n && Multiple(base, r)
    ensures Turned(ctx, v, j, base, step + r)
         == Turned(ctx, v, j, base, step) + Turned(ctx, v, Source(ctx.layout, ctx.n, step, j), base, r)
  {
    hide Source;
    if r > 0 {
      JoinWindows(ctx, v, j, base, step, r - base);
      ctx.SourceCompose(step, r - base, j);
    }
  }

  /** Every slot of ct holds the window sum of v that reaches `reach`. */
  ghost predicate HoldsWindows(ctx: Context, v: seq<nat>, ct: Cipher, base: nat, reach: nat)
    requires ctx.Valid() && ctx.Holds(ct) && |v| == ctx.n && base > 0 && reach <= ctx.n
  {
    forall j :: 0 <= j < ctx.n ==> ct.slots[j] == Turned(ctx, v, j, base, reach) % ctx.p
  }

  /** One iteration at `step` turns the windows reaching step into the windows reaching 2 * step. */
  lemma DoubleWindows(ctx: Context, v: seq<nat>, ct: Cipher, base: nat, step: nat)
    requires ctx.Valid() && ctx.Holds(ct) && |v| == ctx.n
    requires IsPow2(base) && base <= step && ctx.HasRotationKey(step) && 2 * step <= ctx.n
    requires HoldsWindows(ctx, v, ct, base, step)
    ensures HoldsWindows(ctx, v, ctx.Add(ct, ctx.Rotate(ct, step)), base, 2 * step)
  {
    hide Source, Turned;
    var sum := ctx.Add(ct, ctx.Rotate(ct, step));
    var reach := 2 * step;
    forall j | 0 <= j < ctx.n ensures sum.slots[j] == Turned(ctx, v, j, base, reach) % ctx.p {
      DoubledSlot(ctx, v, ct, base, step, reach, j, Source(ctx.layout, ctx.n, step, j));
    }
  }

  /** One slot of the iteration: its own window and the window of the slot turned into it. */
  lemma DoubledSlot(ctx: Context, v: seq<nat>, ct: Cipher, base: nat, step: nat, reach: nat, j: nat, i: nat)
    requires ctx.Valid() && ctx.Holds(ct) && |v| == ctx.n
    requires IsPow2(base) && base <= step && ctx.HasRotationKey(step) && reach == 2 * step && reach <= ctx.n
    requires HoldsWindows(ctx, v, ct, base, step) && j < ctx.n && i == Source(ctx.layout, ctx.n, step, j)
    ensures ctx.Add(ct, ctx.Rotate(ct, step)).slots[j] == Turned(ctx, v, j, base, reach) % ctx.p
  {
    hide Source, Turned, Multiple;
    Pow2Multiple(base, step);
    JoinWindows(ctx, v, j, base, step, step);
    assert step + step == reach;
    var a, b := Turned(ctx, v, j, base, step), Turned(ctx, v, i, base, step);
    assert ct.slots[j] == a % ctx.p && ct.slots[i] == b % ctx.p;
    ModAdd(a, b, ctx.p);
  }

  lemma {:induction false} DoublingFrom(ctx: Context, v: seq<nat>, ct: Cipher, base: nat, step: nat, limit: nat)
    requires ctx.Valid() && ctx.Holds(ct) && |v| == ctx.n
    requires IsPow2(base) && IsPow2(step) && IsPow2(limit) && base <= step <= limit <= ctx.n
    requires HoldsWindows(ctx, v, ct, base, step)
    ensures HoldsWindows(ctx, v, RotateAndAdd(ctx, ct, step, limit), base, limit)
    decreases limit - step
  {
    if step < limit {
      Pow2Gap(step, limit);
      DoubleWindows(ctx, v, ct, base, step);
      DoublingFrom(ctx, v, ctx.Add(ct, ctx.Rotate(ct, step)), base, 2 * step, limit);
    }
  }

  lemma OwnWindow(ctx: Context, v: seq<nat>, j: nat, base: nat)
    requires ctx.Valid() && |v| == ctx.n && j < ctx.n && 0 < base <= ctx.n
    ensures Turned(ctx, v, j, base, base) == v[j]
  {
    assert Turned(ctx, v, j, base, base) == Turned(ctx, v, j, base, 0) + v[Source(ctx.layout, ctx.n, 0, j)];
  }

  /** The doubling loop from `base` to `limit` sums the window reaching limit into every slot. */
  lemma Doubling(ctx: Context, ct: Cipher, base: nat, limit: nat)
    requires ctx.Valid() && ctx.Holds(ct) && IsPow2(base) && IsPow2(limit) && base <= limit <= ctx.n
    ensures HoldsWindows(ctx, ct.slots, RotateAndAdd(ctx, ct, base, limit), base, limit)
  {
    hide RotateAndAdd, Turned, Source;
    forall j | 0 <= j < ctx.n
      ensures ct.slots[j] == Turned(ctx, ct.slots, j, base, base) % ctx.p
    {
      OwnWindow(ctx, ct.slots, j, base);
      ModIs(ct.slots[j], ctx.p, 0, ct.slots[j]);
    }
    DoublingFrom(ctx, ct.slots, ct, base, base, limit);
  }

  /** Slot 0 after the loop is a plain strided sum, whichever layout the library uses. */
  lemma {:induction false} FromZero(ctx: Context, v: seq<nat>, base: nat, reach: nat)
    requires ctx.Valid() && |v| == ctx.n && base > 0 && reach <= ctx.n
    ensures Turned(ctx, v, 0, base, reach) == SumEvery(v, base, reach)
  {
    if reach >= base {
      FromZero(ctx, v, base, reach - base);
      ctx.SourceFromZero(reach - base);
    }
  }

  /** At the head of an aligned block of b slots the window of unit turns is the block itself. */
  lemma {:induction false} FromBlockHead(ctx: Context, v: seq<nat>, b: nat, i: nat, reach: nat)
    requires ctx.Valid() && |v| == ctx.n && IsPow2(b) && b <= ctx.n && i * b < ctx.n && reach <= b
    ensures i * b + reach <= ctx.n
    ensures Turned(ctx, v, i * b, 1, reach) == SumEvery(v[i * b..i * b + reach], 1, reach)
  {
    hide IsPow2, Source, Turned, SumEvery;
    var at := i * b;
    BlockFits(b, ctx.n, i);
    MulNext(i, b);
    if reach > 0 {
      FromBlockHead(ctx, v, b, i, reach - 1);
      ctx.SourceInBlock(b, reach - 1, i);
      UnitWindow(ctx, v, at, reach);
    } else {
      NoWindow(ctx, v, at);
    }
  }

  lemma MulNext(c: nat, n: nat)
    ensures (c + 1) * n == c * n + n
  {
  }

  lemma NoWindow(ctx: Context, v: seq<nat>, at: nat)
    requires ctx.Valid() && |v| == ctx.n && at < ctx.n
    ensures Turned(ctx, v, at, 1, 0) == SumEvery(v[at..at], 1, 0) == 0
  {
  }

  /** One more unit turn out of an aligned slot reads the next slot. */
  lemma UnitWindow(ctx: Context, v: seq<nat>, at: nat, reach: nat)
    requires ctx.Valid() && |v| == ctx.n && 0 < reach && at + reach <= ctx.n
    requires Source(ctx.layout, ctx.n, reach - 1, at) == at + reach - 1
    requires Turned(ctx, v, at, 1, reach - 1) == SumEvery(v[at..at + reach - 1], 1, reach - 1)
    ensures Turned(ctx, v, at, 1, reach) == SumEvery(v[at..at + reach], 1, reach)
  {
    hide IsPow2, Source;
    var longer, shorter := v[at..at + reach], v[at..at + reach - 1];
    assert longer[..reach - 1] == shorter;
    SumEveryPrefix(longer, shorter, reach - 1);
    assert longer[reach - 1] == v[at + reach - 1];
  }

  lemma {:induction false} SumEveryPrefix(v: seq<nat>, w: seq<nat>, reach: nat)
    requires w <= v && reach <= |w|
    ensures SumEvery(v, 1, reach) == SumEvery(w, 1, reach)
  {
    if reach > 0 { SumEveryPrefix(v, w, reach - 1); }
  }
}
