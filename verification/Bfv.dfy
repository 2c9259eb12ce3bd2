/**
 The packed-plaintext view of the encryption context (`src/fhe/bfv_context.cpp`).

 A ciphertext is its decrypted slot vector together with the number of
 ciphertext-ciphertext multiplications on its longest path.  Encryption noise,
 keys and flooding are not modelled: they do not change the slots.

 The library's rotation is outside the repository.  Both slot layouts in use
 for packed BFV are modelled, and every circuit theorem holds for either:
 one ring of n slots, or two rows of n/2 slots where a rotation below n/2 turns
 both rows and the rotation by n/2 exchanges them.
 */
module Bfv {
  import opened Num

  datatype Layout = Ring | TwoRows

  datatype Cipher = Cipher(slots: seq<nat>, depth: nat)

  function Max(a: nat, b: nat): nat { if a < b then b else a }

  /** The slot whose content a rotation by t < n moves into slot j. */
  function Source(layout: Layout, n: nat, t: nat, j: nat): (r: nat)
    requires IsPow2(n) && t < n && j < n
    ensures r < n
  {
    match layout
    case Ring => if j + t < n then j + t else j + t - n
    case TwoRows =>
      if n == 1 then 0 else
        var half := n / 2;
        var row := if j < half then 0 else half;
        var other := half - row;
        var turn := if t < half then t else t - half;
        var col := j - row + turn;
        (if t < half then row else other) + if col < half then col else col - half
  }

  datatype Context = Context(n: nat, p: nat, layout: Layout) {

    /** Power-of-two ring, plaintext modulus at least two. */
    predicate Valid() {
      IsPow2(n) && p >= 2
    }

    predicate Holds(ct: Cipher) {
      |ct.slots| == n && forall j :: 0 <= j < n ==> ct.slots[j] < p
    }

    /** Encrypt packs the values, zero-padded, as residues. */
    function Encrypt(values: seq<int>): (ct: Cipher)
      requires Valid() && |values| <= n
      ensures Holds(ct) && ct.depth == 0
      ensures forall j :: 0 <= j < |values| ==> ct.slots[j] == values[j] % p
      ensures forall j :: |values| <= j < n ==> ct.slots[j] == 0
    {
      Cipher(seq(n, j requires 0 <= j < n => if j < |values| then values[j] % p else 0), 0)
    }

    /** Decrypt returns centred representatives. */
    function Decrypt(ct: Cipher): (values: seq<int>)
      requires Valid() && Holds(ct)
      ensures |values| == n
      ensures forall j :: 0 <= j < n ==> values[j] % p == ct.slots[j]
      ensures forall j :: 0 <= j < n ==> -(p as int) < 2 * values[j] <= p
    {
      var v := seq(n, j requires 0 <= j < n => if 2 * ct.slots[j] <= p then ct.slots[j] else ct.slots[j] - p);
      CentredResidues(ct, v);
      v
    }

    lemma CentredResidues(ct: Cipher, v: seq<int>)
      requires Valid() && Holds(ct) && |v| == n
      requires forall j :: 0 <= j < n ==> v[j] == if 2 * ct.slots[j] <= p then ct.slots[j] else ct.slots[j] - p
      ensures forall j :: 0 <= j < n ==> v[j] % p == ct.slots[j]
    {
      forall j | 0 <= j < n ensures v[j] % p == ct.slots[j] {
        ModIs(v[j], p, if 2 * ct.slots[j] <= p then 0 else -1, ct.slots[j]);
      }
    }

    function Add(a: Cipher, b: Cipher): (ct: Cipher)
      requires Valid() && Holds(a) && Holds(b)
      ensures Holds(ct)
    {
      Cipher(seq(n, j requires 0 <= j < n => (a.slots[j] + b.slots[j]) % p), Max(a.depth, b.depth))
    }

    function Multiply(a: Cipher, b: Cipher): (ct: Cipher)
      requires Valid() && Holds(a) && Holds(b)
      ensures Holds(ct)
    {
      Cipher(seq(n, j requires 0 <= j < n => (a.slots[j] * b.slots[j]) % p), Max(a.depth, b.depth) + 1)
    }

    /** Rotation keys exist for the powers of two below the ring dimension only. */
    predicate HasRotationKey(steps: nat) {
      IsPow2(steps) && steps < n
    }

    function Rotate(a: Cipher, steps: nat): (ct: Cipher)
      requires Valid() && Holds(a) && HasRotationKey(steps)
      ensures Holds(ct)
    {
      Cipher(seq(n, j requires 0 <= j < n => a.slots[Source(layout, n, steps, j)]), a.depth)
    }

    /** Plaintext multiplication does not consume depth. */
    function MultiplyPlain(a: Cipher, plain: seq<int>): (ct: Cipher)
      requires Valid() && Holds(a) && |plain| == n
      ensures Holds(ct)
    {
      Cipher(seq(n, j requires 0 <= j < n => (a.slots[j] * (plain[j] % p)) % p), a.depth)
    }

    function MultiplyScalar(a: Cipher, scalar: int): (ct: Cipher)
      requires Valid() && Holds(a)
      ensures Holds(ct)
    {
      MultiplyPlain(a, seq(n, j => scalar))
    }

    function AddPlain(a: Cipher, plain: seq<int>): (ct: Cipher)
      requires Valid() && Holds(a) && |plain| == n
      ensures Holds(ct)
    {
      Cipher(seq(n, j requires 0 <= j < n => (a.slots[j] + plain[j] % p) % p), a.depth)
    }

    // -------------------------------------------------------------- layout facts

    /** Turning by s and then by t < s is turning by s + t, for every power-of-two step s. */
    lemma SourceCompose(s: nat, t: nat, j: nat)
      requires Valid() && j < n && IsPow2(s) && s < n && t < s
      ensures s + t < n
      ensures Source(layout, n, t, Source(layout, n, s, j)) == Source(layout, n, s + t, j)
    {
      Pow2Gap(s, n);
      if layout == TwoRows {
        if s < n / 2 { Pow2Gap(s, n / 2); }
        RowsCompose(n, n / 2, s, t, j);
      }
    }

    /** Inside an aligned power-of-two block a turn is a plain offset. */
    lemma SourceInBlock(b: nat, t: nat, i: nat)
      requires Valid() && IsPow2(b) && b <= n && i * b < n && t < b
      ensures i * b + t < n && Source(layout, n, t, i * b) == i * b + t
    {
      BlockFits(b, n, i);
      if b < n {
        Pow2Gap(b, n);
        var q := Pow2Divides(b, n / 2);
        if i * b < n / 2 {
          BlockFits(b, n / 2, i);
        } else {
          assert i * b - n / 2 == (i - q) * b;
          if i < q { MulMono(i + 1, q, b); }
          BlockFits(b, n / 2, i - q);
        }
      } else if i > 0 {
        MulMono(1, i, b);
      }
    }

    /** Seen from slot 0 every turn below n is the slot of that index. */
    lemma SourceFromZero(t: nat)
      requires Valid() && t < n
      ensures Source(layout, n, t, 0) == t
    {
    }
  }

  /** Two rows of `half` slots: a turn of at least half exchanges the rows, the rest turns within a row. */
  lemma RowsCompose(n: nat, half: nat, s: nat, t: nat, j: nat)
    requires IsPow2(n) && n > 1 && half == n / 2 && n == 2 * half && j < n && s < n && t < s && s + t < n
    requires s == half || 2 * s <= half
    ensures Source(TwoRows, n, t, Source(TwoRows, n, s, j)) == Source(TwoRows, n, s + t, j)
  {
    hide IsPow2;
    RowsAt(n, half, s, j);
    RowsAt(n, half, s + t, j);
    RowsAt(n, half, t, Source(TwoRows, n, s, j));
  }

  /** Row and column of the slot read, spelled out. */
  lemma RowsAt(n: nat, half: nat, t: nat, j: nat)
    requires IsPow2(n) && n > 1 && half == n / 2 && n == 2 * half && t < n && j < n
    ensures var row, turn := if j < half then 0 else half, if t < half then t else t - half;
      var col, base := j - row + turn, if t < half then row else half - row;
      Source(TwoRows, n, t, j) == base + if col < half then col else col - half
  {
    hide IsPow2;
  }

  lemma BlockFits(b: nat, m: nat, i: nat)
    requires IsPow2(b) && IsPow2(m) && b <= m && i * b < m
    ensures (i + 1) * b <= m
  {
    var q := Pow2Divides(b, m);
    if i >= q { MulMono(q, i, b); }
    MulMono(i + 1, q, b);
  }
}
