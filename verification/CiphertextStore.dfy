/**
 The two-owner ciphertext store with epoch compare-and-swap
 (`src/protocol/dynamic_ciphertext_store.cpp`).  Replacement runs under a mutex, so
 every concurrent history is a sequence of atomic steps: the theorems quantify over
 all such sequences of requests, valid or not.
 */
module CiphertextStore {
  import opened Wrappers
  import opened Codec

  const MAX_EPOCH: nat := 0xFFFF_FFFF_FFFF_FFFF
  const ESTIMATOR_MODEL := "sha256-random-ranking-poc-v1"
  const ENCODING_MODEL := "onehot-mod-m-v1"

  /** Everything in an envelope that no replacement may change, besides its owner. */
  datatype Shared = Shared(hashSeed: nat, estimatorModel: string, k: nat, m: nat, hashRange: nat, encodingModel: string,
                           contextFingerprint: string, publicKeyFingerprint: string, ciphertextKeyTag: string)

  datatype Envelope = Envelope(owner: string, epoch: nat, shared: Shared, payload: Bytes)

  /** The public codec: its crypto identity, and whether a payload deserialises under it. */
  datatype PublicCodec = PublicCodec(contextFingerprint: string, publicKeyFingerprint: string, ciphertextKeyTag: string,
                                     accepts: Bytes -> bool)
  {
    /** ValidatePayload. */
    predicate Accepts(e: Envelope) {
      && e.owner != ""
      && e.shared.estimatorModel == ESTIMATOR_MODEL && e.shared.encodingModel == ENCODING_MODEL
      && e.shared.contextFingerprint == contextFingerprint
      && e.shared.publicKeyFingerprint == publicKeyFingerprint
      && e.shared.ciphertextKeyTag == ciphertextKeyTag
      && accepts(e.payload)
    }
  }

  /** An envelope under the codec's identity and the two model names, field by field. */
  ghost predicate Bound(codec: PublicCodec, e: Envelope) {
    && e.owner != ""
    && e.shared.estimatorModel == "sha256-random-ranking-poc-v1" && e.shared.encodingModel == "onehot-mod-m-v1"
    && e.shared.contextFingerprint == codec.contextFingerprint
    && e.shared.publicKeyFingerprint == codec.publicKeyFingerprint
    && e.shared.ciphertextKeyTag == codec.ciphertextKeyTag
    && codec.accepts(e.payload)
  }

  datatype Pair = Pair(first: Envelope, second: Envelope) {
    predicate Knows(owner: string) {
      owner == first.owner || owner == second.owner
    }

    /** The envelope of a known owner. */
    function Of(owner: string): (e: Envelope)
      requires Knows(owner)
      ensures e.owner == owner
    {
      if owner == first.owner then first else second
    }

    function With(e: Envelope): Pair
      requires Knows(e.owner)
    {
      if e.owner == first.owner then Pair(e, second) else Pair(first, e)
    }
  }

  datatype Outcome = Applied | StaleEpoch | FutureEpoch

  datatype Observed = Observed(status: Outcome, epoch: nat)

  datatype Request = Request(owner: string, expected: nat, replacement: Envelope)

  /** The checks that end in an exception, before any comparison of epochs. */
  predicate WellFormed(codec: PublicCodec, pair: Pair, req: Request) {
    && req.expected != MAX_EPOCH && req.replacement.epoch == req.expected + 1
    && req.owner != "" && req.replacement.owner == req.owner
    && codec.Accepts(req.replacement)
    && pair.Knows(req.owner) && pair.Of(req.owner).shared == req.replacement.shared
  }

  /** A request takes effect exactly when it is well formed and expects the current epoch. */
  predicate Takes(codec: PublicCodec, pair: Pair, req: Request) {
    WellFormed(codec, pair, req) && pair.Of(req.owner).epoch == req.expected
  }

  function Step(codec: PublicCodec, pair: Pair, req: Request): Pair {
    if Takes(codec, pair, req) then pair.With(req.replacement) else pair
  }

  /** What every reachable store satisfies. */
  ghost predicate Consistent(codec: PublicCodec, pair: Pair) {
    && pair.first.owner != pair.second.owner
    && codec.Accepts(pair.first) && codec.Accepts(pair.second)
    && pair.first.shared == pair.second.shared
    && pair.first.epoch <= MAX_EPOCH && pair.second.epoch <= MAX_EPOCH
  }

  class DynamicCiphertextStore {
    const codec: PublicCodec
    var first: Envelope
    var second: Envelope

    ghost function Abs(): Pair
      reads this
    {
      Pair(first, second)
    }

    ghost predicate Valid()
      reads this
    {
      Consistent(codec, Abs())
    }

    constructor (codec: PublicCodec, first: Envelope, second: Envelope)
      requires first.owner != second.owner && first.epoch == second.epoch == 0
      requires codec.Accepts(first) && codec.Accepts(second) && first.shared == second.shared
      ensures Valid() && this.codec == codec && this.first == first && this.second == second
    {
      this.codec, this.first, this.second := codec, first, second;
    }

    /** Compare-and-swap on one owner's epoch. */
    method TryReplace(owner: string, expected: nat, replacement: Envelope) returns (r: Result<Observed>)
      requires Valid() && expected <= MAX_EPOCH && replacement.epoch <= MAX_EPOCH
      modifies this
      ensures Valid()
      ensures var req := Request(owner, expected, replacement);
        && Abs() == Step(codec, old(Abs()), req)
        && (r.Err? <==> !WellFormed(codec, old(Abs()), req))
        && (r.Ok? ==> r.value.status == (if expected < old(Abs()).Of(owner).epoch then StaleEpoch
                                         else if expected > old(Abs()).Of(owner).epoch then FutureEpoch else Applied))
        && (r.Ok? ==> r.value.epoch == Abs().Of(owner).epoch)
      ensures r.Ok? <==>
        && expected < 0xFFFF_FFFF_FFFF_FFFF && replacement.epoch == expected + 1
        && replacement.owner == owner && (owner == old(first).owner || owner == old(second).owner)
        && Bound(codec, replacement)
        && replacement.shared == (if owner == old(first).owner then old(first).shared else old(second).shared)
      ensures r.Ok? ==>
        var current := if owner == old(first).owner then old(first) else old(second);
        var wins := current.epoch == expected;
        && first == (if wins && owner == old(first).owner then replacement else old(first))
        && second == (if wins && owner != old(first).owner then replacement else old(second))
      ensures r.Err? ==> first == old(first) && second == old(second)
    {
      if expected == MAX_EPOCH { return Err(InvalidArgument("expected epoch cannot be UINT64_MAX")); }
      if replacement.epoch != expected + 1 { return Err(InvalidArgument("replacement epoch is not the next epoch")); }
      if owner == "" || replacement.owner == "" || replacement.owner != owner {
        return Err(InvalidArgument("replacement owner_set_id does not match"));
      }
      if !codec.Accepts(replacement) { return Err(InvalidArgument("replacement payload is invalid")); }
      var current;
      if owner == first.owner {
        current := first;
      } else if owner == second.owner {
        current := second;
      } else {
        return Err(InvalidArgument("owner_set_id is unknown"));
      }
      if current.owner != replacement.owner || current.shared != replacement.shared {
        return Err(InvalidArgument("replacement immutable binding mismatch"));
      }
      if expected < current.epoch { return Ok(Observed(StaleEpoch, current.epoch)); }
      if expected > current.epoch { return Ok(Observed(FutureEpoch, current.epoch)); }
      if owner == first.owner { first := replacement; } else { second := replacement; }
      return Ok(Observed(Applied, replacement.epoch));
    }
  }

  /** Construction refuses envelopes that are not two fresh, matching, acceptable ones. */
  method OpenStore(codec: PublicCodec, first: Envelope, second: Envelope) returns (r: Result<DynamicCiphertextStore>)
    ensures r.Ok? <==> first.owner != second.owner && first.epoch == second.epoch == 0
                       && Bound(codec, first) && Bound(codec, second) && first.shared == second.shared
    ensures r.Ok? ==>
      fresh(r.value) && r.value.Valid() && r.value.codec == codec
      && r.value.Abs() == Pair(first, second)
  {
    if first.owner == "" || second.owner == "" || first.owner == second.owner {
      return Err(InvalidArgument("owner_set_ids must be distinct and nonempty"));
    }
    if first.epoch != 0 || second.epoch != 0 {
      return Err(InvalidArgument("initial ciphertext epochs must be zero"));
    }
    if !codec.Accepts(first) || !codec.Accepts(second) {
      return Err(InvalidArgument("dynamic ciphertext payload is invalid"));
    }
    if first.shared != second.shared {
      return Err(InvalidArgument("initial ciphertext bindings do not match"));
    }
    var store := new DynamicCiphertextStore(codec, first, second);
    return Ok(store);
  }

  // ------------------------------------------------------------------ all histories

  function Run(codec: PublicCodec, pair: Pair, reqs: seq<Request>): Pair {
    if reqs == [] then pair else Step(codec, Run(codec, pair, reqs[..|reqs| - 1]), reqs[|reqs| - 1])
  }

  /** Request i of the history takes effect. */
  ghost predicate Wins(codec: PublicCodec, pair: Pair, reqs: seq<Request>, i: nat)
    requires i < |reqs|
  {
    Takes(codec, Run(codec, pair, reqs[..i]), reqs[i])
  }

  /** How many requests of the history take effect for an owner. */
  ghost function WinCount(codec: PublicCodec, pair: Pair, reqs: seq<Request>, owner: string): nat {
    if reqs == [] then 0 else
      var last := |reqs| - 1;
      WinCount(codec, pair, reqs[..last], owner)
        + if reqs[last].owner == owner && Takes(codec, Run(codec, pair, reqs[..last]), reqs[last]) then 1 else 0
  }

  lemma StepKeeps(codec: PublicCodec, pair: Pair, req: Request, owner: string)
    requires Consistent(codec, pair) && pair.Knows(owner)
    ensures var after := Step(codec, pair, req);
      && Consistent(codec, after) && after.Knows(owner)
      && after.first.owner == pair.first.owner && after.second.owner == pair.second.owner
      && after.first.shared == pair.first.shared
      && after.Of(owner) == if req.owner == owner && Takes(codec, pair, req) then req.replacement else pair.Of(owner)
  {
  }

  /**
   Over every history: the owners and the shared binding never change, both envelopes stay
   acceptable, and an owner's epoch is its initial epoch plus the number of its wins.
   */
  lemma {:induction false} HistoryKeeps(codec: PublicCodec, pair: Pair, reqs: seq<Request>, owner: string)
    requires Consistent(codec, pair) && pair.Knows(owner)
    ensures var after := Run(codec, pair, reqs);
      && Consistent(codec, after) && after.Knows(owner)
      && after.first.owner == pair.first.owner && after.second.owner == pair.second.owner
      && after.first.shared == pair.first.shared
      && after.Of(owner).epoch == pair.Of(owner).epoch + WinCount(codec, pair, reqs, owner)
  {
    if reqs != [] {
      var last := |reqs| - 1;
      HistoryKeeps(codec, pair, reqs[..last], owner);
      StepKeeps(codec, Run(codec, pair, reqs[..last]), reqs[last], owner);
    }
  }

  /** Over every history both stored envelopes stay under the codec's identity and its model names. */
  lemma HistoryBinds(codec: PublicCodec, pair: Pair, reqs: seq<Request>)
    requires pair.first.owner != pair.second.owner && pair.first.epoch == pair.second.epoch == 0
    requires Bound(codec, pair.first) && Bound(codec, pair.second) && pair.first.shared == pair.second.shared
    ensures var after := Run(codec, pair, reqs);
      Bound(codec, after.first) && Bound(codec, after.second) && after.first.shared == after.second.shared
      && after.first.owner == pair.first.owner && after.second.owner == pair.second.owner
  {
    HistoryKeeps(codec, pair, reqs, pair.first.owner);
  }

  lemma {:induction false} WinsGrow(codec: PublicCodec, pair: Pair, reqs: seq<Request>, owner: string, i: nat, j: nat)
    requires i <= j <= |reqs|
    ensures WinCount(codec, pair, reqs[..i], owner) <= WinCount(codec, pair, reqs[..j], owner)
  {
    hide Takes, Run;
    if i < j {
      WinsGrow(codec, pair, reqs, owner, i, j - 1);
      assert reqs[..j][..j - 1] == reqs[..j - 1];
    }
  }

  /** The winner of an epoch expects exactly the number of earlier wins: epochs are handed out without gaps. */
  lemma WinnerExpects(codec: PublicCodec, pair: Pair, reqs: seq<Request>, i: nat)
    requires Consistent(codec, pair) && i < |reqs| && Wins(codec, pair, reqs, i)
    ensures pair.Knows(reqs[i].owner)
    ensures reqs[i].expected == pair.Of(reqs[i].owner).epoch + WinCount(codec, pair, reqs[..i], reqs[i].owner)
  {
    HistoryKeeps(codec, pair, reqs[..i], pair.first.owner);
    HistoryKeeps(codec, pair, reqs[..i], reqs[i].owner);
  }

  /**
   No lost update: of all requests of one owner that expect the same epoch at most one wins,
   and wins are in epoch order.
   */
  lemma OneWinnerPerEpoch(codec: PublicCodec, pair: Pair, reqs: seq<Request>, i: nat, j: nat)
    requires Consistent(codec, pair) && i < j < |reqs| && reqs[i].owner == reqs[j].owner
    requires Wins(codec, pair, reqs, i) && Wins(codec, pair, reqs, j)
    ensures reqs[i].expected < reqs[j].expected
  {
    var owner := reqs[i].owner;
    WinnerExpects(codec, pair, reqs, i);
    WinnerExpects(codec, pair, reqs, j);
    WinsGrow(codec, pair, reqs, owner, i + 1, j);
    assert reqs[..i + 1][..i] == reqs[..i] && reqs[..i + 1][i] == reqs[i];
  }

  /** What is stored for an owner is the replacement of its last win, or the initial envelope. */
  lemma {:induction false} StoredIsLastWin(codec: PublicCodec, pair: Pair, reqs: seq<Request>, owner: string)
    requires Consistent(codec, pair) && pair.Knows(owner)
    ensures Run(codec, pair, reqs).Knows(owner)
    ensures if WinCount(codec, pair, reqs, owner) == 0 then Run(codec, pair, reqs).Of(owner) == pair.Of(owner)
            else exists i :: 0 <= i < |reqs| && LastWin(codec, pair, reqs, owner, i)
  {
    HistoryKeeps(codec, pair, reqs, owner);
    if reqs != [] {
      var last := |reqs| - 1;
      var before := reqs[..last];
      HistoryKeeps(codec, pair, before, owner);
      StepKeeps(codec, Run(codec, pair, before), reqs[last], owner);
      HistoryStep(codec, pair, reqs, owner);
      hide Run, WinCount, Takes, Step, Consistent;
      if reqs[last].owner == owner && Wins(codec, pair, reqs, last) {
        assert LastWin(codec, pair, reqs, owner, last);
      } else {
        StoredIsLastWin(codec, pair, before, owner);
        if WinCount(codec, pair, reqs, owner) > 0 {
          var i :| 0 <= i < last && LastWin(codec, pair, before, owner, i);
          assert before[..i] == reqs[..i];
          assert LastWin(codec, pair, reqs, owner, i);
        }
      }
    }
  }

  /** Request i won, its envelope is stored, and its epoch counts all the wins. */
  ghost predicate LastWin(codec: PublicCodec, pair: Pair, reqs: seq<Request>, owner: string, i: nat)
    requires i < |reqs| && pair.Knows(owner) && Run(codec, pair, reqs).Knows(owner)
  {
    && reqs[i].owner == owner && Wins(codec, pair, reqs, i) && Run(codec, pair, reqs).Of(owner) == reqs[i].replacement
    && reqs[i].expected + 1 == pair.Of(owner).epoch + WinCount(codec, pair, reqs, owner)
  }

  lemma HistoryStep(codec: PublicCodec, pair: Pair, reqs: seq<Request>, owner: string)
    requires reqs != []
    ensures var last := |reqs| - 1;
      var won := reqs[last].owner == owner && Wins(codec, pair, reqs, last);
      && Run(codec, pair, reqs) == Step(codec, Run(codec, pair, reqs[..last]), reqs[last])
      && WinCount(codec, pair, reqs, owner) == WinCount(codec, pair, reqs[..last], owner) + if won then 1 else 0
  {
    hide Takes, Step;
  }
}
