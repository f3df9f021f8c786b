/** One cycle of the photo worker: thumbnails are generated and erased objects deleted, and each
    claim's outcome is counted. */
module PhotoProcessing {
  import opened Options

  datatype Read<+T> = Loaded(value: T) | NotFound | Unavailable

  datatype Claim = Claim(id: string, taskType: string, attemptCount: int, objectKey: string)

  /** What the worker asks the store to record for a claim. */
  datatype Write =
    | Completed(id: string)
    | Failed(id: string, attemptCount: int, reason: string)
    | DeletionCompleted(id: string)
    | DeletionFailed(id: string, attemptCount: int, reason: string)

  datatype Cycle = Cycle(claimed: nat, finalized: nat, stale: nat)

  /** The counters both loops update through `&mut result`. */
  class Counters {
    var claimed: nat
    var finalized: nat
    var stale: nat

    constructor (claims: nat)
      ensures claimed == claims && finalized == 0 && stale == 0
    {
      claimed, finalized, stale := claims, 0, 0;
    }

    /** `record_finalization` */
    method RecordFinalization(outcome: Read<bool>) returns (unavailable: bool)
      modifies this
      ensures claimed == old(claimed)
      ensures finalized == old(finalized) + (if outcome == Loaded(true) then 1 else 0)
      ensures stale == old(stale) + (if outcome == Loaded(false) || outcome == NotFound then 1 else 0)
      ensures unavailable <==> outcome == Unavailable
    {
      match outcome {
        case Loaded(applied) =>
          if applied { finalized := finalized + 1; } else { stale := stale + 1; }
          unavailable := false;
        case NotFound =>
          stale := stale + 1;
          unavailable := false;
        case Unavailable =>
          unavailable := true;
      }
    }
  }

  /** The counters after these outcomes, and whether any write was not taken. */
  ghost predicate Tallied(outcomes: seq<Read<bool>>, finalized: nat, stale: nat, unavailable: bool)
  {
    && finalized == multiset(outcomes)[Loaded(true)]
    && stale == multiset(outcomes)[Loaded(false)] + multiset(outcomes)[NotFound]
    && (unavailable <==> Unavailable in outcomes)
    && (!unavailable ==> finalized + stale == |outcomes|)
  }

  lemma TalliedOneMore(outcomes: seq<Read<bool>>, i: nat, finalized: nat, stale: nat, unavailable: bool)
    requires i < |outcomes| && Tallied(outcomes[..i], finalized, stale, unavailable)
    ensures Tallied(outcomes[..i + 1],
                    finalized + (if outcomes[i] == Loaded(true) then 1 else 0),
                    stale + (if outcomes[i] == Loaded(false) || outcomes[i] == NotFound then 1 else 0),
                    unavailable || outcomes[i] == Unavailable)
  {
    var o := outcomes[i];
    assert outcomes[..i + 1] == outcomes[..i] + [o];
    assert multiset(outcomes[..i + 1]) == multiset(outcomes[..i]) + multiset{o};
    if o.Loaded? {
      assert if o.value then o == Loaded(true) else o == Loaded(false);
    }
  }

  function ThumbnailWrite(claim: Claim, generated: bool): Write
  {
    if claim.taskType != "thumbnail_generation"
        then Failed(claim.id, claim.attemptCount, "unsupported_photo_processing_task")
    else if generated then Completed(claim.id)
    else Failed(claim.id, claim.attemptCount, "thumbnail_generation_failed")
  }

  function DeletionWrite(claim: Claim, deleted: bool): Write
  {
    if deleted then DeletionCompleted(claim.id)
    else DeletionFailed(claim.id, claim.attemptCount, "photo_object_deletion_failed")
  }

  /** A claim is completed exactly when its thumbnail was generated, or its object deleted; anything
      else fails it with the attempt it had and a reason that tells the cases apart. */
  lemma WritesTell(claim: Claim, done: bool)
    ensures ThumbnailWrite(claim, done) == Completed(claim.id) <==> claim.taskType == "thumbnail_generation" && done
    ensures DeletionWrite(claim, done) == DeletionCompleted(claim.id) <==> done
    ensures !ThumbnailWrite(claim, done).Completed? ==>
      var w := ThumbnailWrite(claim, done);
      w.Failed? && w.id == claim.id && w.attemptCount == claim.attemptCount
      && w.reason == (if claim.taskType == "thumbnail_generation" then "thumbnail_generation_failed"
                      else "unsupported_photo_processing_task")
    ensures !done ==>
      DeletionWrite(claim, done) == DeletionFailed(claim.id, claim.attemptCount, "photo_object_deletion_failed")
  {
  }

  /** The loop over the thumbnail queue. */
  method ProcessThumbnails(claims: seq<Claim>, generated: seq<bool>, outcomes: seq<Read<bool>>, result: Counters)
    returns (writes: seq<Write>, unavailable: bool)
    requires |generated| == |claims| <= |outcomes| && result.finalized == result.stale == 0
    modifies result
    ensures result.claimed == old(result.claimed)
    ensures Tallied(outcomes[..|claims|], result.finalized, result.stale, unavailable)
    ensures |writes| == |claims|
    ensures forall i :: 0 <= i < |claims| ==> writes[i] == ThumbnailWrite(claims[i], generated[i])
  {
    writes, unavailable := [], false;
    for i := 0 to |claims|
      invariant result.claimed == old(result.claimed) && |writes| == i
      invariant Tallied(outcomes[..i], result.finalized, result.stale, unavailable)
      invariant forall k :: 0 <= k < i ==> writes[k] == ThumbnailWrite(claims[k], generated[k])
    {
      var claim := claims[i];
      TalliedOneMore(outcomes, i, result.finalized, result.stale, unavailable);
      if claim.taskType != "thumbnail_generation" {
        writes := writes + [Failed(claim.id, claim.attemptCount, "unsupported_photo_processing_task")];
        var missed := result.RecordFinalization(outcomes[i]);
        unavailable := unavailable || missed;
        continue;
      }
      if generated[i] {
        writes := writes + [Completed(claim.id)];
      } else {
        writes := writes + [Failed(claim.id, claim.attemptCount, "thumbnail_generation_failed")];
      }
      var missed := result.RecordFinalization(outcomes[i]);
      unavailable := unavailable || missed;
    }
  }

  /** The loop over the deletion queue, going on from the counters of the first loop. */
  method ProcessDeletions(claims: seq<Claim>, deleted: seq<bool>, outcomes: seq<Read<bool>>, from: nat,
                          missedBefore: bool,
                          result: Counters)
    returns (writes: seq<Write>, unavailable: bool)
    requires |deleted| == |claims| && |outcomes| == from + |claims|
    requires Tallied(outcomes[..from], result.finalized, result.stale, missedBefore)
    modifies result
    ensures result.claimed == old(result.claimed)
    ensures Tallied(outcomes, result.finalized, result.stale, unavailable)
    ensures |writes| == |claims|
    ensures forall i :: 0 <= i < |claims| ==> writes[i] == DeletionWrite(claims[i], deleted[i])
  {
    writes, unavailable := [], missedBefore;
    for i := 0 to |claims|
      invariant result.claimed == old(result.claimed) && |writes| == i
      invariant Tallied(outcomes[..from + i], result.finalized, result.stale, unavailable)
      invariant forall k :: 0 <= k < i ==> writes[k] == DeletionWrite(claims[k], deleted[k])
    {
      TalliedOneMore(outcomes, from + i, result.finalized, result.stale, unavailable);
      var claim := claims[i];
      if deleted[i] {
        writes := writes + [DeletionCompleted(claim.id)];
      } else {
        writes := writes + [DeletionFailed(claim.id, claim.attemptCount, "photo_object_deletion_failed")];
      }
      var missed := result.RecordFinalization(outcomes[from + i]);
      unavailable := unavailable || missed;
    }
    assert outcomes[..from + |claims|] == outcomes;
  }

  /** `process_photo_processing_once`, with the storage results and the store's answers given in
      the order the claims are worked through. A loaded cycle accounts for every claim of both
      queues as finalized or stale; any write the store does not take makes it unavailable. */
  method ProcessOnce(claims: Option<seq<Claim>>, deletionClaims: Option<seq<Claim>>, generated: seq<bool>,
                     deleted: seq<bool>,
                     outcomes: seq<Read<bool>>)
    returns (r: Read<Cycle>, writes: seq<Write>)
    requires claims.Some? && deletionClaims.Some? ==>
      |generated| == |claims.value| && |deleted| == |deletionClaims.value|
      && |outcomes| == |claims.value| + |deletionClaims.value|
    ensures r.Loaded? <==> claims.Some? && deletionClaims.Some? && Unavailable !in outcomes
    ensures r.Loaded? ==>
      && r.value.claimed == |claims.value| + |deletionClaims.value|
      && r.value.claimed == r.value.finalized + r.value.stale
      && r.value.finalized == multiset(outcomes)[Loaded(true)]
      && r.value.stale == multiset(outcomes)[Loaded(false)] + multiset(outcomes)[NotFound]
    ensures claims.Some? && deletionClaims.Some? ==>
      && |writes| == |outcomes|
      && (forall i :: 0 <= i < |claims.value| ==> writes[i] == ThumbnailWrite(claims.value[i], generated[i]))
      && (forall i :: 0 <= i < |deletionClaims.value| ==>
            writes[|claims.value| + i] == DeletionWrite(deletionClaims.value[i], deleted[i]))
  {
    if claims.None? || deletionClaims.None? {
      return Unavailable, [];
    }
    var result := new Counters(|claims.value| + |deletionClaims.value|);
    var thumbnailWrites, missed := ProcessThumbnails(claims.value, generated, outcomes, result);
    var deletionWrites, mutationUnavailable :=
        ProcessDeletions(deletionClaims.value, deleted, outcomes, |claims.value|, missed, result);
    writes := thumbnailWrites + deletionWrites;
    if mutationUnavailable {
      r := Unavailable;
    } else {
      r := Loaded(Cycle(result.claimed, result.finalized, result.stale));
    }
  }
}
