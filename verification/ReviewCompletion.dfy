/** A review carried through the end of the pipeline (maskguard/api/review_service.py). */
module ReviewCompletion {
  import opened Models
  import opened PipelineTail
  import opened PolicyDecisions
  import opened Redaction
  import opened ReviewProperties
  import opened ReviewService
  import opened RiskScoring
  import opened Verification

  function FixedUp(release: Release, criticalRejected: bool): Release {
    if criticalRejected && !release.verification.needsHumanReview
    then release.(verification := release.verification.(needsHumanReview := true))
    else release
  }

  function Completed(review: Review, original: Image, oracle: Oracle, scan: Image -> seq<Kind>, config: Config): Release
    requires review.Reviewed?
  {
    var e := Verified(original, review.kept + review.manual, oracle, config);
    FixedUp(ReleaseOf(e, scan(e.image), config.strict), review.criticalRejected)
  }

  method CompleteReview(review: Review, original: Image, oracle: Oracle, scan: Image -> seq<Kind>, config: Config)
    returns (release: Release)
    requires review.Reviewed?
    ensures release == Completed(review, original, oracle, scan, config)
  {
    var final := review.kept + review.manual;
    var list := new Detection[|final|](i requires 0 <= i < |final| => final[i]);
    assert list[..] == final;
    release := RedactVerifyAndFinalize(original, list, oracle, scan, config);
    if review.criticalRejected && !release.verification.needsHumanReview {
      release := release.(verification := release.verification.(needsHumanReview := true));
    }
  }

  /** Rejecting a critical finding never unmasks it: it stays in the list with its own box
      and action, is flagged, and the outcome asks for a human. */
  lemma {:induction false} CriticalRejectionNeedsHuman(context: Tokens.ReviewContext, items: seq<ReviewItem>,
        settings: Settings,
      width: int, height: int, policy: Policy, newId: nat -> string, r: Review, release: Release,
      original: Image, oracle: Oracle, scan: Image -> seq<Kind>, config: Config, i: nat)
    requires Outcomes(context, items, settings, width, height, policy, newId, r) && r.Reviewed?
    requires release == Completed(r, original, oracle, scan, config) && i < |context.detections|
    requires RejectedIn(Decisions(items), context.detections[i]) && IntrinsicCritical(context.detections[i].kind)
    ensures release.verification.needsHumanReview
    ensures exists p :: 0 <= p < |r.kept| && r.kept[p].needsReview &&
              KeptFrom(context.detections[i], Decisions(items), r.kept[p], context.detections[i].detectionId)
  {
    var decisions := Decisions(items);
    var at := KeptAt(context.detections, decisions);
    KeptExactly(context, items, settings, width, height, policy, newId, r, decisions, at);
    var p :| 0 <= p < |at| && at[p] == i;
    assert KeptFrom(context.detections[at[p]], decisions, r.kept[p], r.keptIds[p]);
  }

  ghost predicate NoText(ds: seq<Detection>) { forall i :: 0 <= i < |ds| ==> ds[i].text == "" }

  lemma {:induction false} ManualHasNoText(context: Tokens.ReviewContext, items: seq<ReviewItem>, settings: Settings,
      width: int, height: int, policy: Policy, newId: nat -> string, r: Review)
    requires Outcomes(context, items, settings, width, height, policy, newId, r) && r.Reviewed?
    ensures NoText(r.manual)
  {
    var ds := Additions(ManualItems(items), r.kept);
    var left := Redacted(AdditionsDecided(ds, policy), UpTo(|ds|));
    ReviewHasManualPart(context, items, settings, width, height, policy, newId, r, ds, left);
    forall p | 0 <= p < |r.manual|
      ensures r.manual[p].text == ""
    {
      PartApart(ds, r.kept, policy, newId, r, left, p, 0);
    }
  }

  lemma {:induction false} KeptHasNoText(context: Tokens.ReviewContext, items: seq<ReviewItem>, settings: Settings,
      width: int, height: int, policy: Policy, newId: nat -> string, r: Review)
    requires Outcomes(context, items, settings, width, height, policy, newId, r) && r.Reviewed?
    ensures NoText(r.kept)
  {}

  lemma {:induction false} NoTextConcat(a: seq<Detection>, b: seq<Detection>)
    requires NoText(a) && NoText(b)
    ensures NoText(a + b)
  {}

  lemma {:induction false} VerifiedUntouched(original: Image, ds: seq<Detection>, oracle: Oracle, config: Config)
    requires NoText(ds)
    ensures var e := Verified(original, ds, oracle, config);
            && e.detections == ds && e.image == Rendered(original, ds) && !e.result.needsHumanReview
            && e.result.status ==
                 (if !config.verification then SKIPPED else if config.maxRetries < 1 then FAILED else PASSED)
  {
    if config.verification && config.maxRetries >= 1 {
      NothingToLookFor(original, ds, oracle, config.maxRetries);
    }
  }

  /** The image a review releases shows exactly the kept and the manual detections, as
      decided: no text goes through a review, so its verification has nothing to look for,
      escalates nothing, and passes unless it is allowed no attempt. The scan alone can
      still fail it; and a human is asked for when it sees something, or when a critical
      finding was rejected. */
  lemma {:induction false} ReviewRendersDecisions(context: Tokens.ReviewContext, items: seq<ReviewItem>,
        settings: Settings,
      width: int, height: int, policy: Policy, newId: nat -> string, r: Review, release: Release,
      original: Image, oracle: Oracle, scan: Image -> seq<Kind>, config: Config, image: Image, found: seq<Kind>)
    requires Outcomes(context, items, settings, width, height, policy, newId, r) && r.Reviewed?
    requires release == Completed(r, original, oracle, scan, config)
    requires image == Rendered(original, r.kept + r.manual) && found == scan(image)
    ensures release.written.Some? ==> release.written.value == image
    ensures release.verification.status == FAILED <==>
              (config.verification && config.maxRetries < 1) ||
                exists k :: 0 <= k < |found| && IntrinsicCritical(found[k])
    ensures release.written.None? <==> config.strict && release.verification.status == FAILED
    ensures release.verification.needsHumanReview <==>
              r.criticalRejected || exists k :: 0 <= k < |found| && Scanned(found[k])
  {
    var final := r.kept + r.manual;
    KeptHasNoText(context, items, settings, width, height, policy, newId, r);
    ManualHasNoText(context, items, settings, width, height, policy, newId, r);
    NoTextConcat(r.kept, r.manual);
    VerifiedUntouched(original, final, oracle, config);
    var e := Verified(original, final, oracle, config);
    SanityOnlyWorsens(e.result, found, ApplySanityScan(e.result, ScanOf(found)));
  }
}
