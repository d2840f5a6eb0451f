/**
 The end of the pipeline: redaction, verification, the independent scan of the whole image
 and the decision to release it (maskguard/pipeline.py,
 maskguard/verification/whole_image_sanity.py).
 */
module PipelineTail {
  import opened Models
  import opened Redaction
  import opened ResidualText
  import opened RiskScoring
  import opened Verification
  import opened VerificationRuns

  // ---------- the independent scan ----------

  datatype ScanResult = ScanResult(foundTypes: set<Kind>, foundCriticalTypes: set<Kind>)

  predicate Scanned(kind: Kind) { IntrinsicCritical(kind) || kind.Email? || kind.Phone? }

  /** From the types that fresh detection reports on the final image. */
  function ScanOf(found: seq<Kind>): ScanResult {
    ScanResult(set kind | kind in found && Scanned(kind), set kind | kind in found && IntrinsicCritical(kind))
  }

  /** The scan looks for nine types, seven of which are critical by themselves. */
  lemma {:induction false} ScannedExactly(found: seq<Kind>, kind: Kind)
    ensures kind in ScanOf(found).foundTypes <==>
            kind in found && kind in {TaiwanID, Passport, BankAccount, CreditCard, SecretKeyValue, BearerToken, JWT,
                                      Email, Phone}
    ensures kind in ScanOf(found).foundCriticalTypes <==>
            kind in found && kind in {TaiwanID, Passport, BankAccount, CreditCard, SecretKeyValue, BearerToken, JWT}
  {}

  function ApplySanityScan(v: VerificationResult, scan: ScanResult): VerificationResult {
    if scan.foundTypes == {} then v
    else if scan.foundCriticalTypes != {} then
      v.(status := FAILED, needsHumanReview := true,
         residualCount := Max(v.residualCount, |scan.foundCriticalTypes|),
         residualTypes := v.residualTypes + scan.foundTypes)
    else v.(needsHumanReview := true, residualTypes := v.residualTypes + scan.foundTypes)
  }

  /** The scan can only make a verdict worse: a failure stays one, a pass survives exactly
      when no critical type was seen, and a request for a human is never withdrawn. */
  lemma {:induction false} SanityOnlyWorsens(v: VerificationResult, found: seq<Kind>, w: VerificationResult)
    requires w == ApplySanityScan(v, ScanOf(found))
    ensures w.status == FAILED <==> v.status == FAILED || exists i :: 0 <= i < |found| && IntrinsicCritical(found[i])
    ensures w.status != FAILED ==> w.status == v.status
    ensures w.needsHumanReview <==> v.needsHumanReview || exists i :: 0 <= i < |found| && Scanned(found[i])
    ensures w.residualTypes == v.residualTypes + ScanOf(found).foundTypes
    ensures w.residualCount ==
            if ScanOf(found).foundCriticalTypes == {} then v.residualCount
            else Max(v.residualCount, |ScanOf(found).foundCriticalTypes|)
  {
    var scan := ScanOf(found);
    if i :| 0 <= i < |found| && IntrinsicCritical(found[i]) {
      assert found[i] in scan.foundCriticalTypes && found[i] in scan.foundTypes;
    }
    if i :| 0 <= i < |found| && Scanned(found[i]) {
      assert found[i] in scan.foundTypes;
    }
  }

  // ---------- releasing ----------

  datatype Config = Config(verification: bool, maxRetries: int, strict: bool)

  /** `written` is the image that was saved, if any. */
  datatype Release = Release(written: Option<Image>, verification: VerificationResult, blocked: bool)

  const NOT_VERIFIED := VerificationResult(SKIPPED, 0, 0, false, {})

  function Verified(original: Image, ds: seq<Detection>, oracle: Oracle, config: Config): Ended {
    if config.verification then VerifyFrom(original, ds, oracle, 1, config.maxRetries)
    else Ended(ds, Rendered(original, ds), NOT_VERIFIED)
  }

  function ReleaseOf(e: Ended, found: seq<Kind>, strict: bool): Release {
    var verification := ApplySanityScan(e.result, ScanOf(found));
    var blocked := strict && verification.status == FAILED;
    Release(if blocked then None else Some(e.image), verification, blocked)
  }

  /** `scan` stands for a fresh reading of an image and detection on what was read. */
  method RedactVerifyAndFinalize(original: Image, detections: array<Detection>, oracle: Oracle,
        scan: Image -> seq<Kind>, config: Config)
    returns (r: Release)
    modifies detections
    ensures var e := Verified(original, old(detections[..]), oracle, config);
            detections[..] == e.detections && r == ReleaseOf(e, scan(e.image), config.strict)
  {
    var redacted, verification;
    if config.verification {
      redacted, verification := VerifyAndFix(original, detections, oracle, config.maxRetries);
    } else {
      redacted := Apply(original, detections);
      verification := VerificationResult(SKIPPED, 0, 0, false, {});
    }
    verification := ApplySanityScan(verification, ScanOf(scan(redacted)));
    var blocked := config.strict && verification.status == FAILED;
    r := Release(if blocked then None else Some(redacted), verification, blocked);
  }

  lemma {:induction false} VerifiedImage(original: Image, ds: seq<Detection>, oracle: Oracle, config: Config, e: Ended)
    requires e == Verified(original, ds, oracle, config)
    ensures e.image == Rendered(original, e.detections)
    ensures config.verification ==> e.result.status != SKIPPED
  {
    if config.verification {
      RendersFinalDetections(original, ds, oracle, config.maxRetries, e);
      if e.result.status != PASSED {
        FailedExactly(original, ds, oracle, config.maxRetries, e, Residuals(original, ds, oracle));
      }
    }
  }

  /** Strict mode withholds the image exactly when verification failed or the scan still saw a
      critical type; without strict mode it is always released. What is released is the
      original with the final detections painted over it. */
  lemma {:induction false} WithheldExactly(original: Image, ds: seq<Detection>, oracle: Oracle, config: Config,
        e: Ended,
                                           found: seq<Kind>, r: Release)
    requires e == Verified(original, ds, oracle, config) && r == ReleaseOf(e, found, config.strict)
    ensures r.blocked <==> r.written.None?
    ensures r.blocked <==>
              && config.strict
              && (e.result.status == FAILED || exists i :: 0 <= i < |found| && IntrinsicCritical(found[i]))
    ensures r.written.Some? ==> r.written.value == Rendered(original, e.detections)
  {
    VerifiedImage(original, ds, oracle, config, e);
    SanityOnlyWorsens(e.result, found, r.verification);
  }

  /** What strict mode promises of an image it releases after verification: nothing critical
      was seen in it by the scan, and no checkable value can be spelled from the last
      reading of its place in that very image. */
  lemma {:induction false} StrictReleaseIsClean(original: Image, ds: seq<Detection>, oracle: Oracle, config: Config,
        e: Ended,
                                                found: seq<Kind>, r: Release, i: nat)
    requires e == Verified(original, ds, oracle, config) && r == ReleaseOf(e, found, config.strict)
    requires config.strict && config.verification && r.written.Some?
    requires i < |e.detections| && Checkable(e.detections[i], e.image)
    ensures r.written.value == e.image == Rendered(original, e.detections) && e.result.attempts >= 1
    ensures forall k :: 0 <= k < |found| ==> !IntrinsicCritical(found[k])
    ensures var d, tokens := e.detections[i], Recognised(oracle, e.result.attempts, i, e.detections[i], e.image);
            && (Normal(d.text, d.kind) != "" ==> Hidden(d, tokens))
            && d.kind !in oracle.redetect(tokens)
  {
    WithheldExactly(original, ds, oracle, config, e, found, r);
    VerifiedImage(original, ds, oracle, config, e);
    PassedHidesValues(original, ds, oracle, config.maxRetries, e, i);
  }

  // ---------- detections without a text ----------

  /** Verification has nothing to look for when no detection has a text of three characters:
      allowed one attempt, it passes at once and changes nothing. */
  lemma {:induction false} NothingToLookFor(original: Image, ds: seq<Detection>, oracle: Oracle, maxRetries: int)
    requires maxRetries >= 1 && forall i :: 0 <= i < |ds| ==> |Strip(ds[i].text)| < 3
    ensures VerifyFrom(original, ds, oracle, 1, maxRetries) ==
            Ended(ds, Rendered(original, ds), VerificationResult(PASSED, 1, 0, false, {}))
  {
    var image := Rendered(original, ds);
    NothingFound(oracle, 1, ds, image);
    NothingNoted(oracle, 1, ds, image);
    Unrolled(original, ds, oracle, 1, maxRetries, image, [], ds);
  }

  lemma {:induction false} NothingFound(oracle: Oracle, attempt: nat, ds: seq<Detection>, image: Image)
    requires forall i :: 0 <= i < |ds| ==> |Strip(ds[i].text)| < 3
    ensures ResidualOf(oracle, attempt, ds, image) == []
  {
    if ResidualOf(oracle, attempt, ds, image) != [] {
      HasMember(ResidualOf(oracle, attempt, ds, image));
    }
  }

  lemma {:induction false} HasMember(s: seq<nat>)
    requires s != []
    ensures exists i :: i in s
  {
    assert s[0] in s;
  }
}
