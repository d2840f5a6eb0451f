/**
 The verification loop (maskguard/verification/verification_engine.py): render, read the
 image again, escalate what can still be read, and render again.
 */
module Verification {
  import opened DetectionMerging
  import opened Models
  import opened Redaction
  import opened ResidualText
  import opened RiskScoring

  datatype Status = PASSED | FAILED | SKIPPED

  datatype VerificationResult = VerificationResult(
    status: Status, attempts: int, residualCount: int, needsHumanReview: bool, residualTypes: set<Kind>)

  datatype Rect = Rect(left: int, top: int, right: int, bottom: int)
  {
    predicate Contains(x: int, y: int) { left <= x < right && top <= y < bottom }
  }

  /** The text recogniser may answer differently at every attempt and for every detection. */
  datatype Oracle = Oracle(
    ocr: (nat, nat, Image, Rect) -> seq<OcrToken>,
    redetect: seq<OcrToken> -> seq<Kind>)

  // ---------- one detection ----------

  const PADDING := 6

  function CropRect(box: BoundingBox, image: Image): Rect {
    Rect(Max(0, box.x - PADDING), Max(0, box.y - PADDING),
         Min(image.width, box.Right() + PADDING), Min(image.height, box.Bottom() + PADDING))
  }

  /** The part of the image that is read again: everything within six pixels of the box. */
  lemma {:induction false} CropExactly(box: BoundingBox, image: Image, x: int, y: int)
    ensures CropRect(box, image).Contains(x, y) <==>
            && 0 <= x < image.width && 0 <= y < image.height
            && box.x - 6 <= x < box.x + box.width + 6 && box.y - 6 <= y < box.y + box.height + 6
  {}

  /** A value of three characters is checked whenever any of its place shows in the image. */
  lemma {:induction false} ShownIsChecked(d: Detection, image: Image, x: int, y: int)
    requires Covers(image, d.box, x, y)
    ensures Checkable(d, image) <==> |Strip(d.text)| >= 3
  {
    CropExactly(d.box, image, x, y);
  }

  /** The value is long enough and some of its place is in the image. */
  predicate Checkable(d: Detection, image: Image) {
    var rect := CropRect(d.box, image);
    |Strip(d.text)| >= 3 && rect.left < rect.right && rect.top < rect.bottom
  }

  function Recognised(oracle: Oracle, attempt: nat, i: nat, d: Detection, image: Image): seq<OcrToken> {
    oracle.ocr(attempt, i, image, CropRect(d.box, image))
  }

  function Checked(oracle: Oracle, attempt: nat, i: nat, d: Detection, image: Image): CropOutcome {
    if Checkable(d, image) then AssessCrop(d, Recognised(oracle, attempt, i, d, image), oracle.redetect) else CLEAN
  }

  predicate Doubtful(oracle: Oracle, attempt: nat, i: nat, d: Detection, image: Image) {
    Checked(oracle, attempt, i, d, image) == UNKNOWN && d.riskLevel == CRITICAL
  }

  predicate Residual(oracle: Oracle, attempt: nat, i: nat, d: Detection, image: Image) {
    Checked(oracle, attempt, i, d, image) == FOUND || Doubtful(oracle, attempt, i, d, image)
  }

  /** Which detections count as still readable: those whose value has three characters and shows
      in the image, when the reading of the crop spells the value or has its type again; and
      critical ones also when something was read there with a mean confidence below 0.35. */
  lemma {:induction false} ResidualExactly(oracle: Oracle, attempt: nat, i: nat, d: Detection, image: Image)
    ensures var tokens := Recognised(oracle, attempt, i, d, image);
            var found := Legible(d, tokens) || d.kind in oracle.redetect(tokens);
            && (Residual(oracle, attempt, i, d, image) <==>
                  && Checkable(d, image)
                  && (found || (d.riskLevel == CRITICAL && tokens != [] && Total(tokens) < 0.35 * |tokens| as real)))
            && (Noted(oracle, attempt, i, d, image) ==
                if Residual(oracle, attempt, i, d, image) && !found then d.(needsReview := true) else d)
  {
    AssessedExactly(d, Recognised(oracle, attempt, i, d, image), oracle.redetect);
  }

  function Noted(oracle: Oracle, attempt: nat, i: nat, d: Detection, image: Image): Detection {
    if Doubtful(oracle, attempt, i, d, image) then d.(needsReview := true) else d
  }

  // ---------- all detections ----------

  /** The indices below `n` with a property, in order. */
  function Where(p: nat -> bool, n: nat): (r: seq<nat>)
    ensures forall i :: i in r <==> 0 <= i < n && p(i)
  {
    if n == 0 then [] else Where(p, n - 1) + if p(n - 1) then [n - 1] else []
  }

  lemma {:induction false} WhereAscends(p: nat -> bool, n: nat)
    ensures Ascending(Where(p, n))
  {
    if n != 0 {
      WhereAscends(p, n - 1);
      var earlier := Where(p, n - 1);
      assert forall k :: 0 <= k < |earlier| ==> earlier[k] in earlier;
    }
  }

  function ResidualTest(oracle: Oracle, attempt: nat, ds: seq<Detection>, image: Image): nat -> bool {
    (i: nat) => i < |ds| && Residual(oracle, attempt, i, ds[i], image)
  }

  /** The indices of the detections that are still readable. */
  function ResidualOf(oracle: Oracle, attempt: nat, ds: seq<Detection>, image: Image): (r: seq<nat>)
    ensures forall i :: i in r <==> 0 <= i < |ds| && Residual(oracle, attempt, i, ds[i], image)
  {
    Where(ResidualTest(oracle, attempt, ds, image), |ds|)
  }

  function NotedOf(oracle: Oracle, attempt: nat, ds: seq<Detection>, image: Image, n: nat): (r: seq<Detection>)
    ensures |r| == |ds|
    ensures forall i :: 0 <= i < |ds| ==> r[i] == if i < n then Noted(oracle, attempt, i, ds[i], image) else ds[i]
  {
    seq(|ds|, i requires 0 <= i < |ds| => if i < n then Noted(oracle, attempt, i, ds[i], image) else ds[i])
  }

  method CheckOne(redacted: Image, d: Detection, oracle: Oracle, attempt: nat, i: nat) returns (outcome: CropOutcome)
    ensures outcome == Checked(oracle, attempt, i, d, redacted)
  {
    var needle := Strip(d.text);
    if |needle| < 3 {
      return CLEAN;
    }
    var rect := CropRect(d.box, redacted);
    if rect.right <= rect.left || rect.bottom <= rect.top {
      return CLEAN;
    }
    outcome := AssessCrop(d, oracle.ocr(attempt, i, redacted, rect), oracle.redetect);
  }

  method NoteOne(redacted: Image, detections: array<Detection>, oracle: Oracle, attempt: nat, i: nat)
    returns (residual: bool)
    requires i < detections.Length
    modifies detections
    ensures residual == Residual(oracle, attempt, i, old(detections[i]), redacted)
    ensures detections[..] == old(detections[..])[i := Noted(oracle, attempt, i, old(detections[i]), redacted)]
  {
    var d := detections[i];
    var outcome := CheckOne(redacted, d, oracle, attempt, i);
    assert old(detections[..])[i := d] == old(detections[..]);
    if outcome == FOUND {
      return true;
    }
    if outcome == UNKNOWN && d.riskLevel == CRITICAL {
      detections[i] := d.(needsReview := true);
      return true;
    }
    return false;
  }

  method FindResidual(redacted: Image, detections: array<Detection>, oracle: Oracle, attempt: nat)
    returns (residual: seq<nat>)
    modifies detections
    ensures residual == ResidualOf(oracle, attempt, old(detections[..]), redacted)
    ensures detections[..] == NotedOf(oracle, attempt, old(detections[..]), redacted, detections.Length)
  {
    ghost var before := detections[..];
    ghost var test := ResidualTest(oracle, attempt, before, redacted);
    residual := [];
    for i := 0 to detections.Length
      invariant residual == Where(test, i)
      invariant detections[..] == NotedOf(oracle, attempt, before, redacted, i)
    {
      OneMoreNoted(oracle, attempt, before, redacted, i);
      var found := NoteOne(redacted, detections, oracle, attempt, i);
      assert found == test(i);
      if found {
        residual := residual + [i];
      }
    }
  }

  lemma {:induction false} OneMoreNoted(oracle: Oracle, attempt: nat, ds: seq<Detection>, image: Image, i: nat)
    requires i < |ds|
    ensures NotedOf(oracle, attempt, ds, image, i + 1) ==
              NotedOf(oracle, attempt, ds, image, i)[i := Noted(oracle, attempt, i, ds[i], image)]
    ensures NotedOf(oracle, attempt, ds, image, i)[i] == ds[i]
  {}

  // ---------- the loop ----------

  datatype Ended = Ended(detections: seq<Detection>, image: Image, result: VerificationResult)

  function KindsAt(ds: seq<Detection>, indices: seq<nat>): set<Kind> {
    set i | i in indices && i < |ds| :: ds[i].kind
  }

  predicate AnyCritical(ds: seq<Detection>, indices: seq<nat>) {
    exists k :: 0 <= k < |indices| && indices[k] < |ds| && ds[indices[k]].riskLevel == CRITICAL
  }

  function Failed(ds: seq<Detection>, residual: seq<nat>, attempt: nat): VerificationResult {
    VerificationResult(FAILED, attempt, |residual|, AnyCritical(ds, residual), KindsAt(ds, residual))
  }

  /** The detections that the next attempt starts from. */
  function Next(oracle: Oracle, attempt: nat, ds: seq<Detection>, image: Image): (r: seq<Detection>)
    ensures |r| == |ds|
  {
    At(NotedOf(oracle, attempt, ds, image, |ds|), ResidualOf(oracle, attempt, ds, image), Escalated)
  }

  /** From `attempt` on. */
  function VerifyFrom(original: Image, ds: seq<Detection>, oracle: Oracle, attempt: nat, maxRetries: int): Ended
    decreases maxRetries - attempt
  {
    var image := Rendered(original, ds);
    if attempt > maxRetries then
      Ended(ds, image, VerificationResult(FAILED, maxRetries, -1, false, {}))
    else
      var residual := ResidualOf(oracle, attempt, ds, image);
      var noted := NotedOf(oracle, attempt, ds, image, |ds|);
      if residual == [] then Ended(noted, image, VerificationResult(PASSED, attempt, 0, false, {}))
      else if attempt == maxRetries then Ended(noted, image, Failed(noted, residual, attempt))
      else VerifyFrom(original, Next(oracle, attempt, ds, image), oracle, attempt + 1, maxRetries)
  }

  method VerifyAndFix(original: Image, detections: array<Detection>, oracle: Oracle, maxRetries: int)
    returns (redacted: Image, result: VerificationResult)
    modifies detections
    ensures Ended(detections[..], redacted, result) == VerifyFrom(original, old(detections[..]), oracle, 1, maxRetries)
  {
    redacted := Apply(original, detections);
    var attempt := 1;
    while attempt <= maxRetries
      invariant attempt >= 1 && redacted == Rendered(original, detections[..])
      invariant VerifyFrom(original, old(detections[..]), oracle, 1, maxRetries) ==
                VerifyFrom(original, detections[..], oracle, attempt, maxRetries)
    {
      ghost var before := detections[..];
      var residual := FindResidual(redacted, detections, oracle, attempt);
      WhereAscends(ResidualTest(oracle, attempt, before, redacted), |before|);
      assert forall k :: 0 <= k < |residual| ==> residual[k] in residual;
      Unrolled(original, before, oracle, attempt, maxRetries, redacted, residual, detections[..]);
      if residual == [] {
        return redacted, VerificationResult(PASSED, attempt, 0, false, {});
      }
      if attempt == maxRetries {
        result := ReportFailure(detections, residual, attempt);
        return redacted, result;
      }
      EscalateAll(detections, residual);
      redacted := Apply(original, detections);
      attempt := attempt + 1;
    }
    return redacted, VerificationResult(FAILED, maxRetries, -1, false, {});
  }

  /** One attempt of the loop. */
  lemma {:induction false} Unrolled(original: Image, ds: seq<Detection>, oracle: Oracle, attempt: nat, maxRetries: int,
                                    image: Image, residual: seq<nat>, noted: seq<Detection>)
    requires attempt <= maxRetries && image == Rendered(original, ds)
    requires residual == ResidualOf(oracle, attempt, ds, image) && noted == NotedOf(oracle, attempt, ds, image, |ds|)
    ensures VerifyFrom(original, ds, oracle, attempt, maxRetries) ==
            (if residual == [] then Ended(noted, image, VerificationResult(PASSED, attempt, 0, false, {}))
             else if attempt == maxRetries then Ended(noted, image, Failed(noted, residual, attempt))
             else VerifyFrom(original, At(noted, residual, Escalated), oracle, attempt + 1, maxRetries))
  {}

  method ReportFailure(detections: array<Detection>, residual: seq<nat>, attempt: nat)
    returns (result: VerificationResult)
    requires forall k :: 0 <= k < |residual| ==> residual[k] < detections.Length
    ensures result == Failed(detections[..], residual, attempt)
  {
    var critical := false;
    var kinds := {};
    for k := 0 to |residual|
      invariant critical == AnyCritical(detections[..], residual[..k])
      invariant kinds == KindsAt(detections[..], residual[..k])
    {
      assert residual[..k + 1] == residual[..k] + [residual[k]];
      OneMoreCritical(detections[..], residual, k);
      critical := critical || detections[residual[k]].riskLevel == CRITICAL;
      kinds := kinds + {detections[residual[k]].kind};
    }
    assert residual[..|residual|] == residual;
    result := VerificationResult(FAILED, attempt, |residual|, critical, kinds);
  }

  lemma {:induction false} OneMoreCritical(ds: seq<Detection>, residual: seq<nat>, k: nat)
    requires k < |residual| && residual[k] < |ds|
    ensures AnyCritical(ds, residual[..k + 1]) <==>
              AnyCritical(ds, residual[..k]) || ds[residual[k]].riskLevel == CRITICAL
  {
    if AnyCritical(ds, residual[..k]) {
      var j :| 0 <= j < k && residual[..k][j] < |ds| && ds[residual[..k][j]].riskLevel == CRITICAL;
      assert residual[..k + 1][j] == residual[..k][j];
    }
    if ds[residual[k]].riskLevel == CRITICAL {
      assert residual[..k + 1][k] == residual[k];
    }
    if AnyCritical(ds, residual[..k + 1]) {
      var j :| 0 <= j < k + 1 && residual[..k + 1][j] < |ds| && ds[residual[..k + 1][j]].riskLevel == CRITICAL;
      assert j < k ==> residual[..k][j] == residual[..k + 1][j];
    }
  }

  method EscalateAll(detections: array<Detection>, residual: seq<nat>)
    requires Ascending(residual) && forall k :: 0 <= k < |residual| ==> residual[k] < detections.Length
    modifies detections
    ensures detections[..] == At(old(detections[..]), residual, Escalated)
  {
    ghost var before := detections[..];
    AtNone(before, Escalated);
    for k := 0 to |residual|
      invariant detections[..] == At(before, residual[..k], Escalated)
    {
      NotBefore(residual, k);
      AtOneMore(before, residual, k, Escalated);
      Escalate(detections, residual[k]);
    }
    assert residual[..|residual|] == residual;
  }
}
