/**
 Human review (maskguard/api/review_service.py): a submission and the trusted review
 context become the list of detections to redact.
 */
module ReviewService {
  import opened Models
  import opened PolicyDecisions
  import opened RiskScoring
  import Tokens = ReviewTokens

  datatype Verdict = ACCEPTED | REJECTED

  datatype ReviewItem = ReviewItem(
    detectionId: Option<string>, verdict: Option<Verdict>, reason: Option<string>,
    kind: Option<Kind>, box: Option<BoundingBox>, manual: bool)

  datatype Settings = Settings(maxReasonLength: int, minBoxWidth: int, minBoxHeight: int, maxAreaRatio: real)

  datatype Refusal = InvalidReview | UnknownDetection | InvalidBBox | InvalidDetectionType

  datatype Review =
    | Refused(refusal: Refusal)
    | Reviewed(kept: seq<Detection>, keptIds: seq<string>, manual: seq<Detection>, manualIds: seq<string>,
               criticalRejected: bool)

  // ---------- what is refused ----------

  function KnownIds(ds: seq<Tokens.TokenDetection>): set<string> { set d | d in ds :: d.detectionId }

  function ItemProblem(item: ReviewItem, known: set<string>, settings: Settings): Option<Refusal> {
    match item.detectionId
    case Some(id) =>
      if id !in known then Some(UnknownDetection)
      else if item.verdict.None? then Some(InvalidReview)
      else if item.verdict.value.REJECTED? && item.reason.Some? &&
        |item.reason.value| > settings.maxReasonLength then Some(InvalidReview)
      else None
    case None => if item.manual then None else Some(InvalidReview)
  }

  predicate Reviewable(kind: Kind) {
    kind.TaiwanID? || kind.Passport? || kind.BankAccount? || kind.CreditCard? || kind.SecretKeyValue? ||
      kind.BearerToken? ||
    kind.JWT? || kind.Email? || kind.Phone? || kind.PersonalName? || kind.Address?
  }

  function BoxProblem(b: BoundingBox, context: Tokens.ReviewContext, settings: Settings): Option<Refusal> {
    var imageArea := context.imageWidth * context.imageHeight;
    if b.x < 0 || b.y < 0 then Some(InvalidBBox)
    else if b.width <= 0 || b.height <= 0 then Some(InvalidBBox)
    else if b.Right() > context.imageWidth || b.Bottom() > context.imageHeight then Some(InvalidBBox)
    else if b.width < settings.minBoxWidth || b.height < settings.minBoxHeight then Some(InvalidBBox)
    else if imageArea > 0 &&
      (b.width * b.height) as real > imageArea as real * settings.maxAreaRatio then Some(InvalidBBox)
    else None
  }

  function ManualProblem(item: ReviewItem, context: Tokens.ReviewContext, settings: Settings): Option<Refusal> {
    if item.kind.None? || !Reviewable(item.kind.value) then Some(InvalidDetectionType)
    else if item.box.None? then Some(InvalidReview)
    else BoxProblem(item.box.value, context, settings)
  }

  function First<T, U>(s: seq<T>, f: T -> Option<U>): Option<U> {
    if s == [] then None
    else
      var earlier := First(s[..|s| - 1], f);
      if earlier.Some? then earlier else f(s[|s| - 1])
  }

  // ---------- the decisions and what is kept ----------

  function Decisions(items: seq<ReviewItem>): map<string, Verdict> {
    if items == [] then map[]
    else
      var last, front := items[|items| - 1], Decisions(items[..|items| - 1]);
      if last.detectionId.Some? &&
        last.verdict.Some? then front[last.detectionId.value := last.verdict.value] else front
  }

  function ManualItems(items: seq<ReviewItem>): seq<ReviewItem> {
    if items == [] then []
    else
      var last := items[|items| - 1];
      ManualItems(items[..|items| - 1]) + if last.detectionId.None? && last.manual then [last] else []
  }

  predicate RejectedIn(decisions: map<string, Verdict>, d: Tokens.TokenDetection) {
    d.detectionId in decisions && decisions[d.detectionId] == REJECTED
  }

  /** A rejection is honoured for anything that is not intrinsically critical. */
  predicate Dropped(decisions: map<string, Verdict>, d: Tokens.TokenDetection) {
    RejectedIn(decisions, d) && !IntrinsicCritical(d.kind)
  }

  function Rebuilt(d: Tokens.TokenDetection, decisions: map<string, Verdict>): Detection {
    var needsReview :=
      if d.detectionId !in decisions then d.needsReview else decisions[d.detectionId] == REJECTED;
    Detection(d.kind, "", d.confidence, d.box, 0.0, d.riskLevel, d.action, [ReviewKeptLayer], false, needsReview)
  }

  function KeptTokens(ds: seq<Tokens.TokenDetection>, decisions: map<string, Verdict>): seq<Tokens.TokenDetection> {
    if ds == [] then []
    else
      var last := ds[|ds| - 1];
      KeptTokens(ds[..|ds| - 1], decisions) + if Dropped(decisions, last) then [] else [last]
  }

  function RebuiltAll(ds: seq<Tokens.TokenDetection>, decisions: map<string, Verdict>): (r: seq<Detection>)
    ensures |r| == |ds| && forall i :: 0 <= i < |ds| ==> r[i] == Rebuilt(ds[i], decisions)
  {
    seq(|ds|, i requires 0 <= i < |ds| => Rebuilt(ds[i], decisions))
  }

  function Ids(ds: seq<Tokens.TokenDetection>): (r: seq<string>)
    ensures |r| == |ds| && forall i :: 0 <= i < |ds| ==> r[i] == ds[i].detectionId
  {
    seq(|ds|, i requires 0 <= i < |ds| => ds[i].detectionId)
  }

  /** A critical finding was rejected. */
  predicate CriticalRejected(ds: seq<Tokens.TokenDetection>, decisions: map<string, Verdict>) {
    exists i :: 0 <= i < |ds| && RejectedIn(decisions, ds[i]) && IntrinsicCritical(ds[i].kind)
  }

  // ---------- manual additions ----------

  function ManualDetection(kind: Kind, box: BoundingBox): Detection {
    Detection(kind, "", 1.0, box, 0.0, LOW, NONE, [ManualReviewLayer], false, false)
  }

  predicate Redundant(kept: seq<Detection>, kind: Kind, box: BoundingBox) {
    exists i :: 0 <= i < |kept| && kept[i].kind == kind && kept[i].box.Overlaps(box)
  }

  function Additions(manual: seq<ReviewItem>, kept: seq<Detection>): seq<Detection> {
    if manual == [] then []
    else
      var last, front := manual[|manual| - 1], Additions(manual[..|manual| - 1], kept);
      if last.kind.None? || last.box.None? || Redundant(kept, last.kind.value, last.box.value) then front
      else front + [ManualDetection(last.kind.value, last.box.value)]
  }

  function UpTo(n: nat): (r: seq<nat>)
    ensures |r| == n && forall i :: 0 <= i < n ==> r[i] == i
  {
    seq(n, i => i)
  }

  /** The additions after the risk and the policy engine: the list returned by the risk
      engine is not used, so the policy engine sees every addition. */
  ghost function AdditionsDecided(ds: seq<Detection>, policy: Policy): (r: seq<Detection>)
    ensures |r| == |ds|
  {
    DecidedList(ScoredList(ds, []), UpTo(|ds|), policy)
  }

  /** `r` is what the review of `items` must come to. */
  ghost predicate Outcomes(context: Tokens.ReviewContext, items: seq<ReviewItem>, settings: Settings,
                           width: int, height: int, policy: Policy, newId: nat -> string, r: Review)
  {
    var itemProblem := First(items, item => ItemProblem(item, KnownIds(context.detections), settings));
    var manualProblem := First(ManualItems(items), item => ManualProblem(item, context, settings));
    if width != context.imageWidth || height != context.imageHeight then r == Refused(InvalidReview)
    else if itemProblem.Some? then r == Refused(itemProblem.value)
    else if manualProblem.Some? then r == Refused(manualProblem.value)
    else
      && r.Reviewed?
      && var decisions := Decisions(items);
         var tokens := KeptTokens(context.detections, decisions);
         && r.kept == RebuiltAll(tokens, decisions) && r.keptIds == Ids(tokens)
         && r.criticalRejected == CriticalRejected(context.detections, decisions)
         && AddedBy(ManualItems(items), r.kept, policy, newId, r.manual, r.manualIds)
  }

  ghost predicate AddedBy(items: seq<ReviewItem>, kept: seq<Detection>, policy: Policy, newId: nat -> string,
                          manual: seq<Detection>, manualIds: seq<string>)
  {
    var decided := AdditionsDecided(Additions(items, kept), policy);
    Picked(decided, Redacted(decided, UpTo(|decided|)), newId, manual, manualIds)
  }

  ghost predicate Picked(decided: seq<Detection>, left: seq<nat>, newId: nat -> string,
                         manual: seq<Detection>, manualIds: seq<string>)
  {
    && |manual| == |manualIds| == |left|
    && (forall k :: 0 <= k < |left| ==>
          left[k] < |decided| && manual[k] == decided[left[k]] && manualIds[k] == newId(left[k]))
  }

  // ---------- the service ----------

  method ProcessReview(context: Tokens.ReviewContext, items: seq<ReviewItem>, settings: Settings,
                       width: int, height: int, policy: Policy, newId: nat -> string)
    returns (r: Review)
    ensures Outcomes(context, items, settings, width, height, policy, newId, r)
  {
    if width != context.imageWidth || height != context.imageHeight {
      return Refused(InvalidReview);
    }
    var refusal, decisions, manualItems := ResolveItems(items, KnownIds(context.detections), settings);
    if refusal.Some? {
      return Refused(refusal.value);
    }
    var kept, keptIds, critical := RebuildKept(context.detections, decisions);
    var problem, added := ResolveManual(manualItems, kept, context, settings);
    if problem.Some? {
      return Refused(problem.value);
    }
    var manual, manualIds := DecideManual(added, policy, newId);
    r := Reviewed(kept, keptIds, manual, manualIds, critical);
  }

  method ResolveItems(items: seq<ReviewItem>, known: set<string>, settings: Settings)
    returns (refusal: Option<Refusal>, decisions: map<string, Verdict>, manual: seq<ReviewItem>)
    ensures refusal == First(items, item => ItemProblem(item, known, settings))
    ensures refusal.None? ==> decisions == Decisions(items) && manual == ManualItems(items)
  {
    ghost var f := item => ItemProblem(item, known, settings);
    decisions, manual := map[], [];
    for k := 0 to |items|
      invariant First(items[..k], f).None?
      invariant decisions == Decisions(items[..k]) && manual == ManualItems(items[..k])
    {
      var item := items[k];
      OneMore(items, k);
      if item.detectionId.Some? {
        if item.detectionId.value !in known {
          FirstFound(items, k, f);
          return Some(UnknownDetection), decisions, manual;
        }
        if item.verdict.None? {
          FirstFound(items, k, f);
          return Some(InvalidReview), decisions, manual;
        }
        if item.verdict.value == REJECTED {
          var length := if item.reason.Some? then |item.reason.value| else 0;
          if item.reason.Some? && length > settings.maxReasonLength {
            FirstFound(items, k, f);
            return Some(InvalidReview), decisions, manual;
          }
        }
        decisions := decisions[item.detectionId.value := item.verdict.value];
      } else if item.manual {
        manual := manual + [item];
      } else {
        FirstFound(items, k, f);
        return Some(InvalidReview), decisions, manual;
      }
    }
    assert items[..|items|] == items;
    refusal := None;
  }

  lemma {:induction false} OneMore<T>(s: seq<T>, k: nat)
    requires k < |s|
    ensures s[..k + 1][..k] == s[..k] && s[..k + 1][k] == s[k] && |s[..k + 1]| == k + 1
  {}

  lemma {:induction false} FirstFound<T, U>(s: seq<T>, k: nat, f: T -> Option<U>)
    requires k < |s| && First(s[..k], f).None? && f(s[k]).Some?
    ensures First(s, f) == f(s[k])
    decreases |s|
  {
    if k == |s| - 1 {
    } else {
      assert s[..|s| - 1][..k] == s[..k];
      FirstFound(s[..|s| - 1], k, f);
    }
  }

  method RebuildKept(ds: seq<Tokens.TokenDetection>, decisions: map<string, Verdict>)
    returns (kept: seq<Detection>, ids: seq<string>, critical: bool)
    ensures kept == RebuiltAll(KeptTokens(ds, decisions), decisions) && ids == Ids(KeptTokens(ds, decisions))
    ensures critical == CriticalRejected(ds, decisions)
  {
    kept, ids, critical := [], [], false;
    for k := 0 to |ds|
      invariant kept == RebuiltAll(KeptTokens(ds[..k], decisions), decisions)
      invariant ids == Ids(KeptTokens(ds[..k], decisions))
      invariant critical == CriticalRejected(ds[..k], decisions)
    {
      var d := ds[k];
      OneMore(ds, k);
      OneMoreRejected(ds, k, decisions);
      var rejected := d.detectionId in decisions && decisions[d.detectionId] == REJECTED;
      if rejected && !IntrinsicCritical(d.kind) {
        continue;
      }
      var needsReview := d.needsReview;
      if rejected {
        critical := true;
        needsReview := true;
      } else if d.detectionId in decisions {
        needsReview := false;
      }
      kept := kept + [Detection(d.kind, "", d.confidence, d.box, 0.0, d.riskLevel, d.action,
                                [ReviewKeptLayer], false, needsReview)];
      ids := ids + [d.detectionId];
    }
    assert ds[..|ds|] == ds;
  }

  lemma {:induction false} OneMoreRejected(ds: seq<Tokens.TokenDetection>, k: nat, decisions: map<string, Verdict>)
    requires k < |ds|
    ensures CriticalRejected(ds[..k + 1], decisions) <==>
            CriticalRejected(ds[..k], decisions) || (RejectedIn(decisions, ds[k]) && IntrinsicCritical(ds[k].kind))
  {
    if CriticalRejected(ds[..k], decisions) {
      var i :| 0 <= i < k && RejectedIn(decisions, ds[..k][i]) && IntrinsicCritical(ds[..k][i].kind);
      assert ds[..k + 1][i] == ds[..k][i];
    }
    if RejectedIn(decisions, ds[k]) && IntrinsicCritical(ds[k].kind) {
      assert ds[..k + 1][k] == ds[k];
    }
    if CriticalRejected(ds[..k + 1], decisions) {
      var i :| 0 <= i < k + 1 && RejectedIn(decisions, ds[..k + 1][i]) && IntrinsicCritical(ds[..k + 1][i].kind);
      assert i < k ==> ds[..k][i] == ds[..k + 1][i];
    }
  }

  method ResolveManual(items: seq<ReviewItem>, kept: seq<Detection>, context: Tokens.ReviewContext, settings: Settings)
    returns (refusal: Option<Refusal>, added: seq<Detection>)
    ensures refusal == First(items, item => ManualProblem(item, context, settings))
    ensures refusal.None? ==> added == Additions(items, kept)
  {
    ghost var f := item => ManualProblem(item, context, settings);
    added := [];
    for k := 0 to |items|
      invariant First(items[..k], f).None? && added == Additions(items[..k], kept)
    {
      var item := items[k];
      OneMore(items, k);
      if item.kind.None? || !Reviewable(item.kind.value) {
        FirstFound(items, k, f);
        return Some(InvalidDetectionType), added;
      }
      if item.box.None? {
        FirstFound(items, k, f);
        return Some(InvalidReview), added;
      }
      var problem := BoxProblem(item.box.value, context, settings);
      if problem.Some? {
        FirstFound(items, k, f);
        return problem, added;
      }
      if exists i :: 0 <= i < |kept| && kept[i].kind == item.kind.value && kept[i].box.Overlaps(item.box.value) {
        continue;
      }
      added := added + [ManualDetection(item.kind.value, item.box.value)];
    }
    assert items[..|items|] == items;
    refusal := None;
  }

  method DecideManual(added: seq<Detection>, policy: Policy, newId: nat -> string)
    returns (manual: seq<Detection>, ids: seq<string>)
    ensures var decided := AdditionsDecided(added, policy);
            Picked(decided, Redacted(decided, UpTo(|decided|)), newId, manual, ids)
  {
    var list := new Detection[|added|](i requires 0 <= i < |added| => added[i]);
    assert list[..] == added;
    var merged := Score(list, []);
    var left := Decide(list, UpTo(|added|), policy);
    manual, ids := PickLeft(list, left, newId);
  }

  method PickLeft(list: array<Detection>, left: seq<nat>, newId: nat -> string)
    returns (manual: seq<Detection>, ids: seq<string>)
    requires forall i :: i in left ==> i < list.Length
    ensures Picked(list[..], left, newId, manual, ids)
  {
    manual, ids := [], [];
    for k := 0 to |left|
      invariant Picked(list[..], left[..k], newId, manual, ids)
    {
      assert left[k] in left;
      manual := manual + [list[left[k]]];
      ids := ids + [newId(left[k])];
    }
    assert left[..|left|] == left;
  }
}
