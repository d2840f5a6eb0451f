/**
 The risk engine (maskguard/risk/risk_engine.py, maskguard/risk/intrinsic_critical.py).
 */
module RiskScoring {
  import opened DetectionMerging
  import opened Models

  // ---------- intrinsically critical types ----------

  predicate IntrinsicCritical(kind: Kind) {
    kind.TaiwanID? || kind.Passport? || kind.BankAccount? || kind.CreditCard? || kind.SecretKeyValue? ||
      kind.BearerToken? || kind.JWT?
  }

  const CRITICAL_FLOOR := 0.85

  predicate Sufficient(layer: Layer) { layer.RegexLayer? || layer.ContextLayer? || layer.UserRuleLayer? }

  predicate HasSufficientEvidence(d: Detection) {
    !d.unknown && exists i :: 0 <= i < |d.sourceLayers| && Sufficient(d.sourceLayers[i])
  }

  function IntrinsicFloorFor(d: Detection): Option<real> {
    if !IntrinsicCritical(d.kind) then None
    else if !HasSufficientEvidence(d) then None
    else Some(CRITICAL_FLOOR)
  }

  // ---------- scores ----------

  function BaseScore(kind: Kind): real {
    match kind
    case SecretKeyValue => 0.95
    case JWT => 0.95
    case BearerToken => 0.9
    case OpaqueSecret => 0.75
    case CreditCard => 0.9
    case TaiwanID => 0.9
    case Passport => 0.88
    case BankAccount => 0.85
    case PersonalName => 0.55
    case Phone => 0.55
    case PhoneTW => 0.55
    case Address => 0.55
    case Email => 0.55
    case Birthday => 0.45
    case EmployeeID => 0.45
    case CustomerID => 0.45
    case URL => 0.25
    case IPAddress => 0.25
    case UnknownKind => 0.3
    case UserRule(_) => 0.3
    case OtherKind(_) => 0.3
  }

  function RealMax(a: real, b: real): real { if a <= b then b else a }

  function RealMin(a: real, b: real): real { if a <= b then a else b }

  predicate SameLine(a: BoundingBox, b: BoundingBox) { Min(a.Bottom(), b.Bottom()) > Max(a.y, b.y) }

  function Boost(critical: bool): real { if critical then 0.2 else 0.08 }

  /** What the keyword hits on the line of `box` add. */
  function Boosts(hits: seq<KeywordHit>, box: BoundingBox): real {
    if hits == [] then 0.0
    else
      var h := hits[|hits| - 1];
      Boosts(hits[..|hits| - 1], box) + if SameLine(box, h.box) then Boost(h.critical) else 0.0
  }

  function RiskScore(d: Detection, hits: seq<KeywordHit>): real {
    var score := RealMin(BaseScore(d.kind) * RealMax(d.confidence, 0.3) + Boosts(hits, d.box), 1.0);
    match IntrinsicFloorFor(d)
    case None => score
    case Some(floor) => RealMax(score, floor)
  }

  /** An explicit user rule keeps its own risk and action. */
  predicate UserDecided(d: Detection) { d.action != NONE && UserRuleLayer in d.sourceLayers }

  function Scored(d: Detection, hits: seq<KeywordHit>): Detection {
    if UserDecided(d) then d
    else d.(riskScore := RiskScore(d, hits), riskLevel := RiskLevel.FromScore(RiskScore(d, hits)))
  }

  // ---------- scoring a list in place ----------

  /** `s` with `f` applied at `indices` only. */
  function At<T>(s: seq<T>, indices: seq<nat>, f: T -> T): (r: seq<T>)
    ensures |r| == |s|
    ensures forall i :: 0 <= i < |s| ==> r[i] == if i in indices then f(s[i]) else s[i]
  {
    seq(|s|, i requires 0 <= i < |s| => if i in indices then f(s[i]) else s[i])
  }

  lemma {:induction false} AtOneMore<T>(s: seq<T>, indices: seq<nat>, k: nat, f: T -> T)
    requires k < |indices| && indices[k] < |s| && indices[k] !in indices[..k]
    ensures At(s, indices[..k + 1], f) == At(s, indices[..k], f)[indices[k] := f(s[indices[k]])]
    ensures At(s, indices[..k], f)[indices[k]] == s[indices[k]]
  {
    assert indices[..k + 1] == indices[..k] + [indices[k]];
  }

  lemma {:induction false} AtNone<T>(s: seq<T>, f: T -> T)
    ensures At(s, [], f) == s
  {}

  lemma {:induction false} NotBefore(indices: seq<nat>, k: nat)
    requires Ascending(indices) && k < |indices|
    ensures indices[k] !in indices[..k]
  {}

  /** The detections after `RiskEngine.score`, and the representatives it returns. */
  ghost function ScoredList(ds: seq<Detection>, hits: seq<KeywordHit>): (r: seq<Detection>)
    ensures |r| == |ds|
  {
    var m := Merged(ds, |ds|);
    At(m.values, m.reps, d => Scored(d, hits))
  }

  method Score(detections: array<Detection>, hits: seq<KeywordHit>) returns (merged: seq<nat>)
    modifies detections
    ensures detections[..] == ScoredList(old(detections[..]), hits)
    ensures merged == Merged(old(detections[..]), detections.Length).reps
  {
    ghost var before := detections[..];
    ghost var f := d => Scored(d, hits);
    merged := MergeOverlapping(detections);
    ghost var values := detections[..];
    MergingIndexes(before, |before|);
    AtNone(values, f);
    for k := 0 to |merged|
      invariant detections[..] == At(values, merged[..k], f)
    {
      NotBefore(merged, k);
      AtOneMore(values, merged, k, f);
      ScoreOne(detections, merged[k], hits);
    }
    assert merged[..|merged|] == merged;
  }

  method ComputeScore(d: Detection, hits: seq<KeywordHit>) returns (score: real)
    ensures score == RiskScore(d, hits)
  {
    score := BaseScore(d.kind) * RealMax(d.confidence, 0.3);
    ghost var base := score;
    for k := 0 to |hits|
      invariant score == base + Boosts(hits[..k], d.box)
    {
      BoostsOneMore(hits, k, d.box);
      if SameLine(d.box, hits[k].box) {
        score := score + Boost(hits[k].critical);
      }
    }
    assert hits[..|hits|] == hits;
    score := RealMin(score, 1.0);
    var floor := IntrinsicFloorFor(d);
    if floor.Some? {
      score := RealMax(score, floor.value);
    }
  }

  method ScoreOne(detections: array<Detection>, i: nat, hits: seq<KeywordHit>)
    requires i < detections.Length
    modifies detections
    ensures detections[..] == old(detections[..])[i := Scored(old(detections[i]), hits)]
  {
    var d := detections[i];
    if d.action != NONE && UserRuleLayer in d.sourceLayers {
      assert detections[..] == old(detections[..])[i := d];
      return;
    }
    var score := ComputeScore(d, hits);
    detections[i] := detections[i].(riskScore := score);
    detections[i] := detections[i].(riskLevel := RiskLevel.FromScore(score));
    assert detections[..] == old(detections[..])[i := Scored(d, hits)];
  }

  lemma {:induction false} BoostsOneMore(hits: seq<KeywordHit>, k: nat, box: BoundingBox)
    requires k < |hits|
    ensures Boosts(hits[..k + 1], box) ==
              Boosts(hits[..k], box) + if SameLine(box, hits[k].box) then Boost(hits[k].critical) else 0.0
  {
    assert hits[..k + 1][..k] == hits[..k];
  }

  // ---------- what scoring promises ----------

  /** `some` is `all` with any entries left out. */
  predicate Sublist<T(==)>(some: seq<T>, all: seq<T>) {
    if some == [] then true
    else if all == [] then false
    else
      || (some[|some| - 1] == all[|all| - 1] && Sublist(some[..|some| - 1], all[..|all| - 1]))
      || Sublist(some, all[..|all| - 1])
  }

  lemma {:induction false} MoreHitsBoostMore(hits: seq<KeywordHit>, more: seq<KeywordHit>, box: BoundingBox)
    requires Sublist(hits, more)
    ensures 0.0 <= Boosts(hits, box) <= Boosts(more, box)
    decreases |more|
  {
    if more == [] {
    } else if hits == [] {
      MoreHitsBoostMore([], more[..|more| - 1], box);
    } else if hits[|hits| - 1] == more[|more| - 1] && Sublist(hits[..|hits| - 1], more[..|more| - 1]) {
      MoreHitsBoostMore(hits[..|hits| - 1], more[..|more| - 1], box);
    } else {
      MoreHitsBoostMore(hits, more[..|more| - 1], box);
    }
  }

  lemma {:induction false} ProductGrows(base: real, a: real, b: real)
    requires 0.0 <= base && a <= b
    ensures base * a <= base * b
  {
    assert base * b - base * a == base * (b - a);
  }

  lemma {:induction false} LevelGrows(a: real, b: real)
    requires a <= b
    ensures RiskLevel.FromScore(a).Rank() <= RiskLevel.FromScore(b).Rank()
  {}

  lemma {:induction false} ScoreGrows(d: Detection, confidence: real, hits: seq<KeywordHit>, more: seq<KeywordHit>)
    requires d.confidence <= confidence && Sublist(hits, more)
    ensures RiskScore(d, hits) <= RiskScore(d.(confidence := confidence), more)
  {
    MoreHitsBoostMore(hits, more, d.box);
    ProductGrows(BaseScore(d.kind), RealMax(d.confidence, 0.3), RealMax(confidence, 0.3));
    assert IntrinsicFloorFor(d) == IntrinsicFloorFor(d.(confidence := confidence));
  }

  /** More confidence and more keyword hits never lower the risk level of a detection that
      stays where it is. */
  lemma {:induction false} RaisingNeverLowers(d: Detection, confidence: real, hits: seq<KeywordHit>,
        more: seq<KeywordHit>)
    requires d.confidence <= confidence && Sublist(hits, more)
    ensures Scored(d, hits).riskLevel.Rank() <= Scored(d.(confidence := confidence), more).riskLevel.Rank()
  {
    ScoreGrows(d, confidence, hits, more);
    LevelGrows(RiskScore(d, hits), RiskScore(d.(confidence := confidence), more));
  }

  /** Whatever the engine scores is scored between 0 and 1, once it clears the floor of the
      base scores; the intrinsic floor always reaches the critical band. */
  lemma {:induction false} ScoreInUnitInterval(d: Detection, hits: seq<KeywordHit>)
    ensures 0.0 <= RiskScore(d, hits) <= 1.0
    ensures IntrinsicFloorFor(d).Some? ==> RiskLevel.FromScore(RiskScore(d, hits)) == CRITICAL
  {
    MoreHitsBoostMore([], hits, d.box);
    ProductGrows(BaseScore(d.kind), 0.0, RealMax(d.confidence, 0.3));
  }
}
