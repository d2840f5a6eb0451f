/**
 The policy engine (maskguard/policy/policy_engine.py), and what scoring followed by it
 guarantees for whatever the detectors report.
 */
module PolicyDecisions {
  import opened DetectionMerging
  import opened MergedPlaces
  import opened Models
  import opened RiskScoring

  datatype Policy = Policy(criticalAction: string, strict: bool)

  // ---------- one decision ----------

  predicate AlwaysFailSafe(kind: Kind) {
    kind.SecretKeyValue? || kind.JWT? || kind.BearerToken? || kind.OpaqueSecret? ||
    kind.CreditCard? || kind.TaiwanID? || kind.Passport? || kind.BankAccount?
  }

  /** Lower case, as far as the ASCII aliases can tell: the Kelvin sign becomes a `k`. */
  function LowerChar(c: char): char {
    if 'A' <= c <= 'Z' then (c as int + 32) as char
    else if c == '\U{212A}' then 'k'
    else c
  }

  function Lower(s: string): string { seq(|s|, i requires 0 <= i < |s| => LowerChar(s[i])) }

  /** The configured action for critical findings; an unknown name is a full mask. */
  function Alias(name: string): RedactionAction {
    if name == "blur" then BLUR
    else if name == "pixelate" then PIXELATE
    else if name == "partial_mask" then PARTIAL_MASK
    else FULL_MASK
  }

  function ActionFor(level: RiskLevel, policy: Policy): RedactionAction {
    match level
    case CRITICAL => if policy.strict then FULL_MASK else Alias(Lower(policy.criticalAction))
    case HIGH => BLUR
    case MEDIUM => PARTIAL_MASK
    case LOW => NONE
  }

  predicate Uncertain(d: Detection) {
    d.unknown && (AlwaysFailSafe(d.kind) || d.riskLevel.HIGH? || d.riskLevel.CRITICAL?)
  }

  function Decided(d: Detection, policy: Policy): Detection {
    if UserDecided(d) then d
    else if Uncertain(d) then d.(needsReview := true, action := FULL_MASK)
    else d.(action := ActionFor(d.riskLevel, policy))
  }

  // ---------- deciding a list in place ----------

  function DecidedList(ds: seq<Detection>, indices: seq<nat>, policy: Policy): (r: seq<Detection>)
    ensures |r| == |ds|
  {
    At(ds, indices, d => Decided(d, policy))
  }

  /** The indices left to redact. */
  function Redacted(ds: seq<Detection>, indices: seq<nat>): (kept: seq<nat>)
    ensures forall i :: i in kept <==> i in indices && i < |ds| && ds[i].action != NONE
  {
    if indices == [] then []
    else
      var last := indices[|indices| - 1];
      Redacted(ds, indices[..|indices| - 1]) + if last < |ds| && ds[last].action != NONE then [last] else []
  }

  method Decide(detections: array<Detection>, indices: seq<nat>, policy: Policy) returns (kept: seq<nat>)
    requires Ascending(indices) && forall k :: 0 <= k < |indices| ==> indices[k] < detections.Length
    modifies detections
    ensures detections[..] == DecidedList(old(detections[..]), indices, policy)
    ensures kept == Redacted(detections[..], indices)
  {
    ghost var before := detections[..];
    ghost var f := d => Decided(d, policy);
    AtNone(before, f);
    for k := 0 to |indices|
      invariant detections[..] == At(before, indices[..k], f)
    {
      NotBefore(indices, k);
      AtOneMore(before, indices, k, f);
      DecideOne(detections, indices[k], policy);
    }
    assert indices[..|indices|] == indices;
    kept := [];
    for k := 0 to |indices|
      invariant kept == Redacted(detections[..], indices[..k]) && detections[..] == At(before, indices, f)
    {
      assert indices[..k + 1][..k] == indices[..k];
      if detections[indices[k]].action != NONE {
        kept := kept + [indices[k]];
      }
    }
  }

  method DecideOne(detections: array<Detection>, i: nat, policy: Policy)
    requires i < detections.Length
    modifies detections
    ensures detections[..] == old(detections[..])[i := Decided(old(detections[i]), policy)]
  {
    var d := detections[i];
    if d.action != NONE && UserRuleLayer in d.sourceLayers {
      assert detections[..] == old(detections[..])[i := d];
      return;
    }
    if d.unknown && (AlwaysFailSafe(d.kind) || d.riskLevel == HIGH || d.riskLevel == CRITICAL) {
      detections[i] := detections[i].(needsReview := true);
      detections[i] := detections[i].(action := FULL_MASK);
      return;
    }
    if d.riskLevel == CRITICAL {
      detections[i] := detections[i].(action := Alias(Lower(policy.criticalAction)));
    } else {
      var action := if d.riskLevel == HIGH then BLUR else if d.riskLevel == MEDIUM then PARTIAL_MASK else NONE;
      detections[i] := detections[i].(action := action);
    }
    if policy.strict && (d.riskLevel == HIGH || d.riskLevel == CRITICAL) {
      if d.riskLevel == CRITICAL {
        detections[i] := detections[i].(action := FULL_MASK);
      }
    }
  }

  /** The values once scored and decided. */
  ghost function Outcome(ds: seq<Detection>, hits: seq<KeywordHit>, policy: Policy): (r: seq<Detection>)
    ensures |r| == |ds|
  {
    DecidedList(ScoredList(ds, hits), Merged(ds, |ds|).reps, policy)
  }

  /** The middle of `Pipeline.process`. */
  method ScoreAndDecide(detections: array<Detection>, hits: seq<KeywordHit>, policy: Policy) returns (kept: seq<nat>)
    modifies detections
    ensures detections[..] == Outcome(old(detections[..]), hits, policy)
    ensures kept == Redacted(detections[..], Merged(old(detections[..]), detections.Length).reps)
  {
    ghost var before := detections[..];
    var merged := Score(detections, hits);
    MergingIndexes(before, |before|);
    kept := Decide(detections, merged, policy);
  }

  // ---------- what the detectors report ----------

  /** A finding as the detectors of the repository build it. */
  predicate ByDetector(d: Detection) {
    |d.sourceLayers| == 1 &&
    match d.sourceLayers[0]
    case RegexLayer => !d.unknown && d.action == NONE && !d.kind.UserRule?
    case ContextLayer => !d.unknown && d.action == NONE && !d.kind.UserRule?
    case CandidateLayer => d.unknown && d.action == NONE && (d.kind.Passport? || d.kind.BankAccount?)
    case AiLayer => d.unknown && d.action == NONE && (d.kind.PersonalName? || d.kind.OpaqueSecret?)
    case UserRuleLayer => !d.unknown && d.action != NONE && d.kind.UserRule?
    case ReviewKeptLayer => false
    case ManualReviewLayer => false
  }

  /** How confident each detector is of the types it reports. */
  function ReportedAt(layer: Layer, kind: Kind): Option<real> {
    match layer
    case RegexLayer =>
      (match kind
       case Email => Some(0.95)
       case JWT => Some(0.97)
       case BearerToken => Some(0.9)
       case SecretKeyValue => Some(0.9)
       case URL => Some(0.6)
       case TaiwanID => Some(0.85)
       case Phone => Some(0.85)
       case IPAddress => Some(0.4)
       case CreditCard => Some(0.93)
       case _ => None)
    case ContextLayer =>
      if kind.PersonalName? || kind.Phone? || kind.Address? || kind.Birthday? || kind.Email? || kind.TaiwanID? ||
        kind.Passport? ||
         kind.BankAccount? || kind.EmployeeID? || kind.CustomerID? || kind.UnknownKind? then Some(0.75) else None
    case CandidateLayer => if kind.Passport? || kind.BankAccount? then Some(0.5) else None
    case AiLayer => if kind.PersonalName? then Some(0.45) else if kind.OpaqueSecret? then Some(0.5) else None
    case UserRuleLayer => if kind.UserRule? then Some(0.9) else None
    case ReviewKeptLayer => None
    case ManualReviewLayer => None
  }

  /** The order in which the pipeline asks the detectors. */
  function Turn(layer: Layer): nat {
    match layer
    case RegexLayer => 0
    case ContextLayer => 1
    case CandidateLayer => 2
    case AiLayer => 3
    case UserRuleLayer => 4
    case ReviewKeptLayer => 5
    case ManualReviewLayer => 5
  }

  /** A list of findings as the pipeline collects it: each as its detector builds it, with the
      confidence of its detector, detector by detector. */
  ghost predicate Collected(ds: seq<Detection>) {
    && (forall k :: 0 <= k < |ds| ==>
          ByDetector(ds[k]) && ReportedAt(ds[k].sourceLayers[0], ds[k].kind) == Some(ds[k].confidence))
    && (forall i, j :: 0 <= i < j < |ds| ==> Turn(ds[i].sourceLayers[0]) <= Turn(ds[j].sourceLayers[0]))
  }

  /** Within a type, confidences never rise along such a list. */
  lemma {:induction false} ConfidencesNeverRise(ds: seq<Detection>, i: nat, j: nat)
    requires Collected(ds) && i < j < |ds| && ds[i].kind == ds[j].kind
    ensures ds[i].confidence >= ds[j].confidence
  {
    LaterIsNoSurer(ds[i].sourceLayers[0], ds[j].sourceLayers[0], ds[i].kind);
  }

  lemma {:induction false} LaterIsNoSurer(a: Layer, b: Layer, kind: Kind)
    requires Turn(a) <= Turn(b) && ReportedAt(a, kind).Some? && ReportedAt(b, kind).Some?
    ensures ReportedAt(a, kind).value >= ReportedAt(b, kind).value
  {}

  /** So on the lists the pipeline collects, merging keeps every place. */
  lemma {:induction false} CollectedKeepPlaces(ds: seq<Detection>, m: Merge)
    requires Collected(ds) && m == Merged(ds, |ds|)
    ensures PlacesKept(ds, m)
  {
    forall i, j, k | 0 <= i < j < k < |ds| && ds[i].kind == ds[k].kind && ds[j].kind == ds[k].kind
      ensures !BeatsBoth(ds, i, j, k)
    {
      ConfidencesNeverRise(ds, i, k);
    }
    EveryPlaceKept(ds, m);
  }

  lemma {:induction false} LayersHold(ds: seq<Detection>, members: seq<nat>, layer: Layer)
    requires Within(members, |ds|)
    ensures layer in Layers(ds, members) <==> exists k :: 0 <= k < |members| && layer in ds[members[k]].sourceLayers
  {
    if members != [] {
      var front := members[..|members| - 1];
      LayersHold(ds, front, layer);
      if layer in Layers(ds, members) {
        if layer in Layers(ds, front) {
          var k :| 0 <= k < |front| && layer in ds[front[k]].sourceLayers;
          assert members[k] == front[k];
        }
      } else {
        forall k | 0 <= k < |members|
          ensures layer !in ds[members[k]].sourceLayers
        {
          assert k < |front| ==> front[k] == members[k];
        }
      }
    }
  }

  /** The layers of a group are exactly those of its members. */
  lemma {:induction false} GroupLayers(ds: seq<Detection>, members: seq<nat>, v: Detection, layer: Layer)
    requires Represents(ds, members, v)
    ensures layer in v.sourceLayers <==> exists k :: 0 <= k < |members| && layer in ds[members[k]].sourceLayers
  {
    if |members| == 1 {
      assert layer in ds[members[0]].sourceLayers <==> layer in v.sourceLayers;
    } else {
      LayersHold(ds, members, layer);
      DedupContents(Layers(ds, members));
    }
  }

  /** What merging keeps of the detectors' findings: a group that is not uncertain has a
      layer that can be trusted. */
  lemma {:induction false} EvidenceKept(ds: seq<Detection>, members: seq<nat>, v: Detection)
    requires Represents(ds, members, v) && forall k :: 0 <= k < |members| ==> ByDetector(ds[members[k]])
    ensures !v.unknown ==> HasSufficientEvidence(v)
  {
    if !v.unknown {
      var k :| 0 <= k < |members| && !ds[members[k]].unknown;
      var layer := ds[members[k]].sourceLayers[0];
      assert Sufficient(layer) && layer in ds[members[k]].sourceLayers;
      GroupLayers(ds, members, v, layer);
    }
  }

  lemma {:induction false} RulesStayApart(ds: seq<Detection>, members: seq<nat>, v: Detection)
    requires Represents(ds, members, v) && forall k :: 0 <= k < |members| ==> ByDetector(ds[members[k]])
    ensures UserDecided(v) <==> v.kind.UserRule?
  {
    GroupLayers(ds, members, v, UserRuleLayer);
    assert ds[members[0]].kind == v.kind && ByDetector(ds[members[0]]);
    if v.kind.UserRule? {
      assert ds[members[0]].sourceLayers == [UserRuleLayer];
    }
  }

  /** What became of input `i`: its representative, scored and decided. */
  lemma {:induction false} FateOf(ds: seq<Detection>, hits: seq<KeywordHit>, policy: Policy, i: nat, m: Merge,
        out: seq<Detection>)
    requires i < |ds| && m == Merged(ds, |ds|) && out == Outcome(ds, hits, policy)
    ensures |out| == |ds| == |m.owner| == |m.values| && m.owner[i] < |ds| && m.values[m.owner[i]].kind == ds[i].kind
    ensures Represents(ds, Members(m.owner, m.owner[i]), m.values[m.owner[i]])
    ensures out[m.owner[i]] == Decided(Scored(m.values[m.owner[i]], hits), policy)
    ensures m.owner[i] in Redacted(out, m.reps) <==> out[m.owner[i]].action != NONE
  {
    RepresentativeOf(ds, i);
  }

  lemma {:induction false} CriticalIsRedacted(v: Detection, hits: seq<KeywordHit>, policy: Policy)
    requires IntrinsicCritical(v.kind) && !UserDecided(v) && (v.unknown || HasSufficientEvidence(v))
    ensures FailsSafe(Decided(Scored(v, hits), policy), v.kind, policy)
  {
    ScoreInUnitInterval(v, hits);
  }

  /** A redacted finding of type `kind`: an uncertain one is fully masked and flagged, any
      other gets the action configured for critical findings. */
  predicate FailsSafe(w: Detection, kind: Kind, policy: Policy) {
    && w.kind == kind && w.action != NONE
    && w.action == (if w.unknown then FULL_MASK else ActionFor(CRITICAL, policy))
    && (w.unknown ==> w.needsReview)
  }

  lemma {:induction false} GroupFailsSafe(ds: seq<Detection>, members: seq<nat>, v: Detection, hits: seq<KeywordHit>,
        policy: Policy)
    requires Represents(ds, members, v) && (forall k :: 0 <= k < |ds| ==> ByDetector(ds[k]))
    requires IntrinsicCritical(v.kind)
    ensures FailsSafe(Decided(Scored(v, hits), policy), v.kind, policy)
  {
    EvidenceKept(ds, members, v);
    RulesStayApart(ds, members, v);
    CriticalIsRedacted(v, hits, policy);
  }

  lemma {:induction false} OutFailsSafe(ds: seq<Detection>, hits: seq<KeywordHit>, policy: Policy, i: nat, m: Merge,
        out: seq<Detection>)
    requires m == Merged(ds, |ds|) && out == Outcome(ds, hits, policy)
    requires (forall k :: 0 <= k < |ds| ==> ByDetector(ds[k])) && i < |ds| && IntrinsicCritical(ds[i].kind)
    ensures |m.owner| == |ds| == |out| && m.owner[i] < |ds| && FailsSafe(out[m.owner[i]], ds[i].kind, policy)
  {
    FateOf(ds, hits, policy, i, m, out);
    GroupFailsSafe(ds, Members(m.owner, m.owner[i]), m.values[m.owner[i]], hits, policy);
  }

  /** The fail-safe promise: whatever the detectors reported, in any order, with any
      confidences and keyword hits, each intrinsically critical finding is represented by a
      finding of its type that fails safe. */
  lemma {:induction false} FailSafe(ds: seq<Detection>, hits: seq<KeywordHit>, policy: Policy, i: nat, m: Merge,
        out: seq<Detection>)
    requires m == Merged(ds, |ds|) && out == Outcome(ds, hits, policy)
    requires (forall k :: 0 <= k < |ds| ==> ByDetector(ds[k])) && i < |ds| && IntrinsicCritical(ds[i].kind)
    ensures |m.owner| == |ds| == |out| && m.owner[i] < |ds|
    ensures m.owner[i] in Redacted(out, m.reps) && FailsSafe(out[m.owner[i]], ds[i].kind, policy)
  {
    OutFailsSafe(ds, hits, policy, i, m, out);
    FateOf(ds, hits, policy, i, m, out);
  }

  /** Input `i` ends up under a full mask. */
  ghost predicate FullyMasked(ds: seq<Detection>, m: Merge, out: seq<Detection>, i: nat) {
    i < |m.owner| && m.owner[i] in Redacted(out, m.reps) && out[m.owner[i]].action == FULL_MASK
  }

  lemma {:induction false} MaskedWhenAsked(ds: seq<Detection>, hits: seq<KeywordHit>, policy: Policy, i: nat,
        m: Merge, out: seq<Detection>)
    requires m == Merged(ds, |ds|) && out == Outcome(ds, hits, policy) && ActionFor(CRITICAL, policy) == FULL_MASK
    requires (forall k :: 0 <= k < |ds| ==> ByDetector(ds[k])) && i < |ds| && IntrinsicCritical(ds[i].kind)
    ensures FullyMasked(ds, m, out, i)
  {
    FailSafe(ds, hits, policy, i, m, out);
  }

  /** Hence a full mask on every critical finding, of every list, exactly when the policy
      asks for one. */
  lemma {:induction false} AlwaysMaskedExactly(policy: Policy)
    ensures policy.strict || Alias(Lower(policy.criticalAction)) == FULL_MASK <==>
            forall ds: seq<Detection>, hits: seq<KeywordHit>, i: nat ::
              (forall k :: 0 <= k < |ds| ==> ByDetector(ds[k])) && i < |ds| && IntrinsicCritical(ds[i].kind) ==>
                FullyMasked(ds, Merged(ds, |ds|), Outcome(ds, hits, policy), i)
  {
    if policy.strict || Alias(Lower(policy.criticalAction)) == FULL_MASK {
      forall ds: seq<Detection>, hits: seq<KeywordHit>, i: nat |
        (forall k :: 0 <= k < |ds| ==> ByDetector(ds[k])) && i < |ds| && IntrinsicCritical(ds[i].kind)
        ensures FullyMasked(ds, Merged(ds, |ds|), Outcome(ds, hits, policy), i)
      {
        MaskedWhenAsked(ds, hits, policy, i, Merged(ds, |ds|), Outcome(ds, hits, policy));
      }
    } else {
      var d := Detection(TaiwanID, "", 1.0, BoundingBox(0, 0, 1, 1), 0.0, LOW, NONE, [RegexLayer], false, false);
      var ds := [d];
      LoneFinding(ds, policy, Merged(ds, |ds|), Outcome(ds, [], policy));
    }
  }

  lemma {:induction false} OnlyMember(ds: seq<Detection>, members: seq<nat>, v: Detection, policy: Policy)
    requires |ds| == 1 && Represents(ds, members, v) && ByDetector(ds[0]) && !ds[0].unknown
    requires IntrinsicCritical(v.kind) && ActionFor(CRITICAL, policy) != FULL_MASK
    ensures Decided(Scored(v, []), policy).action != FULL_MASK
  {
    assert forall k :: 0 <= k < |members| ==> members[k] == 0;
    EvidenceKept(ds, members, v);
    RulesStayApart(ds, members, v);
    CriticalIsRedacted(v, [], policy);
  }

  lemma {:induction false} LoneFinding(ds: seq<Detection>, policy: Policy, m: Merge, out: seq<Detection>)
    requires |ds| == 1 && ByDetector(ds[0]) && IntrinsicCritical(ds[0].kind) && !ds[0].unknown
    requires ActionFor(CRITICAL, policy) != FULL_MASK
    requires m == Merged(ds, |ds|) && out == Outcome(ds, [], policy)
    ensures !FullyMasked(ds, m, out, 0)
  {
    FateOf(ds, [], policy, 0, m, out);
    OnlyMember(ds, Members(m.owner, m.owner[0]), m.values[m.owner[0]], policy);
  }

  /** The only findings left unredacted: no user rule decided them, nothing uncertain about
      them calls for a mask, and their score is in the lowest band. */
  lemma {:induction false} LeftUnredactedExactly(ds: seq<Detection>, hits: seq<KeywordHit>, policy: Policy, i: nat,
        m: Merge, out: seq<Detection>)
    requires i < |ds| && m == Merged(ds, |ds|) && out == Outcome(ds, hits, policy)
    ensures |m.owner| == |m.values| == |ds| && m.owner[i] < |ds|
    ensures var v := m.values[m.owner[i]];
            m.owner[i] !in Redacted(out, m.reps) <==>
              !UserDecided(v) && !(v.unknown && AlwaysFailSafe(ds[i].kind)) && RiskScore(v, hits) < 0.30
  {
    FateOf(ds, hits, policy, i, m, out);
    DecidedNone(m.values[m.owner[i]], hits, policy);
  }

  lemma {:induction false} DecidedNone(v: Detection, hits: seq<KeywordHit>, policy: Policy)
    ensures Decided(Scored(v, hits), policy).action == NONE <==>
            !UserDecided(v) && !(v.unknown && AlwaysFailSafe(v.kind)) && RiskScore(v, hits) < 0.30
  {}

  // ---------- strength ----------

  function Strength(action: RedactionAction): nat {
    match action
    case NONE => 0
    case PARTIAL_MASK => 1
    case BLUR => 2
    case PIXELATE => 3
    case FULL_MASK => 4
  }

  /** A higher risk level never gets a weaker action, exactly unless critical findings are
      configured to be masked only in part. */
  lemma {:induction false} RiskNeverWeakensExactly(policy: Policy)
    ensures (forall a: RiskLevel, b: RiskLevel :: a.Rank() <= b.Rank() ==>
               Strength(ActionFor(a, policy)) <= Strength(ActionFor(b, policy)))
            <==> policy.strict || Lower(policy.criticalAction) != "partial_mask"
  {
    if !policy.strict && Lower(policy.criticalAction) == "partial_mask" {
      assert HIGH.Rank() <= CRITICAL.Rank() &&
             Strength(ActionFor(HIGH, policy)) > Strength(ActionFor(CRITICAL, policy));
    }
  }
}
