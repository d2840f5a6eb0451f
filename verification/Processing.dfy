/** `Pipeline.process` after detection, from findings to the released image (maskguard/pipeline.py). */
module Processing {
  import opened DetectionMerging
  import opened MergedPlaces
  import opened Models
  import opened PipelineTail
  import opened PolicyDecisions
  import opened Redaction
  import opened RiskScoring
  import opened Verification
  import opened VerificationRuns

  /** The detections at the given places. */
  function Selected(ds: seq<Detection>, indices: seq<nat>): seq<Detection> {
    if indices == [] then []
    else
      var last := indices[|indices| - 1];
      Selected(ds, indices[..|indices| - 1]) + if last < |ds| then [ds[last]] else []
  }

  /** What redaction starts from. */
  ghost function ToRedact(found: seq<Detection>, hits: seq<KeywordHit>, policy: Policy): seq<Detection> {
    Selected(Outcome(found, hits, policy), Redacted(Outcome(found, hits, policy), Merged(found, |found|).reps))
  }

  method Process(original: Image, detections: array<Detection>, hits: seq<KeywordHit>, policy: Policy,
                 oracle: Oracle, scan: Image -> seq<Kind>, config: Config)
    returns (r: Release)
    modifies detections
    ensures var e := Verified(original, ToRedact(old(detections[..]), hits, policy), oracle, config);
            r == ReleaseOf(e, scan(e.image), config.strict)
  {
    var kept := ScoreAndDecide(detections, hits, policy);
    var chosen := Choose(detections, kept);
    r := RedactVerifyAndFinalize(original, chosen, oracle, scan, config);
  }

  method Choose(detections: array<Detection>, kept: seq<nat>) returns (list: array<Detection>)
    requires forall i :: i in kept ==> i < detections.Length
    ensures fresh(list) && list[..] == Selected(detections[..], kept)
  {
    var chosen: seq<Detection> := [];
    for k := 0 to |kept|
      invariant chosen == Selected(detections[..], kept[..k])
    {
      assert kept[..k + 1][..k] == kept[..k] && kept[k] in kept;
      chosen := chosen + [detections[kept[k]]];
    }
    assert kept[..|kept|] == kept;
    list := new Detection[|chosen|](i requires 0 <= i < |chosen| => chosen[i]);
    assert list[..] == chosen;
  }

  lemma {:induction false} SelectedAt(ds: seq<Detection>, indices: seq<nat>, i: nat)
    requires i in indices && i < |ds|
    ensures exists p :: 0 <= p < |Selected(ds, indices)| && Selected(ds, indices)[p] == ds[i]
    decreases |indices|
  {
    var front, last := indices[..|indices| - 1], indices[|indices| - 1];
    if i == last {
      assert Selected(ds, indices)[|Selected(ds, front)|] == ds[i];
    } else {
      assert i in front;
      SelectedAt(ds, front, i);
      var p :| 0 <= p < |Selected(ds, front)| && Selected(ds, front)[p] == ds[i];
      assert Selected(ds, indices)[p] == ds[i];
    }
  }

  /** All that `inner` covers of the image, `outer` covers too. */
  ghost predicate CoversAll(image: Image, outer: BoundingBox, inner: BoundingBox) {
    forall x, y :: Covers(image, inner, x, y) ==> Covers(image, outer, x, y)
  }

  /** `w` is a full mask of type `kind`, over all that `box` covers of the image. */
  ghost predicate Masks(image: Image, w: Detection, kind: Kind, box: BoundingBox) {
    w.kind == kind && w.action == FULL_MASK && CoversAll(image, w.box, box)
  }

  lemma {:induction false} ClimbedMasks(image: Image, d: Detection, w: Detection, k: nat)
    requires d.action == FULL_MASK && SameButFlag(w, Climbed(d, k))
    ensures Masks(image, w, d.kind, d.box)
  {
    ClimbStrengthens(image, d, w, k);
    ClimbedRest(d, k);
  }

  /** Verification leaves a full mask a full mask, and never uncovers anything. */
  lemma {:induction false} MaskSurvives(original: Image, ds: seq<Detection>, oracle: Oracle, config: Config, e: Ended,
        p: nat)
    requires e == Verified(original, ds, oracle, config) && p < |ds| && ds[p].action == FULL_MASK
    ensures |e.detections| == |ds| && Masks(original, e.detections[p], ds[p].kind, ds[p].box)
    ensures Stroke(FULL_MASK, e.detections[p].box) in e.image.strokes
  {
    if config.verification && config.maxRetries >= 1 {
      FinalDetection(original, ds, oracle, config.maxRetries, e, p, Residuals(original, ds, oracle));
      ClimbedMasks(original, ds[p], e.detections[p], Rounds(Residuals(original, ds, oracle), e.result.attempts, p));
    } else if config.verification {
      NoAttempts(original, ds, oracle, config.maxRetries);
    }
    VerifiedImage(original, ds, oracle, config, e);
    StrokeShown(original, e.detections, p);
  }

  /** A full mask of this type, over all that `box` covers, is painted on the image. */
  ghost predicate MaskPainted(original: Image, e: Ended, kind: Kind, box: BoundingBox) {
    exists p :: 0 <= p < |e.detections| && Masks(original, e.detections[p], kind, box) &&
      Stroke(FULL_MASK, e.detections[p].box) in e.image.strokes
  }

  lemma {:induction false} SelectedMaskPainted(original: Image, out: seq<Detection>, kept: seq<nat>, oracle: Oracle,
        config: Config, e: Ended, r: nat)
    requires r in kept && r < |out| && out[r].action == FULL_MASK
    requires e == Verified(original, Selected(out, kept), oracle, config)
    ensures MaskPainted(original, e, out[r].kind, out[r].box)
  {
    SelectedAt(out, kept, r);
    var p: nat :| p < |Selected(out, kept)| && Selected(out, kept)[p] == out[r];
    MaskSurvives(original, Selected(out, kept), oracle, config, e, p);
  }

  lemma {:induction false} CriticalGroupMasked(found: seq<Detection>, hits: seq<KeywordHit>, policy: Policy, i: nat,
        m: Merge, out: seq<Detection>)
    requires (forall k :: 0 <= k < |found| ==> ByDetector(found[k])) && i < |found| && IntrinsicCritical(found[i].kind)
    requires ActionFor(CRITICAL, policy) == FULL_MASK
    requires m == Merged(found, |found|) && out == Outcome(found, hits, policy)
    ensures |m.owner| == |m.values| == |found| == |out| && m.owner[i] < |found| && m.owner[i] in Redacted(out, m.reps)
    ensures out[m.owner[i]].action == FULL_MASK && out[m.owner[i]].kind == found[i].kind
    ensures out[m.owner[i]].box == m.values[m.owner[i]].box
  {
    FateOf(found, hits, policy, i, m, out);
    FailSafe(found, hits, policy, i, m, out);
    SameBox(m.values[m.owner[i]], hits, policy);
  }

  lemma {:induction false} SameBox(v: Detection, hits: seq<KeywordHit>, policy: Policy)
    ensures Decided(Scored(v, hits), policy).box == v.box
  {}

  /** Finding `i` is represented in the image by the stroke of a full mask of its type over at
      least the box of its group. */
  ghost predicate GroupMasked(original: Image, found: seq<Detection>, i: nat, m: Merge, e: Ended) {
    && i < |found| == |m.owner| == |m.values| && m.owner[i] < |found|
    && MaskPainted(original, e, found[i].kind, m.values[m.owner[i]].box)
  }

  /** And the finding is in the place of that box, or overlaps it. */
  ghost predicate NearItsMask(found: seq<Detection>, i: nat, m: Merge) {
    i < |found| == |m.owner| == |m.values| && m.owner[i] < |found| && InPlace(found[i], m.values[m.owner[i]].box)
  }

  /** From findings to the image: whatever the detectors reported and whatever the text
      recogniser answers, when the policy asks for full masks, every intrinsically critical
      finding is masked with its group; and it is in the place of that mask, or overlaps it,
      when the findings are collected as the pipeline collects them. */
  lemma {:induction false} CriticalFindingsStayMasked(original: Image, found: seq<Detection>, hits: seq<KeywordHit>,
        policy: Policy, oracle: Oracle, config: Config, i: nat, m: Merge, e: Ended)
    requires (forall k :: 0 <= k < |found| ==> ByDetector(found[k])) && i < |found| && IntrinsicCritical(found[i].kind)
    requires ActionFor(CRITICAL, policy) == FULL_MASK
    requires m == Merged(found, |found|) && e == Verified(original, ToRedact(found, hits, policy), oracle, config)
    ensures GroupMasked(original, found, i, m, e)
    ensures Collected(found) ==> NearItsMask(found, i, m)
  {
    var out := Outcome(found, hits, policy);
    CriticalGroupMasked(found, hits, policy, i, m, out);
    SelectedMaskPainted(original, out, Redacted(out, m.reps), oracle, config, e, m.owner[i]);
    if Collected(found) {
      CollectedKeepPlaces(found, m);
    }
  }

  // ---------- the finding itself ----------

  predicate Solid(box: BoundingBox) { box.width > 0 && box.height > 0 }

  /** A pixel of the image that both boxes cover. */
  ghost predicate ShareAPixel(image: Image, a: BoundingBox, b: BoundingBox) {
    exists x, y :: Covers(image, a, x, y) && Covers(image, b, x, y)
  }

  lemma {:induction false} PlacesShareAPixel(image: Image, d: Detection, box: BoundingBox)
    requires InPlace(d, box) && Solid(d.box) && Solid(box)
    requires BoundingBox(0, 0, image.width, image.height).Contains(d.box)
    ensures ShareAPixel(image, d.box, box)
  {
    var x, y := Max(d.box.x, box.x), Max(d.box.y, box.y);
    assert Covers(image, d.box, x, y) && Covers(image, box, x, y);
  }

  lemma {:induction false} GroupBoxIsSolid(found: seq<Detection>, m: Merge, i: nat)
    requires m == Merged(found, |found|) && i < |found| && forall k :: 0 <= k < |found| ==> Solid(found[k].box)
    ensures |m.owner| == |m.values| == |found| && m.owner[i] < |found| && Solid(m.values[m.owner[i]].box)
  {
    RepresentativeOf(found, i);
    var members := Members(m.owner, m.owner[i]);
    var k: nat :| FirstGreatest(found, members, m.values[m.owner[i]], k);
    assert Solid(found[members[k]].box);
  }

  /** A full mask of this type meets `box` in the image. */
  ghost predicate MaskMeets(original: Image, e: Ended, kind: Kind, box: BoundingBox) {
    exists p :: 0 <= p < |e.detections| && MeetsAt(original, e, kind, box, p)
  }

  ghost predicate MeetsAt(original: Image, e: Ended, kind: Kind, box: BoundingBox, p: nat)
    requires p < |e.detections|
  {
    && e.detections[p].kind == kind && e.detections[p].action == FULL_MASK
    && Stroke(FULL_MASK, e.detections[p].box) in e.image.strokes && ShareAPixel(original, box, e.detections[p].box)
  }

  lemma {:induction false} PaintedMeets(original: Image, e: Ended, kind: Kind, d: Detection, box: BoundingBox)
    requires MaskPainted(original, e, kind, box) && ShareAPixel(original, d.box, box)
    ensures MaskMeets(original, e, kind, d.box)
  {
    var p :| 0 <= p < |e.detections| && Masks(original, e.detections[p], kind, box) &&
      Stroke(FULL_MASK, e.detections[p].box) in e.image.strokes;
    var x, y :| Covers(original, d.box, x, y) && Covers(original, box, x, y);
    assert Covers(original, e.detections[p].box, x, y);
    assert MeetsAt(original, e, kind, d.box, p);
  }

  /** Of findings collected by the pipeline, every critical one that lies in the image is met
      there by a full mask of its own type. */
  lemma {:induction false} CollectedFindingsAreMet(original: Image, found: seq<Detection>, hits: seq<KeywordHit>,
        policy: Policy, oracle: Oracle, config: Config, i: nat, e: Ended)
    requires Collected(found) && (forall k :: 0 <= k < |found| ==> Solid(found[k].box))
    requires i < |found| && IntrinsicCritical(found[i].kind) && ActionFor(CRITICAL, policy) == FULL_MASK
    requires BoundingBox(0, 0, original.width, original.height).Contains(found[i].box)
    requires e == Verified(original, ToRedact(found, hits, policy), oracle, config)
    ensures MaskMeets(original, e, found[i].kind, found[i].box)
  {
    var m := Merged(found, |found|);
    CriticalFindingsStayMasked(original, found, hits, policy, oracle, config, i, m, e);
    GroupBoxIsSolid(found, m, i);
    PlacesShareAPixel(original, found[i], m.values[m.owner[i]].box);
    PaintedMeets(original, e, found[i].kind, found[i], m.values[m.owner[i]].box);
  }

  // ---------- how much of a finding is masked ----------

  /** The pixel is under a full mask. */
  ghost predicate MaskedAt(original: Image, ds: seq<Detection>, x: int, y: int) {
    exists p :: 0 <= p < |ds| && ds[p].action == FULL_MASK && Covers(original, ds[p].box, x, y)
  }

  ghost predicate AlwaysMaskedAt(original: Image, ds: seq<Detection>, x: int, y: int) {
    forall oracle: Oracle, config: Config :: MaskedAt(original, Verified(original, ds, oracle, config).detections, x, y)
  }

  /** Some recogniser, and no verification at all. */
  const UNREAD := Oracle((attempt: nat, i: nat, image: Image, rect: Rect) => [], (tokens: seq<OcrToken>) => [])
  const UNVERIFIED := Config(false, 0, false)

  /** A pixel is masked in the end, whatever the text recogniser answers and however the
      verification is configured, exactly when it is from the beginning. */
  lemma {:induction false} PixelMaskedExactly(original: Image, ds: seq<Detection>, x: int, y: int)
    ensures AlwaysMaskedAt(original, ds, x, y) <==> MaskedAt(original, ds, x, y)
  {
    assert Verified(original, ds, UNREAD, UNVERIFIED).detections == ds;
    if MaskedAt(original, ds, x, y) {
      var p :| 0 <= p < |ds| && ds[p].action == FULL_MASK && Covers(original, ds[p].box, x, y);
      forall oracle: Oracle, config: Config
        ensures MaskedAt(original, Verified(original, ds, oracle, config).detections, x, y)
      {
        MaskSurvives(original, ds, oracle, config, Verified(original, ds, oracle, config), p);
      }
    }
  }

  /** The detection that represents finding `i` in the end is a painted full mask over all that
      the finding covers of the image. */
  ghost predicate WhollyMasked(original: Image, found: seq<Detection>, kept: seq<nat>, i: nat, m: Merge, e: Ended) {
    && i < |found| == |m.owner| && |e.detections| == |kept|
    && exists p :: 0 <= p < |kept| && kept[p] == m.owner[i]
         && Masks(original, e.detections[p], found[i].kind, found[i].box)
         && Stroke(FULL_MASK, e.detections[p].box) in e.image.strokes
  }

  /** So it is whatever the text recogniser answers and however verification is configured. */
  ghost predicate AlwaysWhollyMasked(original: Image, found: seq<Detection>, hits: seq<KeywordHit>, policy: Policy,
                                     i: nat, m: Merge)
  {
    var out := Outcome(found, hits, policy);
    var kept := Redacted(out, m.reps);
    forall oracle: Oracle, config: Config ::
      WhollyMasked(original, found, kept, i, m, Verified(original, Selected(out, kept), oracle, config))
  }

  lemma {:induction false} SelectedInOrder(ds: seq<Detection>, indices: seq<nat>)
    requires forall k :: 0 <= k < |indices| ==> indices[k] < |ds|
    ensures |Selected(ds, indices)| == |indices|
    ensures forall k :: 0 <= k < |indices| ==> Selected(ds, indices)[k] == ds[indices[k]]
  {
    if indices != [] {
      SelectedInOrder(ds, indices[..|indices| - 1]);
    }
  }

  lemma {:induction false} MaskGrowsOverFinding(original: Image, found: seq<Detection>, out: seq<Detection>,
        kept: seq<nat>, i: nat, m: Merge, oracle: Oracle, config: Config)
    requires i < |found| == |m.owner| && m.owner[i] in kept && m.owner[i] < |out|
    requires forall k :: 0 <= k < |kept| ==> kept[k] < |out|
    requires Masks(original, out[m.owner[i]], found[i].kind, found[i].box)
    ensures WhollyMasked(original, found, kept, i, m, Verified(original, Selected(out, kept), oracle, config))
  {
    SelectedInOrder(out, kept);
    var p :| 0 <= p < |kept| && kept[p] == m.owner[i];
    MaskSurvives(original, Selected(out, kept), oracle, config,
      Verified(original, Selected(out, kept), oracle, config), p);
  }

  lemma {:induction false} MaskUnverified(original: Image, found: seq<Detection>, out: seq<Detection>,
        kept: seq<nat>, i: nat, m: Merge)
    requires WhollyMasked(original, found, kept, i, m, Verified(original, Selected(out, kept), UNREAD, UNVERIFIED))
    requires forall k :: 0 <= k < |kept| ==> kept[k] < |out|
    ensures m.owner[i] < |out| && CoversAll(original, out[m.owner[i]].box, found[i].box)
  {
    SelectedInOrder(out, kept);
  }

  /** When the policy asks for full masks, the final mask of a critical finding covers all of
      it, whatever happens in verification, if and only if the box of its group does. */
  lemma {:induction false} WhollyMaskedExactly(original: Image, found: seq<Detection>, hits: seq<KeywordHit>,
        policy: Policy, i: nat, m: Merge)
    requires (forall k :: 0 <= k < |found| ==> ByDetector(found[k])) && i < |found| && IntrinsicCritical(found[i].kind)
    requires ActionFor(CRITICAL, policy) == FULL_MASK && m == Merged(found, |found|)
    ensures |m.owner| == |m.values| == |found| && m.owner[i] < |found|
    ensures AlwaysWhollyMasked(original, found, hits, policy, i, m) <==>
            CoversAll(original, m.values[m.owner[i]].box, found[i].box)
  {
    var out := Outcome(found, hits, policy);
    var kept := Redacted(out, m.reps);
    CriticalGroupMasked(found, hits, policy, i, m, out);
    assert forall k :: 0 <= k < |kept| ==> kept[k] in kept;
    if CoversAll(original, m.values[m.owner[i]].box, found[i].box) {
      forall oracle: Oracle, config: Config
        ensures WhollyMasked(original, found, kept, i, m, Verified(original, Selected(out, kept), oracle, config))
      {
        MaskGrowsOverFinding(original, found, out, kept, i, m, oracle, config);
      }
    }
    if AlwaysWhollyMasked(original, found, hits, policy, i, m) {
      MaskUnverified(original, found, out, kept, i, m);
    }
  }

  /** On a collected list a group keeps the box of its first finding. */
  lemma {:induction false} CollectedKeepLeaderBox(found: seq<Detection>, m: Merge, i: nat)
    requires Collected(found) && m == Merged(found, |found|) && i < |found|
    ensures |m.owner| == |m.values| == |found| && m.owner[i] <= i
    ensures m.values[m.owner[i]].box == found[m.owner[i]].box
  {
    LeaderFirst(found, i, m);
    MergingKeepsKinds(found, |found|);
    var r := m.owner[i];
    forall k | 0 <= k < |m.owner| && m.owner[k] == r
      ensures r <= k && found[k].confidence <= found[r].confidence
    {
      LeaderFirst(found, k, m);
      if r < k {
        ConfidencesNeverRise(found, r, k);
      }
    }
    UnbeatenKeepsBox(found, |found|, r);
  }

  /** On a list collected by the pipeline, the final mask of a critical finding covers all of
      it, whatever happens in verification, if and only if the box of the first finding of
      its group does. */
  lemma {:induction false} CollectedWhollyMaskedExactly(original: Image, found: seq<Detection>, hits: seq<KeywordHit>,
        policy: Policy, i: nat, m: Merge)
    requires Collected(found) && i < |found| && IntrinsicCritical(found[i].kind)
    requires ActionFor(CRITICAL, policy) == FULL_MASK && m == Merged(found, |found|)
    ensures |m.owner| == |found| && m.owner[i] <= i
    ensures AlwaysWhollyMasked(original, found, hits, policy, i, m) <==>
            CoversAll(original, found[m.owner[i]].box, found[i].box)
  {
    CollectedKeepLeaderBox(found, m, i);
    WhollyMaskedExactly(original, found, hits, policy, i, m);
  }

  // ---------- two lines that touch ----------

  /** The text recogniser sees nothing in the redacted image. */
  ghost predicate ReadsNothing(oracle: Oracle) {
    && (forall attempt, i, image, rect :: oracle.ocr(attempt, i, image, rect) == [])
    && oracle.redetect([]) == []
  }

  lemma {:induction false} NothingResidual(oracle: Oracle, attempt: nat, ds: seq<Detection>, image: Image)
    requires ReadsNothing(oracle)
    ensures ResidualOf(oracle, attempt, ds, image) == []
  {
    if ResidualOf(oracle, attempt, ds, image) != [] {
      HasMember(ResidualOf(oracle, attempt, ds, image));
    }
  }

  lemma {:induction false} NothingReadNothingChanged(original: Image, ds: seq<Detection>, oracle: Oracle,
        config: Config)
    requires ReadsNothing(oracle)
    ensures Verified(original, ds, oracle, config).detections == ds
  {
    if config.verification && config.maxRetries >= 1 {
      var image := Rendered(original, ds);
      NothingResidual(oracle, 1, ds, image);
      NothingNoted(oracle, 1, ds, image);
      Unrolled(original, ds, oracle, 1, config.maxRetries, image, [], ds);
    } else if config.verification {
      NoAttempts(original, ds, oracle, config.maxRetries);
    }
  }

  /** A bank account number, and another on the next line, whose box meets the first in one
      row of pixels. */
  predicate TouchingAccounts(found: seq<Detection>) {
    && |found| == 2
    && found[0] == Detection(BankAccount, found[0].text, 0.75, BoundingBox(0, 0, 100, 20), 0.0, LOW, NONE,
                             [ContextLayer], false, false)
    && found[1] == found[0].(text := found[1].text, box := BoundingBox(0, 19, 100, 20))
  }

  lemma {:induction false} TouchingAccountsCollected(found: seq<Detection>)
    requires TouchingAccounts(found)
    ensures Collected(found)
  {}

  lemma {:induction false} SamePlaceAndText(v: Detection, hits: seq<KeywordHit>, policy: Policy)
    ensures Decided(Scored(v, hits), policy).box == v.box && Decided(Scored(v, hits), policy).text == v.text
  {}

  lemma {:induction false} OneSelected(out: seq<Detection>)
    requires out != [] && out[0].action != NONE
    ensures Selected(out, Redacted(out, [0])) == [out[0]]
  {
    assert [0][..0] == [];
    assert Redacted(out, []) == [] && Redacted(out, [0]) == [0];
    assert Selected(out, []) == [];
  }

  /** What is redacted when there is one group, of finding 0. */
  lemma {:induction false} OnlyTheFirst(found: seq<Detection>, hits: seq<KeywordHit>, policy: Policy, m: Merge,
        out: seq<Detection>)
    requires found != [] && (forall k :: 0 <= k < |found| ==> ByDetector(found[k])) && IntrinsicCritical(found[0].kind)
    requires ActionFor(CRITICAL, policy) == FULL_MASK && m == Merged(found, |found|)
    requires out == Outcome(found, hits, policy) && |m.owner| == |found| && m.owner[0] == 0
    ensures out != [] && out[0].action == FULL_MASK
    ensures out[0].text == m.values[0].text && out[0].box == m.values[0].box
  {
    CriticalGroupMasked(found, hits, policy, 0, m, out);
    FateOf(found, hits, policy, 0, m, out);
    SamePlaceAndText(m.values[0], hits, policy);
  }

  lemma {:induction false} NoSurer(a: Detection, d: Detection)
    requires d.confidence <= a.confidence
    ensures Absorb(a, d).text == a.text && Absorb(a, d).box == a.box
  {}

  lemma {:induction false} TouchingMeet(found: seq<Detection>)
    requires TouchingAccounts(found)
    ensures found[0].kind == found[1].kind && found[0].box.Overlaps(found[1].box)
    ensures found[1].confidence <= found[0].confidence
  {}

  lemma {:induction false} PairKeepsFirst(found: seq<Detection>, m: Merge)
    requires |found| == 2 && found[0].kind == found[1].kind && found[0].box.Overlaps(found[1].box)
    requires found[1].confidence <= found[0].confidence && m == Merged(found, |found|)
    ensures m.owner == [0, 0] && m.reps == [0] && |m.values| == 2
    ensures m.values[0].text == found[0].text && m.values[0].box == found[0].box
  {
    PairMerges(found, m);
    NoSurer(found[0], found[1]);
  }

  /** Of two findings that meet, the second no surer, only the first is redacted. */
  lemma {:induction false} SecondIsDropped(found: seq<Detection>, hits: seq<KeywordHit>, policy: Policy)
    requires |found| == 2 && found[0].kind == found[1].kind && found[0].box.Overlaps(found[1].box)
    requires found[1].confidence <= found[0].confidence && IntrinsicCritical(found[0].kind)
    requires (forall k :: 0 <= k < |found| ==> ByDetector(found[k])) && ActionFor(CRITICAL, policy) == FULL_MASK
    ensures var ds := ToRedact(found, hits, policy);
            |ds| == 1 && ds[0].action == FULL_MASK && ds[0].text == found[0].text && ds[0].box == found[0].box
  {
    var m, out := Merged(found, |found|), Outcome(found, hits, policy);
    PairKeepsFirst(found, m);
    OnlyTheFirst(found, hits, policy, m, out);
    OneSelected(out);
  }

  lemma {:induction false} OneFirstMask(original: Image, ds: seq<Detection>, found: seq<Detection>)
    requires TouchingAccounts(found) && |ds| == 1 && ds[0].action == FULL_MASK && ds[0].box == found[0].box
    ensures forall x, y :: Covers(original, found[1].box, x, y) ==> (MaskedAt(original, ds, x, y) <==> y == 19)
  {
    forall x, y | Covers(original, found[1].box, x, y)
      ensures MaskedAt(original, ds, x, y) <==> y == 19
    {
      if y == 19 {
        assert ds[0].action == FULL_MASK && Covers(original, ds[0].box, x, y);
      }
    }
  }

  /** Two findings on touching lines are collected, merged into one, and the second is left
      as it was but for the row they share: neither masked nor looked for in verification. */
  lemma {:induction false} TouchingLinesLoseText(original: Image, found: seq<Detection>, hits: seq<KeywordHit>,
        policy: Policy, oracle: Oracle, config: Config, e: Ended)
    requires TouchingAccounts(found) && original.width >= 100 && original.height >= 39
    requires ActionFor(CRITICAL, policy) == FULL_MASK && ReadsNothing(oracle)
    requires e == Verified(original, ToRedact(found, hits, policy), oracle, config)
    ensures Collected(found) && |e.detections| == 1 && e.detections[0].text == found[0].text
    ensures forall x, y :: Covers(original, found[1].box, x, y) ==>
              (MaskedAt(original, e.detections, x, y) <==> y == 19)
    ensures Covers(original, found[1].box, 50, 30)
  {
    TouchingAccountsCollected(found);
    TouchingMeet(found);
    SecondIsDropped(found, hits, policy);
    OneFirstMask(original, ToRedact(found, hits, policy), found);
    NothingReadNothingChanged(original, ToRedact(found, hits, policy), oracle, config);
  }
}
