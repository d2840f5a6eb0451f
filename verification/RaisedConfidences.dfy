/**
 What raising confidences does to risk levels once groups are merged
 (maskguard/risk/risk_engine.py): a group takes the box of its most confident member, and
 keyword hits count by the line that box is on.
 */
module RaisedConfidences {
  import opened DetectionMerging
  import opened Models
  import opened PolicyDecisions
  import opened RiskScoring

  /** The same findings, none less confident. */
  ghost predicate Raised(before: seq<Detection>, after: seq<Detection>) {
    |before| == |after| && forall i :: 0 <= i < |before| ==> RaisedOne(before[i], after[i])
  }

  predicate RaisedOne(a: Detection, b: Detection) {
    b == a.(confidence := b.confidence) && a.confidence <= b.confidence
  }

  /** Two values of one group: they agree in all but confidence, place and text. */
  predicate SameGroup(v: Detection, w: Detection) {
    && w.kind == v.kind && w.sourceLayers == v.sourceLayers && w.unknown == v.unknown && SameVerdict(v, w)
    && v.confidence <= w.confidence
  }

  // ---------- the value of a group ----------

  lemma {:induction false} FoldRaised(before: seq<Detection>, after: seq<Detection>, members: seq<nat>)
    requires Raised(before, after) && members != [] && Within(members, |before|)
    ensures SameGroup(Fold(before, members), Fold(after, members))
    decreases |members|
  {
    var last := members[|members| - 1];
    assert RaisedOne(before[last], after[last]);
    if |members| > 1 {
      FoldRaised(before, after, members[..|members| - 1]);
    }
  }

  lemma {:induction false} LedBy(ds: seq<Detection>, m: Merge, r: nat)
    requires m == Merged(ds, |ds|) && r in m.owner
    ensures r < |ds| == |m.values| && Within(Members(m.owner, r), |ds|) && Members(m.owner, r) != []
    ensures m.values[r] == Fold(ds, Members(m.owner, r))
  {
    MergingIndexes(ds, |ds|);
    MergingSettles(ds, |ds|, r);
    assert r in m.reps;
  }

  /** On one grouping, raising confidences changes the value of a group in these ways only. */
  lemma {:induction false} GroupRaised(before: seq<Detection>, after: seq<Detection>, m: Merge, n: Merge, r: nat)
    requires Raised(before, after) && m == Merged(before, |before|) && n == Merged(after, |after|)
    requires m.owner == n.owner && r in m.owner
    ensures r < |m.values| == |n.values| && SameGroup(m.values[r], n.values[r])
  {
    LedBy(before, m, r);
    LedBy(after, n, r);
    FoldRaised(before, after, Members(m.owner, r));
  }

  // ---------- when the level can fall ----------

  ghost predicate NeverLower(v: Detection, w: Detection) {
    forall hits: seq<KeywordHit> :: Level(v, hits) <= Level(w, hits)
  }

  function Level(d: Detection, hits: seq<KeywordHit>): nat { Scored(d, hits).riskLevel.Rank() }

  /** The lines that meet `a` all meet `b`. */
  predicate SpannedBy(a: BoundingBox, b: BoundingBox) { b.y <= a.y && a.Bottom() <= b.Bottom() }

  /** The group is critical without any keyword. */
  predicate CriticalAlone(w: Detection) {
    BaseScore(w.kind) * RealMax(w.confidence, 0.3) >= 0.80 || IntrinsicFloorFor(w).Some?
  }

  lemma {:induction false} SpannedBoosts(hits: seq<KeywordHit>, a: BoundingBox, b: BoundingBox)
    requires SpannedBy(a, b) || a.height <= 0
    ensures 0.0 <= Boosts(hits, a) <= Boosts(hits, b)
  {
    if hits != [] {
      SpannedBoosts(hits[..|hits| - 1], a, b);
    }
  }

  lemma {:induction false} SameFloor(v: Detection, w: Detection)
    requires SameGroup(v, w)
    ensures IntrinsicFloorFor(v) == IntrinsicFloorFor(w)
  {}

  lemma {:induction false} ScoresFollow(v: Detection, w: Detection, hits: seq<KeywordHit>, base: real, more: real)
    requires IntrinsicFloorFor(v) == IntrinsicFloorFor(w) && base <= more
    requires base == BaseScore(v.kind) * RealMax(v.confidence, 0.3)
    requires more == BaseScore(w.kind) * RealMax(w.confidence, 0.3)
    requires Boosts(hits, v.box) <= Boosts(hits, w.box)
    ensures RiskScore(v, hits) <= RiskScore(w, hits)
  {}

  lemma {:induction false} SpannedScores(v: Detection, w: Detection, hits: seq<KeywordHit>)
    requires SameGroup(v, w) && (SpannedBy(v.box, w.box) || v.box.height <= 0)
    ensures RiskScore(v, hits) <= RiskScore(w, hits)
  {
    SameFloor(v, w);
    SpannedBoosts(hits, v.box, w.box);
    ProductGrows(BaseScore(v.kind), RealMax(v.confidence, 0.3), RealMax(w.confidence, 0.3));
    ScoresFollow(v, w, hits, BaseScore(v.kind) * RealMax(v.confidence, 0.3),
      BaseScore(w.kind) * RealMax(w.confidence, 0.3));
  }

  lemma {:induction false} CriticalAlways(w: Detection, hits: seq<KeywordHit>)
    requires CriticalAlone(w)
    ensures RiskLevel.FromScore(RiskScore(w, hits)) == CRITICAL
  {
    ScoreInUnitInterval(w, hits);
    MoreHitsBoostMore([], hits, w.box);
  }

  /** One critical keyword on one line, five times. */
  function FiveHits(y: int): seq<KeywordHit> {
    var hit := KeywordHit("", "", true, BoundingBox(0, y, 1, 1));
    [hit, hit, hit, hit, hit]
  }

  lemma {:induction false} BoostOfFive(y: int, box: BoundingBox)
    ensures Boosts(FiveHits(y), box) == if box.y <= y < box.Bottom() then 1.0 else 0.0
  {
    var hits := FiveHits(y);
    assert Boosts(hits[..0], box) == 0.0;
    BoostsOneMore(hits, 0, box);
    BoostsOneMore(hits, 1, box);
    BoostsOneMore(hits, 2, box);
    BoostsOneMore(hits, 3, box);
    BoostsOneMore(hits, 4, box);
    assert hits[..5] == hits;
  }

  /** A line of the old box that misses the new one. */
  lemma {:induction false} LineLost(v: Detection, w: Detection, y: int)
    requires !CriticalAlone(w) && v.box.y <= y < v.box.Bottom() && !(w.box.y <= y < w.box.Bottom())
    ensures RiskLevel.FromScore(RiskScore(v, FiveHits(y))) == CRITICAL
    ensures RiskLevel.FromScore(RiskScore(w, FiveHits(y))) != CRITICAL
  {
    BoostOfFive(y, v.box);
    BoostOfFive(y, w.box);
    ProductGrows(BaseScore(v.kind), 0.0, RealMax(v.confidence, 0.3));
  }

  /** Whatever the keyword hits, the level does not fall, if and only if a user rule decides
      the group, its box was empty, every line of its old box is one of its new box, or it is
      critical without any keyword. */
  lemma {:induction false} NeverLowerExactly(v: Detection, w: Detection)
    requires SameGroup(v, w)
    ensures NeverLower(v, w) <==> UserDecided(v) || v.box.height <= 0 || SpannedBy(v.box, w.box) || CriticalAlone(w)
  {
    if UserDecided(v) || v.box.height <= 0 || SpannedBy(v.box, w.box) || CriticalAlone(w) {
      forall hits: seq<KeywordHit>
        ensures Level(v, hits) <= Level(w, hits)
      {
        NotLower(v, w, hits);
      }
    } else {
      var y := if v.box.y < w.box.y then v.box.y else v.box.Bottom() - 1;
      LineLost(v, w, y);
      assert Level(v, FiveHits(y)) > Level(w, FiveHits(y));
    }
  }

  lemma {:induction false} NotLower(v: Detection, w: Detection, hits: seq<KeywordHit>)
    requires SameGroup(v, w) && (UserDecided(v) || v.box.height <= 0 || SpannedBy(v.box, w.box) || CriticalAlone(w))
    ensures Level(v, hits) <= Level(w, hits)
  {
    if !UserDecided(v) {
      if CriticalAlone(w) {
        CriticalAlways(w, hits);
      } else {
        SpannedScores(v, w, hits);
        LevelGrows(RiskScore(v, hits), RiskScore(w, hits));
      }
    }
  }

  /** When confidences are raised and the grouping stays, the level of a group never falls,
      whatever the keyword hits, if and only if one of these holds. */
  lemma {:induction false} RaisingOnOneGrouping(before: seq<Detection>, after: seq<Detection>, m: Merge, n: Merge,
        r: nat)
    requires Raised(before, after) && m == Merged(before, |before|) && n == Merged(after, |after|)
    requires m.owner == n.owner && r in m.owner
    ensures r < |m.values| == |n.values|
    ensures NeverLower(m.values[r], n.values[r]) <==>
            || UserDecided(m.values[r]) || m.values[r].box.height <= 0
            || SpannedBy(m.values[r].box, n.values[r].box) || CriticalAlone(n.values[r])
  {
    GroupRaised(before, after, m, n, r);
    NeverLowerExactly(m.values[r], n.values[r]);
  }

  // ---------- an input for which it falls ----------

  lemma {:induction false} UncertainName(d: Detection, hit: KeywordHit, policy: Policy)
    requires d.kind == PersonalName && d.action == NONE && hit.critical && 0.45 <= d.confidence <= 0.5
    ensures Decided(Scored(d, [hit]), policy).action == if SameLine(d.box, hit.box) then PARTIAL_MASK else NONE
  {
    assert [hit][..0] == [];
    assert Boosts([hit], d.box) == if SameLine(d.box, hit.box) then 0.2 else 0.0;
  }

  /** What becomes of two overlapping names: the surer one decides. */
  lemma {:induction false} UncertainPair(ds: seq<Detection>, m: Merge, hit: KeywordHit, policy: Policy)
    requires |ds| == 2 && m == Merged(ds, |ds|) && ds[0].kind == ds[1].kind == PersonalName && ds[0].action == NONE
    requires ds[0].box.Overlaps(ds[1].box) && hit.critical
    requires 0.45 <= ds[0].confidence <= 0.5 && ds[1].confidence <= 0.5
    ensures m.owner == [0, 0] && |m.values| == 2
    ensures Decided(Scored(m.values[0], [hit]), policy).action ==
            if SameLine((if ds[1].confidence > ds[0].confidence then ds[1] else ds[0]).box, hit.box) then PARTIAL_MASK
            else NONE
  {
    PairMerges(ds, m);
    UncertainName(m.values[0], hit, policy);
  }

  /** A name that the AI layer guessed, at this height. */
  predicate NameAt(d: Detection, y: int, confidence: real) {
    && d.kind == PersonalName && d.box == BoundingBox(0, y, 10, 10) && d.confidence == confidence
    && d.action == NONE && d.unknown && d.sourceLayers == [AiLayer]
  }

  /** Of a pair, the first has the keyword on its line and the second has not. */
  predicate KeywordBesideFirst(ds: seq<Detection>, hit: KeywordHit) {
    && |ds| == 2 && ds[0].kind == ds[1].kind == PersonalName && ds[0].action == NONE
    && ds[0].box.Overlaps(ds[1].box) && hit.critical && SameLine(ds[0].box, hit.box) && !SameLine(ds[1].box, hit.box)
    && 0.45 <= ds[0].confidence <= 0.5 && ds[1].confidence <= 0.5
  }

  lemma {:induction false} NamesBeside(ds: seq<Detection>, c: real, hit: KeywordHit)
    requires |ds| == 2 && NameAt(ds[0], 0, 0.45) && NameAt(ds[1], 8, c) && c <= 0.5
    requires hit == KeywordHit("", "", true, BoundingBox(50, 0, 10, 6))
    ensures KeywordBesideFirst(ds, hit)
  {}

  lemma {:induction false} SurerDecides(ds: seq<Detection>, m: Merge, hit: KeywordHit, policy: Policy)
    requires KeywordBesideFirst(ds, hit) && m == Merged(ds, |ds|)
    ensures m.owner == [0, 0] && |m.values| == 2
    ensures Decided(Scored(m.values[0], [hit]), policy).action ==
            if ds[1].confidence > ds[0].confidence then NONE else PARTIAL_MASK
  {
    UncertainPair(ds, m, hit, policy);
  }

  /** Two overlapping names and one critical keyword on the line of the first: surer of the
      second, the engine takes its place, leaves the line, and the finding is not redacted. */
  lemma {:induction false} RaisingCanLower(before: seq<Detection>, after: seq<Detection>, m: Merge, n: Merge,
        hit: KeywordHit, policy: Policy)
    requires |before| == 2 && NameAt(before[0], 0, 0.45) && NameAt(before[1], 8, 0.40)
    requires |after| == 2 && after[0] == before[0] && after[1] == before[1].(confidence := 0.50)
    requires hit == KeywordHit("", "", true, BoundingBox(50, 0, 10, 6))
    requires m == Merged(before, |before|) && n == Merged(after, |after|)
    ensures Raised(before, after) && m.owner == n.owner == [0, 0] && |m.values| == |n.values| == 2
    ensures Decided(Scored(m.values[0], [hit]), policy).action == PARTIAL_MASK
    ensures Decided(Scored(n.values[0], [hit]), policy).action == NONE
  {
    NamesBeside(before, 0.40, hit);
    NamesBeside(after, 0.50, hit);
    SurerDecides(before, m, hit, policy);
    SurerDecides(after, n, hit, policy);
  }
}
