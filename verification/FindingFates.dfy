/**
 What becomes of a finding, in numbers (maskguard/risk/risk_engine.py,
 maskguard/risk/intrinsic_critical.py, maskguard/policy/policy_engine.py): the score as a sum, the
 bands, and the action.
 */
module FindingFates {
  import opened Models
  import opened PolicyDecisions
  import opened RiskScoring

  // ---------- the score ----------

  /** Some row of pixels runs through both boxes. */
  ghost predicate ShareARow(a: BoundingBox, b: BoundingBox) {
    exists y :: InRows(a, y) && InRows(b, y)
  }

  predicate InRows(b: BoundingBox, y: int) { b.y <= y < b.y + b.height }

  lemma {:induction false} SameLineExactly(a: BoundingBox, b: BoundingBox)
    ensures SameLine(a, b) <==> ShareARow(a, b)
  {
    if SameLine(a, b) {
      assert InRows(a, Max(a.y, b.y)) && InRows(b, Max(a.y, b.y));
    }
  }

  /** The keyword hits of one sort that share a row with the box, by their places. */
  ghost function HitsBeside(hits: seq<KeywordHit>, box: BoundingBox, critical: bool): set<nat> {
    set i: nat | i < |hits| && Beside(hits[i], box, critical)
  }

  ghost predicate Beside(hit: KeywordHit, box: BoundingBox, critical: bool) {
    hit.critical == critical && ShareARow(box, hit.box)
  }

  lemma {:induction false} OneMoreBeside(hits: seq<KeywordHit>, box: BoundingBox, critical: bool)
    requires hits != []
    ensures var n := |hits| - 1;
            |HitsBeside(hits, box, critical)| ==
              |HitsBeside(hits[..n], box, critical)| + if Beside(hits[n], box, critical) then 1 else 0
  {
    var n := |hits| - 1;
    var all, fewer := HitsBeside(hits, box, critical), HitsBeside(hits[..n], box, critical);
    forall i: nat
      ensures i in all <==> i in fewer || (i == n && Beside(hits[n], box, critical))
    {
      assert i < n ==> hits[..n][i] == hits[i];
    }
    assert all == fewer + if Beside(hits[n], box, critical) then {n} else {};
  }

  lemma {:induction false} BoostsExactly(hits: seq<KeywordHit>, box: BoundingBox)
    ensures Boosts(hits, box) ==
            0.2 * |HitsBeside(hits, box, true)| as real + 0.08 * |HitsBeside(hits, box, false)| as real
  {
    if hits == [] {
      assert HitsBeside(hits, box, true) == {} && HitsBeside(hits, box, false) == {};
    } else {
      BoostsExactly(hits[..|hits| - 1], box);
      OneMoreBeside(hits, box, true);
      OneMoreBeside(hits, box, false);
      SameLineExactly(box, hits[|hits| - 1].box);
    }
  }

  /** The severities of the types, from the gravest. */
  lemma {:induction false} BaseScoresExactly(kind: Kind)
    ensures BaseScore(kind) == 0.95 <==> kind in {SecretKeyValue, JWT}
    ensures BaseScore(kind) == 0.9 <==> kind in {BearerToken, CreditCard, TaiwanID}
    ensures BaseScore(kind) == 0.88 <==> kind == Passport
    ensures BaseScore(kind) == 0.85 <==> kind == BankAccount
    ensures BaseScore(kind) == 0.75 <==> kind == OpaqueSecret
    ensures BaseScore(kind) == 0.55 <==> kind in {PersonalName, Phone, PhoneTW, Address, Email}
    ensures BaseScore(kind) == 0.45 <==> kind in {Birthday, EmployeeID, CustomerID}
    ensures BaseScore(kind) == 0.3 <==> kind.UnknownKind? || kind.UserRule? || kind.OtherKind?
    ensures BaseScore(kind) == 0.25 <==> kind in {URL, IPAddress}
  {}

  predicate CriticalByItself(kind: Kind) {
    kind in {TaiwanID, Passport, BankAccount, CreditCard, SecretKeyValue, BearerToken, JWT}
  }

  /** A known finding of such a type, from a pattern, a label or a rule. */
  predicate Conclusive(d: Detection) {
    && CriticalByItself(d.kind) && !d.unknown
    && (RegexLayer in d.sourceLayers || ContextLayer in d.sourceLayers || UserRuleLayer in d.sourceLayers)
  }

  /** The score: severity times confidence, which counts for 0.3 at least, and what the keywords
      beside it add, up to 1; and 0.85 at least when the finding is conclusive. */
  lemma {:induction false} ScoreExactly(d: Detection, hits: seq<KeywordHit>, sum: real)
    requires sum == BaseScore(d.kind) * (if d.confidence < 0.3 then 0.3 else d.confidence)
                    + 0.2 * |HitsBeside(hits, d.box, true)| as real
                    + 0.08 * |HitsBeside(hits, d.box, false)| as real
    ensures RiskScore(d, hits) ==
            if Conclusive(d) && sum < 0.85 then 0.85 else if sum > 1.0 then 1.0 else sum
  {
    BoostsExactly(hits, d.box);
    ConclusiveExactly(d);
  }

  lemma {:induction false} ConclusiveExactly(d: Detection)
    ensures IntrinsicFloorFor(d) == if Conclusive(d) then Some(0.85) else None
  {
    if i :| 0 <= i < |d.sourceLayers| && Sufficient(d.sourceLayers[i]) {
      assert d.sourceLayers[i] in d.sourceLayers;
    }
    if layer :| layer in d.sourceLayers && (layer.RegexLayer? || layer.ContextLayer? || layer.UserRuleLayer?) {
      var i :| 0 <= i < |d.sourceLayers| && d.sourceLayers[i] == layer;
      assert Sufficient(d.sourceLayers[i]);
    }
  }

  // ---------- the action ----------

  /** `name` is `word`, but for the case of its letters. */
  predicate Spells(name: string, word: string) {
    |name| == |word| && forall i :: 0 <= i < |word| ==> SameLetter(name[i], word[i])
  }

  /** `c` is written for the lower-case letter or other character `w`. */
  predicate SameLetter(c: char, w: char) {
    || (c == w && !('A' <= c <= 'Z'))
    || ('a' <= w <= 'z' && c as int + 32 == w as int)
    || (w == 'k' && c == '\U{212A}')
  }

  lemma {:induction false} LowerSpells(name: string, word: string)
    requires forall i :: 0 <= i < |word| ==> !('A' <= word[i] <= 'Z') && word[i] != '\U{212A}'
    ensures Lower(name) == word <==> Spells(name, word)
  {
    if Lower(name) == word {
      forall i | 0 <= i < |word|
        ensures SameLetter(name[i], word[i])
      {
        assert Lower(name)[i] == LowerChar(name[i]);
      }
    }
    if Spells(name, word) {
      forall i | 0 <= i < |word|
        ensures Lower(name)[i] == word[i]
      {
        assert SameLetter(name[i], word[i]);
      }
    }
  }

  /** The action for a critical finding: a full mask in strict mode and for every name but three. */
  lemma {:induction false} CriticalActionExactly(policy: Policy)
    ensures ActionFor(CRITICAL, policy) ==
            if policy.strict then FULL_MASK
            else if Spells(policy.criticalAction, "blur") then BLUR
            else if Spells(policy.criticalAction, "pixelate") then PIXELATE
            else if Spells(policy.criticalAction, "partial_mask") then PARTIAL_MASK
            else FULL_MASK
  {
    LowerSpells(policy.criticalAction, "blur");
    LowerSpells(policy.criticalAction, "pixelate");
    LowerSpells(policy.criticalAction, "partial_mask");
  }

  /** An uncertain finding of one of these types is masked whatever its score. */
  predicate NeverSkipped(kind: Kind) { CriticalByItself(kind) || kind == OpaqueSecret }

  /** From the score to the action: a user rule has its own; what is uncertain is masked, if it
      matters; else the bands from 0.3, 0.6 and 0.8 up decide. */
  lemma {:induction false} ActionExactly(v: Detection, hits: seq<KeywordHit>, policy: Policy, w: Detection)
    requires w == Decided(Scored(v, hits), policy)
    ensures v.action != NONE && UserRuleLayer in v.sourceLayers ==> w == v
    ensures !(v.action != NONE && UserRuleLayer in v.sourceLayers) ==>
              var score := RiskScore(v, hits);
              && w.action == (if v.unknown && (NeverSkipped(v.kind) || score >= 0.6) then FULL_MASK
                              else if score >= 0.8 then ActionFor(CRITICAL, policy)
                              else if score >= 0.6 then BLUR
                              else if score >= 0.3 then PARTIAL_MASK
                              else NONE)
              && w.needsReview == (v.needsReview || (v.unknown && (NeverSkipped(v.kind) || score >= 0.6)))
              && w == v.(riskScore := score, riskLevel := w.riskLevel, action := w.action, needsReview := w.needsReview)
              && w.riskLevel == (if score >= 0.8 then CRITICAL else if score >= 0.6 then HIGH
                                 else if score >= 0.3 then MEDIUM else LOW)
  {}

  // ---------- findings on their own ----------

  /** What a finding comes to that no other overlaps and that no keyword is beside. */
  lemma {:induction false} LoneFindingFate(d: Detection, policy: Policy, w: Detection)
    requires ByDetector(d) && ReportedAt(d.sourceLayers[0], d.kind) == Some(d.confidence)
    requires w == Decided(Scored(d, []), policy)
    ensures CriticalByItself(d.kind) && !d.unknown ==> w.action == ActionFor(CRITICAL, policy)
    ensures d.unknown && d.kind in {Passport, BankAccount, OpaqueSecret} ==> w.action == FULL_MASK && w.needsReview
    ensures d.kind in {Email, Phone, Address, Birthday, EmployeeID, CustomerID} ==> w.action == PARTIAL_MASK
    ensures d.kind == PersonalName ==> w.action == if d.unknown then NONE else PARTIAL_MASK
    ensures d.kind in {URL, IPAddress, UnknownKind} ==> w.action == NONE
    ensures d.kind.UserRule? ==> w == d
  {
    ActionExactly(d, [], policy, w);
    assert HitsBeside([], d.box, true) == {} && HitsBeside([], d.box, false) == {};
    ScoreExactly(d, [], BaseScore(d.kind) * (if d.confidence < 0.3 then 0.3 else d.confidence));
  }

  /** One critical keyword beside an address of mail is enough to blur it. */
  lemma {:induction false} KeywordRaisesEmail(d: Detection, hit: KeywordHit, policy: Policy, w: Detection)
    requires ByDetector(d) && d.kind == Email && d.sourceLayers == [RegexLayer] && d.confidence == 0.95
    requires hit.critical && ShareARow(d.box, hit.box) && w == Decided(Scored(d, [hit]), policy)
    ensures w.riskLevel == HIGH && w.action == BLUR
  {
    assert Beside(hit, d.box, true);
    assert HitsBeside([hit], d.box, true) == {0} && HitsBeside([hit], d.box, false) == {};
    ScoreExactly(d, [hit], 0.55 * 0.95 + 0.2);
  }
}
