/** What a review guarantees (maskguard/api/review_service.py). */
module ReviewProperties {
  import opened DetectionMerging
  import opened MergedPlaces
  import opened Models
  import opened PolicyDecisions
  import opened ReviewService
  import opened RiskScoring

  // ---------- accepted or refused ----------

  lemma {:induction false} FirstNone<T, U>(s: seq<T>, f: T -> Option<U>)
    ensures First(s, f).None? <==> forall k :: 0 <= k < |s| ==> f(s[k]).None?
  {
    if s != [] {
      FirstNone(s[..|s| - 1], f);
      if forall k :: 0 <= k < |s| ==> f(s[k]).None? {
        assert forall k :: 0 <= k < |s| - 1 ==> s[..|s| - 1][k] == s[k];
      } else {
        assert forall k :: 0 <= k < |s| - 1 ==> s[k] == s[..|s| - 1][k];
      }
    }
  }

  /** The refusal reported is that of the first item that has one. */
  lemma {:induction false} FirstIsFirst<T, U>(s: seq<T>, f: T -> Option<U>)
    requires First(s, f).Some?
    ensures exists k :: 0 <= k < |s| && f(s[k]) == First(s, f) && forall l :: 0 <= l < k ==> f(s[l]).None?
  {
    var front := s[..|s| - 1];
    FirstNone(front, f);
    assert forall k :: 0 <= k < |front| ==> front[k] == s[k];
    if First(front, f).Some? {
      FirstIsFirst(front, f);
      var k :| 0 <= k < |front| && f(front[k]) == First(front, f) && forall l :: 0 <= l < k ==> f(front[l]).None?;
      assert f(s[k]) == First(s, f);
    } else {
      assert f(s[|s| - 1]) == First(s, f);
      assert forall l :: 0 <= l < |s| - 1 ==> f(s[l]).None?;
    }
  }

  lemma {:induction false} ManualItemsExactly(items: seq<ReviewItem>, item: ReviewItem)
    ensures item in ManualItems(items) <==> item in items && item.detectionId.None? && item.manual
  {
    if items != [] {
      ManualItemsExactly(items[..|items| - 1], item);
      assert items == items[..|items| - 1] + [items[|items| - 1]];
    }
  }

  /** A manual item that can be added: a reviewable type and a box within the image. */
  predicate Drawn(item: ReviewItem, context: Tokens.ReviewContext) {
    && item.kind.Some? && Reviewable(item.kind.value) && item.box.Some?
    && 0 <= item.box.value.x && 0 <= item.box.value.y && 0 < item.box.value.width && 0 < item.box.value.height
    && item.box.value.Right() <= context.imageWidth && item.box.value.Bottom() <= context.imageHeight
  }

  lemma {:induction false} PositiveProduct(w: int, h: int, width: int, height: int)
    requires 0 < w <= width && 0 < h <= height
    ensures width * height > 0
  {
    assert width * height >= width * 1;
  }

  /** A box is accepted if and only if it is a nonempty part of the image, neither too small
      nor too large: the image is never empty then, so the last check always applies. */
  lemma {:induction false} BoxAcceptedExactly(b: BoundingBox, context: Tokens.ReviewContext, settings: Settings)
    ensures BoxProblem(b, context, settings).None? <==>
            && 0 <= b.x && 0 <= b.y && 0 < b.width && 0 < b.height
            && BoundingBox(0, 0, context.imageWidth, context.imageHeight).Contains(b)
            && settings.minBoxWidth <= b.width && settings.minBoxHeight <= b.height
            && (b.width * b.height) as real
               <= (context.imageWidth * context.imageHeight) as real * settings.maxAreaRatio
  {
    if 0 <= b.x && 0 <= b.y && 0 < b.width && 0 < b.height && b.Right() <= context.imageWidth &&
      b.Bottom() <= context.imageHeight {
      PositiveProduct(b.width, b.height, context.imageWidth, context.imageHeight);
    }
  }

  lemma {:induction false} AcceptedBoxIsDrawn(item: ReviewItem, context: Tokens.ReviewContext, settings: Settings)
    requires ManualProblem(item, context, settings).None?
    ensures Drawn(item, context)
  {}

  /** A submission is processed exactly when it is for this image and every item of it, in
      whatever place, is acceptable. */
  lemma {:induction false} AcceptedExactly(context: Tokens.ReviewContext, items: seq<ReviewItem>, settings: Settings,
                                           width: int, height: int, policy: Policy, newId: nat -> string, r: Review)
    requires Outcomes(context, items, settings, width, height, policy, newId, r)
    ensures r.Reviewed? <==>
            && width == context.imageWidth && height == context.imageHeight
            && forall item :: item in items ==>
                 && ItemProblem(item, KnownIds(context.detections), settings).None?
                 && (item.detectionId.None? ==> ManualProblem(item, context, settings).None?)
  {
    var f := item => ItemProblem(item, KnownIds(context.detections), settings);
    var g := item => ManualProblem(item, context, settings);
    FirstNone(items, f);
    FirstNone(ManualItems(items), g);
    forall item: ReviewItem
      ensures item in ManualItems(items) <==> item in items && item.detectionId.None? && item.manual
    {
      ManualItemsExactly(items, item);
    }
    AllAre(items, f);
    AllAre(ManualItems(items), g);
  }

  lemma {:induction false} AllAre<T(!new), U>(s: seq<T>, f: T -> Option<U>)
    ensures (forall k :: 0 <= k < |s| ==> f(s[k]).None?) <==> forall x: T :: x in s ==> f(x).None?
  {}

  // ---------- written out ----------

  /** The item is about a detection of the token. */
  ghost predicate Named(item: ReviewItem, context: Tokens.ReviewContext) {
    exists i :: 0 <= i < |context.detections| && item.detectionId == Some(context.detections[i].detectionId)
  }

  /** A verdict on a detection of the token, a rejection with a reason that is not too long; or
      an item without an identifier that says it is manual. */
  ghost predicate WellFormed(item: ReviewItem, context: Tokens.ReviewContext, settings: Settings) {
    || (Named(item, context) && item.verdict.Some? &&
        (item.verdict == Some(REJECTED) && item.reason.Some? ==> |item.reason.value| <= settings.maxReasonLength))
    || (item.detectionId == None && item.manual)
  }

  /** One of the types that a reviewer may draw. */
  predicate OfReviewableType(item: ReviewItem) {
    item.kind.Some? &&
      item.kind.value in {TaiwanID, Passport, BankAccount, CreditCard, SecretKeyValue, BearerToken, JWT, Email, Phone,
                          PersonalName, Address}
  }

  /** A box within the image, neither empty nor too small nor too large. */
  predicate WellPlaced(b: BoundingBox, context: Tokens.ReviewContext, settings: Settings) {
    && 0 <= b.x && 0 <= b.y && 0 < b.width && 0 < b.height
    && b.x + b.width <= context.imageWidth && b.y + b.height <= context.imageHeight
    && settings.minBoxWidth <= b.width && settings.minBoxHeight <= b.height
    && (b.width * b.height) as real <= (context.imageWidth * context.imageHeight) as real * settings.maxAreaRatio
  }

  /** A manual item can be added. */
  predicate WellDrawn(item: ReviewItem, context: Tokens.ReviewContext, settings: Settings) {
    OfReviewableType(item) && item.box.Some? && WellPlaced(item.box.value, context, settings)
  }

  lemma {:induction false} ItemProblemExactly(item: ReviewItem, context: Tokens.ReviewContext, settings: Settings)
    ensures ItemProblem(item, KnownIds(context.detections), settings) ==
            if WellFormed(item, context, settings) then None
            else if item.detectionId != None && !Named(item, context) then Some(UnknownDetection)
            else Some(InvalidReview)
  {
    if item.detectionId.Some? && item.detectionId.value in KnownIds(context.detections) {
      var d :| d in context.detections && d.detectionId == item.detectionId.value;
      var i :| 0 <= i < |context.detections| && context.detections[i] == d;
      assert Named(item, context);
    }
    assert Named(item, context) ==> item.detectionId.value in KnownIds(context.detections);
  }

  lemma {:induction false} ManualProblemExactly(item: ReviewItem, context: Tokens.ReviewContext, settings: Settings)
    ensures ManualProblem(item, context, settings) ==
            if WellDrawn(item, context, settings) then None
            else if !OfReviewableType(item) then Some(InvalidDetectionType)
            else if item.box == None then Some(InvalidReview)
            else Some(InvalidBBox)
  {
    assert OfReviewableType(item) <==> item.kind.Some? && Reviewable(item.kind.value);
    if item.box.Some? {
      BoxAcceptedExactly(item.box.value, context, settings);
    }
  }

  /** A submission is processed if and only if it is for this image and each item is a verdict on
      a detection of the token, or a well drawn manual addition. */
  lemma {:induction false} ProcessedExactly(context: Tokens.ReviewContext, items: seq<ReviewItem>, settings: Settings,
        width: int, height: int, policy: Policy, newId: nat -> string, r: Review)
    requires Outcomes(context, items, settings, width, height, policy, newId, r)
    ensures r.Reviewed? <==>
            && width == context.imageWidth && height == context.imageHeight
            && forall k :: 0 <= k < |items| ==>
                 && WellFormed(items[k], context, settings)
                 && (items[k].detectionId == None ==> WellDrawn(items[k], context, settings))
  {
    AcceptedExactly(context, items, settings, width, height, policy, newId, r);
    forall k | 0 <= k < |items|
      ensures ItemProblem(items[k], KnownIds(context.detections), settings).None? <==>
              WellFormed(items[k], context, settings)
      ensures ManualProblem(items[k], context, settings).None? <==> WellDrawn(items[k], context, settings)
    {
      ItemProblemExactly(items[k], context, settings);
      ManualProblemExactly(items[k], context, settings);
    }
    assert forall item :: item in items <==> exists k :: 0 <= k < |items| && items[k] == item;
  }

  function ForManual<U>(g: ReviewItem -> Option<U>): ReviewItem -> Option<U> {
    (item: ReviewItem) => if item.detectionId.None? && item.manual then g(item) else None
  }

  lemma {:induction false} FirstOfManual<U>(items: seq<ReviewItem>, g: ReviewItem -> Option<U>)
    ensures First(ManualItems(items), g) == First(items, ForManual(g))
  {
    if items != [] {
      var front, last := items[..|items| - 1], items[|items| - 1];
      FirstOfManual(front, g);
      if last.detectionId.None? && last.manual {
        assert (ManualItems(front) + [last])[..|ManualItems(front)|] == ManualItems(front);
      } else {
        assert ManualItems(front) + [] == ManualItems(front);
      }
    }
  }

  /** `k` is the first item of which `p` does not hold. */
  ghost predicate FirstFailing(items: seq<ReviewItem>, p: ReviewItem -> bool, k: nat) {
    k < |items| && !p(items[k]) && forall l :: 0 <= l < k ==> p(items[l])
  }

  lemma {:induction false} FirstAt<T, U>(s: seq<T>, f: T -> Option<U>, k: nat)
    requires k < |s| && f(s[k]).Some? && forall l :: 0 <= l < k ==> f(s[l]).None?
    ensures First(s, f) == f(s[k])
  {
    FirstNone(s[..k], f);
    FirstFound(s, k, f);
  }

  /** Which refusal: the first item that is not well formed decides, by whether it names an
      unknown detection; if all are, the first manual one that is not well drawn, by its type,
      a missing box, or a box that is not acceptable. */
  lemma {:induction false} RefusalExactly(context: Tokens.ReviewContext, items: seq<ReviewItem>, settings: Settings,
        width: int, height: int, policy: Policy, newId: nat -> string, r: Review, k: nat,
        formed: ReviewItem -> bool, drawn: ReviewItem -> bool)
    requires Outcomes(context, items, settings, width, height, policy, newId, r)
    requires forall item :: formed(item) <==> WellFormed(item, context, settings)
    requires forall item :: drawn(item) <==> item.detectionId == None ==> WellDrawn(item, context, settings)
    ensures width != context.imageWidth || height != context.imageHeight ==> r == Refused(InvalidReview)
    ensures width == context.imageWidth && height == context.imageHeight && FirstFailing(items, formed, k) ==>
              r == Refused(if items[k].detectionId != None && !Named(items[k], context) then UnknownDetection
                           else InvalidReview)
    ensures && width == context.imageWidth && height == context.imageHeight
            && (forall l :: 0 <= l < |items| ==> formed(items[l])) && FirstFailing(items, drawn, k) ==>
              r == Refused(if !OfReviewableType(items[k]) then InvalidDetectionType
                           else if items[k].box == None then InvalidReview
                           else InvalidBBox)
  {
    var f := item => ItemProblem(item, KnownIds(context.detections), settings);
    var g := item => ManualProblem(item, context, settings);
    forall item: ReviewItem
      ensures f(item).None? <==> formed(item)
      ensures formed(item) ==> (ForManual(g)(item).None? <==> drawn(item))
    {
      ItemProblemExactly(item, context, settings);
      ManualProblemExactly(item, context, settings);
    }
    FirstOfManual(items, g);
    FirstNone(items, f);
    if FirstFailing(items, formed, k) {
      FirstAt(items, f, k);
      ItemProblemExactly(items[k], context, settings);
    } else if (forall l :: 0 <= l < |items| ==> formed(items[l])) && FirstFailing(items, drawn, k) {
      FirstAt(items, ForManual(g), k);
      ManualProblemExactly(items[k], context, settings);
    }
  }

  // ---------- decisions ----------

  /** `k` is the last item about `id`. */
  ghost predicate LastAbout(items: seq<ReviewItem>, id: string, k: nat) {
    && k < |items| && items[k].detectionId == Some(id) && items[k].verdict.Some?
    && forall l :: k < l < |items| ==> items[l].detectionId == Some(id) ==> items[l].verdict.None?
  }

  /** The last decision about a detection is the one that counts. */
  lemma {:induction false} LastDecisionCounts(items: seq<ReviewItem>, id: string)
    ensures id in Decisions(items) <==>
              exists k :: 0 <= k < |items| && items[k].detectionId == Some(id) && items[k].verdict.Some?
    ensures id in Decisions(items) ==>
              exists k: nat :: LastAbout(items, id, k) && Decisions(items)[id] == items[k].verdict.value
  {
    if items != [] {
      var front, last := items[..|items| - 1], items[|items| - 1];
      LastDecisionCounts(front, id);
      assert forall k :: 0 <= k < |front| ==> front[k] == items[k];
      if last.detectionId == Some(id) && last.verdict.Some? {
        assert LastAbout(items, id, |items| - 1);
      } else if id in Decisions(front) {
        var k: nat :| LastAbout(front, id, k) && Decisions(front)[id] == front[k].verdict.value;
        assert LastAbout(items, id, k);
      }
    }
  }

  // ---------- what is kept ----------

  /** Where in the token the kept detections come from. */
  ghost function KeptAt(ds: seq<Tokens.TokenDetection>, decisions: map<string, Verdict>): seq<nat> {
    if ds == [] then []
    else KeptAt(ds[..|ds| - 1], decisions) + if Dropped(decisions, ds[|ds| - 1]) then [] else [|ds| - 1]
  }

  ghost predicate Places(ds: seq<Tokens.TokenDetection>, decisions: map<string, Verdict>, at: seq<nat>,
        kept: seq<Tokens.TokenDetection>) {
    && |at| == |kept| && Ascending(at)
    && (forall p :: 0 <= p < |at| ==> at[p] < |ds| && kept[p] == ds[at[p]])
    && (forall i :: 0 <= i < |ds| ==> (i in at <==> !Dropped(decisions, ds[i])))
  }

  lemma {:induction false} KeptInPlace(ds: seq<Tokens.TokenDetection>, decisions: map<string, Verdict>)
    ensures Places(ds, decisions, KeptAt(ds, decisions), KeptTokens(ds, decisions))
  {
    if ds != [] {
      var front := ds[..|ds| - 1];
      KeptInPlace(front, decisions);
      OneMorePlace(ds, decisions, KeptAt(front, decisions), KeptTokens(front, decisions));
    }
  }

  lemma {:induction false} OneMorePlace(ds: seq<Tokens.TokenDetection>, decisions: map<string, Verdict>, at: seq<nat>,
        kept: seq<Tokens.TokenDetection>)
    requires ds != [] && Places(ds[..|ds| - 1], decisions, at, kept)
    ensures var n, last := |ds| - 1, ds[|ds| - 1];
            if Dropped(decisions, last) then Places(ds, decisions, at, kept)
            else Places(ds, decisions, at + [n], kept + [last])
  {
    var n := |ds| - 1;
    assert forall i :: 0 <= i < n ==> ds[..n][i] == ds[i];
    forall i | 0 <= i < n
      ensures i in at + [n] <==> i in at
    {}
    assert n !in at;
  }

  /** The kept list is the token's list, in order, without exactly the detections whose last
      decision is a rejection and whose type is not intrinsically critical. Type, box, risk
      level, action and confidence are the token's; only the review flag follows the
      decision. The identifiers stay beside their detections. */
  lemma {:induction false} KeptExactly(context: Tokens.ReviewContext, items: seq<ReviewItem>, settings: Settings,
                                       width: int, height: int, policy: Policy, newId: nat -> string, r: Review,
                                       decisions: map<string, Verdict>, at: seq<nat>)
    requires Outcomes(context, items, settings, width, height, policy, newId, r) && r.Reviewed?
    requires decisions == Decisions(items) && at == KeptAt(context.detections, decisions)
    ensures |r.kept| == |r.keptIds| == |at| && Ascending(at)
    ensures forall i :: 0 <= i < |context.detections| ==>
              (i !in at <==> Dropped(decisions, context.detections[i]))
    ensures forall p :: 0 <= p < |at| ==>
              at[p] < |context.detections| && KeptFrom(context.detections[at[p]], decisions, r.kept[p], r.keptIds[p])
  {
    KeptInPlace(context.detections, decisions);
  }

  /** What it takes for a detection of the token to be left out: the last verdict on it rejects
      it, and it is not of a type that is critical by itself. */
  lemma {:induction false} DroppedExactly(items: seq<ReviewItem>, t: Tokens.TokenDetection)
    ensures Dropped(Decisions(items), t) <==>
            && t.kind !in {TaiwanID, Passport, BankAccount, CreditCard, SecretKeyValue, BearerToken, JWT}
            && RejectedLast(items, t.detectionId)
  {
    LastDecisionCounts(items, t.detectionId);
    forall k: nat, l: nat | LastAbout(items, t.detectionId, k) && LastAbout(items, t.detectionId, l)
      ensures k == l
    {}
  }

  /** A human is asked for exactly when the last verdict on some critical finding rejects it. */
  lemma {:induction false} CriticalRejectedExactly(items: seq<ReviewItem>, ds: seq<Tokens.TokenDetection>)
    ensures CriticalRejected(ds, Decisions(items)) <==>
            exists i :: 0 <= i < |ds| && RejectedLast(items, ds[i].detectionId) &&
              ds[i].kind in {TaiwanID, Passport, BankAccount, CreditCard, SecretKeyValue, BearerToken, JWT}
  {
    forall i | 0 <= i < |ds|
      ensures RejectedIn(Decisions(items), ds[i]) <==> RejectedLast(items, ds[i].detectionId)
    {
      LastDecisionCounts(items, ds[i].detectionId);
    }
  }

  ghost predicate RejectedLast(items: seq<ReviewItem>, id: string) {
    exists k: nat :: LastAbout(items, id, k) && items[k].verdict == Some(REJECTED)
  }

  predicate KeptFrom(t: Tokens.TokenDetection, decisions: map<string, Verdict>, d: Detection, id: string) {
    && d == Detection(t.kind, "", t.confidence, t.box, 0.0, t.riskLevel, t.action, [ReviewKeptLayer], false,
                      d.needsReview)
    && id == t.detectionId
    && (d.needsReview <==> if id in decisions then decisions[id] == REJECTED else t.needsReview)
  }

  // ---------- manual additions ----------

  predicate Addable(d: Detection, kept: seq<Detection>) {
    && d == ManualDetection(d.kind, d.box) && Reviewable(d.kind) && d.box.width > 0 && d.box.height > 0
    && !Redundant(kept, d.kind, d.box)
  }

  ghost predicate AllDrawn(items: seq<ReviewItem>, context: Tokens.ReviewContext) {
    forall k :: 0 <= k < |items| ==> Drawn(items[k], context)
  }

  lemma {:induction false} AdditionsAddable(items: seq<ReviewItem>, kept: seq<Detection>, context: Tokens.ReviewContext)
    requires AllDrawn(items, context)
    ensures forall a :: 0 <= a < |Additions(items, kept)| ==> Addable(Additions(items, kept)[a], kept)
  {
    if items != [] {
      assert forall k :: 0 <= k < |items| - 1 ==> items[..|items| - 1][k] == items[k];
      AdditionsAddable(items[..|items| - 1], kept, context);
    }
  }

  /** Every drawn box is redundant or added. */
  lemma {:induction false} RedundantOrAdded(items: seq<ReviewItem>, kept: seq<Detection>,
        context: Tokens.ReviewContext, j: nat)
    requires AllDrawn(items, context) && j < |items|
    ensures Redundant(kept, items[j].kind.value, items[j].box.value) ||
            ManualDetection(items[j].kind.value, items[j].box.value) in Additions(items, kept)
  {
    var front := items[..|items| - 1];
    assert forall k :: 0 <= k < |front| ==> front[k] == items[k];
    if j < |items| - 1 {
      RedundantOrAdded(front, kept, context, j);
    }
  }

  /** The two are of different types or in different places. */
  predicate Separate(a: Detection, b: Detection) { a.kind != b.kind || !a.box.Overlaps(b.box) }

  ghost predicate Apart(ds: seq<Detection>, reps: seq<nat>) {
    && (forall k :: 0 <= k < |reps| ==> reps[k] < |ds|)
    && forall k, l :: 0 <= k < l < |reps| ==> Separate(ds[reps[k]], ds[reps[l]])
  }

  /** Where everything is, of what type, and how certain; among equals merging changes none of it. */
  ghost predicate Steady(ds: seq<Detection>, values: seq<Detection>) {
    |values| == |ds| && forall i :: 0 <= i < |ds| ==>
      values[i].box == ds[i].box && values[i].kind == ds[i].kind && values[i].confidence == ds[i].confidence == 1.0
  }

  lemma {:induction false} SteadyAfterOne(ds: seq<Detection>, m: Merge, i: nat)
    requires Steady(ds, m.values) && i < |ds|
    ensures Steady(ds, MergeOne(m, i, ds[i]).values)
  {}

  lemma {:induction false} ApartAfterOne(ds: seq<Detection>, m: Merge, i: nat)
    requires Apart(ds, m.reps) && i < |ds| && Steady(ds, m.values)
    ensures Apart(ds, MergeOne(m, i, ds[i]).reps)
  {
    FirstDuplicateIsFirst(m.values, m.reps, ds[i]);
    if FirstDuplicate(m.values, m.reps, ds[i]).None? {
      forall k | 0 <= k < |m.reps|
        ensures ds[m.reps[k]].kind != ds[i].kind || !ds[m.reps[k]].box.Overlaps(ds[i].box)
      {
        assert !Duplicates(m.values, m.reps[k], ds[i]);
      }
    }
  }

  /** Groups of one type do not overlap. */
  lemma {:induction false} GroupsApart(ds: seq<Detection>, n: nat, kept: seq<Detection>)
    requires n <= |ds| && forall i :: 0 <= i < |ds| ==> Addable(ds[i], kept)
    ensures Apart(ds, Merged(ds, n).reps)
  {
    var p := (k: nat, m: Merge) => Steady(ds, m.values) && Apart(ds, m.reps);
    forall k: nat, m: Merge | k < n && p(k, m)
      ensures p(k + 1, MergeOne(m, k, ds[k]))
    {
      SteadyAfterOne(ds, m, k);
      ApartAfterOne(ds, m, k);
    }
    MergeInduction(ds, n, p);
  }

  /** A group of additions is worth what its leader was. */
  predicate LikeLeader(d: Detection, v: Detection) {
    && v.kind == d.kind && v.box == d.box && v.text == d.text
    && v.confidence == d.confidence && v.unknown == d.unknown && v.action == d.action && ByHand(v)
  }

  /** It comes from the manual review and from nowhere else. */
  predicate ByHand(d: Detection) {
    d.sourceLayers != [] && forall i :: 0 <= i < |d.sourceLayers| ==> d.sourceLayers[i] == ManualReviewLayer
  }

  lemma {:induction false} GroupLikeLeader(ds: seq<Detection>, kept: seq<Detection>, r: nat, v: Detection)
    requires (forall i :: 0 <= i < |ds| ==> Addable(ds[i], kept)) && r in Merged(ds, |ds|).reps && r < |ds|
    requires v == Merged(ds, |ds|).values[r]
    ensures LikeLeader(ds[r], v)
  {
    LeadsItself(ds, r);
    RepresentativeOf(ds, r);
    UnbeatenKeepsBox(ds, |ds|, r);
    AsFirst(ds, kept, Members(Merged(ds, |ds|).owner, r), v);
  }

  lemma {:induction false} AsFirst(ds: seq<Detection>, kept: seq<Detection>, members: seq<nat>, v: Detection)
    requires (forall i :: 0 <= i < |ds| ==> Addable(ds[i], kept)) && Represents(ds, members, v)
    ensures v.confidence == 1.0 && v.text == "" && !v.unknown && v.action == NONE && ByHand(v)
  {
    var k: nat :| FirstGreatest(ds, members, v, k);
    LayersByHand(ds, kept, members, v);
    assert Addable(ds[members[0]], kept) && Addable(ds[members[k]], kept);
  }

  lemma {:induction false} LayersByHand(ds: seq<Detection>, kept: seq<Detection>, members: seq<nat>, v: Detection)
    requires (forall i :: 0 <= i < |ds| ==> Addable(ds[i], kept)) && Represents(ds, members, v)
    ensures ByHand(v)
  {
    assert Addable(ds[members[0]], kept);
    GroupLayers(ds, members, v, ManualReviewLayer);
    forall i | 0 <= i < |v.sourceLayers|
      ensures v.sourceLayers[i] == ManualReviewLayer
    {
      GroupLayers(ds, members, v, v.sourceLayers[i]);
      var k :| 0 <= k < |members| && v.sourceLayers[i] in ds[members[k]].sourceLayers;
      assert Addable(ds[members[k]], kept);
    }
  }

  /** What the engines make of a manual addition. */
  function ManualAction(kind: Kind, policy: Policy): RedactionAction {
    if IntrinsicCritical(kind) then ActionFor(CRITICAL, policy) else PARTIAL_MASK
  }

  lemma {:induction false} ManualVerdict(d: Detection, v: Detection, kept: seq<Detection>, policy: Policy)
    requires Addable(d, kept) && LikeLeader(d, v)
    ensures FinalAddition(d, Decided(Scored(v, []), policy), policy)
  {}

  predicate FinalAddition(d: Detection, w: Detection, policy: Policy) {
    && w.kind == d.kind && w.box == d.box && w.text == "" && w.confidence == 1.0 && !w.unknown && ByHand(w)
    && w.action == ManualAction(d.kind, policy) && w.action != NONE
  }

  lemma {:induction false} UnscoredVerdict(d: Detection, kept: seq<Detection>, policy: Policy)
    requires Addable(d, kept)
    ensures Decided(d, policy).action == NONE
  {}

  lemma {:induction false} DecidedAt(ds: seq<Detection>, policy: Policy, i: nat, m: Merge, out: seq<Detection>)
    requires i < |ds| && m == Merged(ds, |ds|) && out == AdditionsDecided(ds, policy)
    ensures |out| == |ds| == |m.values|
    ensures out[i] == Decided(if i in m.reps then Scored(m.values[i], []) else m.values[i], policy)
  {
    assert UpTo(|ds|)[i] == i;
  }

  /** The leaders are redacted, the rest dropped. */
  lemma {:induction false} FateOfAddition(ds: seq<Detection>, kept: seq<Detection>, policy: Policy, i: nat, m: Merge,
        out: seq<Detection>)
    requires (forall k :: 0 <= k < |ds| ==> Addable(ds[k], kept)) && i < |ds|
    requires m == Merged(ds, |ds|) && out == AdditionsDecided(ds, policy)
    ensures |out| == |ds|
    ensures if i in m.reps then FinalAddition(ds[i], out[i], policy) else out[i].action == NONE
  {
    DecidedAt(ds, policy, i, m, out);
    if i in m.reps {
      GroupLikeLeader(ds, kept, i, m.values[i]);
      ManualVerdict(ds[i], m.values[i], kept, policy);
    } else {
      MergingSettles(ds, |ds|, i);
      UnscoredVerdict(ds[i], kept, policy);
    }
  }

  lemma {:induction false} RedactedAscends(ds: seq<Detection>, indices: seq<nat>)
    requires Ascending(indices)
    ensures Ascending(Redacted(ds, indices))
  {
    if indices != [] {
      var front := indices[..|indices| - 1];
      RedactedAscends(ds, front);
      assert forall k :: 0 <= k < |Redacted(ds, front)| ==> Redacted(ds, front)[k] in Redacted(ds, front);
    }
  }

  /** What is left of the additions: the leaders of their groups, in order. */
  ghost predicate Leaders(ds: seq<Detection>, m: Merge, out: seq<Detection>, left: seq<nat>, policy: Policy) {
    && Ascending(left)
    && (forall i :: i in left <==> i in m.reps)
    && (forall k :: 0 <= k < |left| ==> left[k] < |ds| == |out| && FinalAddition(ds[left[k]], out[left[k]], policy))
  }

  lemma {:induction false} LeftExactly(ds: seq<Detection>, kept: seq<Detection>, policy: Policy, m: Merge,
        out: seq<Detection>, left: seq<nat>, i: nat)
    requires forall k :: 0 <= k < |ds| ==> Addable(ds[k], kept)
    requires m == Merged(ds, |ds|) && out == AdditionsDecided(ds, policy) && left == Redacted(out, UpTo(|out|))
    ensures i in left <==> i in m.reps
    ensures i in left ==> i < |ds| == |out| && FinalAddition(ds[i], out[i], policy)
  {
    if i < |ds| {
      FateOfAddition(ds, kept, policy, i, m, out);
      assert UpTo(|out|)[i] == i;
    } else {
      MergingKeepsKinds(ds, |ds|);
    }
  }

  lemma {:induction false} LeftAreLeaders(ds: seq<Detection>, kept: seq<Detection>, policy: Policy, m: Merge,
        out: seq<Detection>, left: seq<nat>)
    requires forall k :: 0 <= k < |ds| ==> Addable(ds[k], kept)
    requires m == Merged(ds, |ds|) && out == AdditionsDecided(ds, policy) && left == Redacted(out, UpTo(|out|))
    ensures Leaders(ds, m, out, left, policy)
  {
    RedactedAscends(out, UpTo(|out|));
    forall i: nat
      ensures i in left <==> i in m.reps
      ensures i in left ==> i < |ds| == |out| && FinalAddition(ds[i], out[i], policy)
    {
      LeftExactly(ds, kept, policy, m, out, left, i);
    }
    assert forall k :: 0 <= k < |left| ==> left[k] in left;
  }

  // ---------- what a review promises about manual boxes ----------

  lemma {:induction false} AcceptedAreDrawn(context: Tokens.ReviewContext, items: seq<ReviewItem>, settings: Settings)
    requires First(ManualItems(items), item => ManualProblem(item, context, settings)).None?
    ensures AllDrawn(ManualItems(items), context)
  {
    FirstNone(ManualItems(items), item => ManualProblem(item, context, settings));
    forall k | 0 <= k < |ManualItems(items)|
      ensures Drawn(ManualItems(items)[k], context)
    {
      AcceptedBoxIsDrawn(ManualItems(items)[k], context, settings);
    }
  }

  /** The manual part of a review, given its additions `ds`. */
  ghost predicate ManualPart(ds: seq<Detection>, kept: seq<Detection>, policy: Policy, newId: nat -> string,
        r: Review, left: seq<nat>) {
    && r.Reviewed? && r.kept == kept
    && (forall a :: 0 <= a < |ds| ==> Addable(ds[a], kept))
    && left == Redacted(AdditionsDecided(ds, policy), UpTo(|ds|))
    && Picked(AdditionsDecided(ds, policy), left, newId, r.manual, r.manualIds)
  }

  lemma {:induction false} ReviewHasManualPart(context: Tokens.ReviewContext, items: seq<ReviewItem>,
        settings: Settings,
                                               width: int, height: int, policy: Policy, newId: nat -> string, r: Review,
                                               ds: seq<Detection>, left: seq<nat>)
    requires Outcomes(context, items, settings, width, height, policy, newId, r) && r.Reviewed?
    requires ds == Additions(ManualItems(items), r.kept) && left == Redacted(AdditionsDecided(ds, policy), UpTo(|ds|))
    ensures ManualPart(ds, r.kept, policy, newId, r, left) && AllDrawn(ManualItems(items), context)
  {
    AcceptedAreDrawn(context, items, settings);
    AdditionsAddable(ManualItems(items), r.kept, context);
  }

  /** `final` has a detection of this type that overlaps `box`. */
  predicate Covered(final: seq<Detection>, kind: Kind, box: BoundingBox) {
    exists p :: 0 <= p < |final| && final[p].kind == kind && final[p].box.Overlaps(box)
  }

  lemma {:induction false} KeptCovers(kept: seq<Detection>, manual: seq<Detection>, kind: Kind, box: BoundingBox)
    requires Redundant(kept, kind, box)
    ensures Covered(kept + manual, kind, box)
  {
    var q :| 0 <= q < |kept| && kept[q].kind == kind && kept[q].box.Overlaps(box);
    assert (kept + manual)[q] == kept[q];
  }

  lemma {:induction false} LeaderCovers(ds: seq<Detection>, kept: seq<Detection>, a: nat, m: Merge)
    requires (forall k :: 0 <= k < |ds| ==> Addable(ds[k], kept)) && a < |ds| && m == Merged(ds, |ds|)
    ensures |m.owner| == |ds| && m.owner[a] in m.reps && m.owner[a] < |ds|
    ensures ds[m.owner[a]].kind == ds[a].kind && ds[m.owner[a]].box.Overlaps(ds[a].box)
  {
    OwnKind(ds, a, m);
    assert Addable(ds[a], kept);
    GroupKeepsPlaces(ds, m, m.owner[a]);
    EqualsSetNoRecord(ds, kept, m.owner, m.owner[a]);
    UnbeatenKeepsBox(ds, |ds|, m.owner[a]);
  }

  /** Additions are equally confident. */
  lemma {:induction false} EqualsSetNoRecord(ds: seq<Detection>, kept: seq<Detection>, owner: seq<nat>, r: nat)
    requires (forall k :: 0 <= k < |ds| ==> Addable(ds[k], kept)) && |owner| == |ds| && r < |ds|
    ensures NoLateRecord(ds, owner, r) && LeaderUnbeaten(ds, owner, r)
  {
    forall i, j, k | 0 <= i < j < k < |owner| && owner[i] == r && owner[j] == r && owner[k] == r
      ensures Matched(ds, owner, r, k)
    {
      assert Addable(ds[i], kept) && Addable(ds[k], kept);
    }
    assert forall k :: 0 <= k < |ds| ==> Addable(ds[k], kept) && ds[k].confidence == 1.0;
  }

  lemma {:induction false} OwnKind(ds: seq<Detection>, a: nat, m: Merge)
    requires a < |ds| && m == Merged(ds, |ds|)
    ensures |m.owner| == |ds| && m.owner[a] in m.reps && m.owner[a] < |ds| && ds[m.owner[a]].kind == ds[a].kind
  {
    RepresentativeOf(ds, a);
    MergingKeepsKinds(ds, |ds|);
  }

  lemma {:induction false} AdditionCovered(ds: seq<Detection>, kept: seq<Detection>, policy: Policy,
        newId: nat -> string, r: Review, left: seq<nat>, a: nat)
    requires ManualPart(ds, kept, policy, newId, r, left) && a < |ds|
    ensures Covered(kept + r.manual, ds[a].kind, ds[a].box)
  {
    var m := Merged(ds, |ds|);
    LeftAreLeaders(ds, kept, policy, m, AdditionsDecided(ds, policy), left);
    LeaderCovers(ds, kept, a, m);
    var k :| 0 <= k < |left| && left[k] == m.owner[a];
    assert (kept + r.manual)[|kept| + k] == r.manual[k];
  }

  /** Every box a reviewer drew overlaps a final detection of its type. */
  lemma {:induction false} EveryBoxCovered(context: Tokens.ReviewContext, items: seq<ReviewItem>, settings: Settings,
        width: int, height: int, policy: Policy, newId: nat -> string, r: Review, j: nat)
    requires Outcomes(context, items, settings, width, height, policy, newId, r) && r.Reviewed?
    requires j < |ManualItems(items)|
    ensures Drawn(ManualItems(items)[j], context)
    ensures Covered(r.kept + r.manual, ManualItems(items)[j].kind.value, ManualItems(items)[j].box.value)
  {
    var ds := Additions(ManualItems(items), r.kept);
    var left := Redacted(AdditionsDecided(ds, policy), UpTo(|ds|));
    ReviewHasManualPart(context, items, settings, width, height, policy, newId, r, ds, left);
    RedundantOrAdded(ManualItems(items), r.kept, context, j);
    var item := ManualItems(items)[j];
    if Redundant(r.kept, item.kind.value, item.box.value) {
      KeptCovers(r.kept, r.manual, item.kind.value, item.box.value);
    } else {
      var a :| 0 <= a < |ds| && ds[a] == ManualDetection(item.kind.value, item.box.value);
      AdditionCovered(ds, r.kept, policy, newId, r, left, a);
    }
  }

  lemma {:induction false} PartApart(ds: seq<Detection>, kept: seq<Detection>, policy: Policy, newId: nat -> string,
        r: Review, left: seq<nat>,
                                     p: nat, q: nat)
    requires ManualPart(ds, kept, policy, newId, r, left) && p < |r.manual|
    ensures p < q < |r.manual| ==> Separate(r.manual[p], r.manual[q])
    ensures q < |kept| ==> Separate(kept[q], r.manual[p])
    ensures r.manual[p].text == "" && left[p] < |ds| && FinalAddition(ds[left[p]], r.manual[p], policy)
    ensures r.manualIds[p] == newId(left[p])
  {
    var m, out := Merged(ds, |ds|), AdditionsDecided(ds, policy);
    LeftAreLeaders(ds, kept, policy, m, out, left);
    if p < q < |r.manual| {
      GroupsApart(ds, |ds|, kept);
      MergingIndexes(ds, |ds|);
      LeadersApart(ds, m.reps, left[p], left[q]);
    }
    assert Addable(ds[left[p]], kept);
  }

  lemma {:induction false} LeadersApart(ds: seq<Detection>, reps: seq<nat>, a: nat, b: nat)
    requires Apart(ds, reps) && Ascending(reps) && a in reps && b in reps && a < b
    ensures a < |ds| && b < |ds| && Separate(ds[a], ds[b])
  {
    var k :| 0 <= k < |reps| && reps[k] == a;
    var l :| 0 <= l < |reps| && reps[l] == b;
    assert k < l;
  }

  /** The final manual detections are redacted as the engines decide for their type, each
      beside the identifier of the addition it came from, and show nothing twice: no two of
      one type overlap, nor do a manual and a kept one. */
  lemma {:induction false} ManualExactly(context: Tokens.ReviewContext, items: seq<ReviewItem>, settings: Settings,
        width: int, height: int, policy: Policy, newId: nat -> string, r: Review, p: nat, q: nat)
    requires Outcomes(context, items, settings, width, height, policy, newId, r) && r.Reviewed? && p < |r.manual|
    ensures Reviewable(r.manual[p].kind) && r.manual[p].action == ManualAction(r.manual[p].kind, policy) != NONE
    ensures r.manual[p].text == "" && r.manual[p].confidence == 1.0 && !r.manual[p].unknown && ByHand(r.manual[p])
    ensures |r.manualIds| == |r.manual|
    ensures IdentifiedBy(Additions(ManualItems(items), r.kept), newId, r.manual[p], r.manualIds[p])
    ensures p < q < |r.manual| ==> Separate(r.manual[p], r.manual[q])
    ensures q < |r.kept| ==> Separate(r.kept[q], r.manual[p])
  {
    var ds := Additions(ManualItems(items), r.kept);
    var left := Redacted(AdditionsDecided(ds, policy), UpTo(|ds|));
    ReviewHasManualPart(context, items, settings, width, height, policy, newId, r, ds, left);
    PartApart(ds, r.kept, policy, newId, r, left, p, q);
    assert Addable(ds[left[p]], r.kept);
  }

  /** The identifier was drawn for an addition of this type in this place. */
  ghost predicate IdentifiedBy(ds: seq<Detection>, newId: nat -> string, d: Detection, id: string) {
    exists a :: 0 <= a < |ds| && id == newId(a) && ds[a].kind == d.kind && ds[a].box == d.box
  }

  predicate NoRepetition(ids: seq<string>) { forall i, j :: 0 <= i < j < |ids| ==> ids[i] != ids[j] }

  /** Identifiers are drawn without repetition, and none that the token uses. */
  ghost predicate FreshIds(newId: nat -> string, known: set<string>) {
    (forall a: nat, b: nat :: newId(a) == newId(b) ==> a == b) && forall a: nat :: newId(a) !in known
  }

  lemma {:induction false} ManualIdsDrawn(context: Tokens.ReviewContext, items: seq<ReviewItem>, settings: Settings,
                                          width: int, height: int, policy: Policy, newId: nat -> string, r: Review)
    requires Outcomes(context, items, settings, width, height, policy, newId, r) && r.Reviewed?
    requires FreshIds(newId, KnownIds(context.detections))
    ensures NoRepetition(r.manualIds)
    ensures forall p :: 0 <= p < |r.manualIds| ==> r.manualIds[p] !in KnownIds(context.detections)
  {
    var ds := Additions(ManualItems(items), r.kept);
    var left := Redacted(AdditionsDecided(ds, policy), UpTo(|ds|));
    ReviewHasManualPart(context, items, settings, width, height, policy, newId, r, ds, left);
    LeftAreLeaders(ds, r.kept, policy, Merged(ds, |ds|), AdditionsDecided(ds, policy), left);
  }

  lemma {:induction false} KeptIdsKnown(ds: seq<Tokens.TokenDetection>, decisions: map<string, Verdict>)
    requires NoRepetition(Ids(ds))
    ensures NoRepetition(Ids(KeptTokens(ds, decisions)))
    ensures forall p :: 0 <= p < |KeptTokens(ds, decisions)| ==> Ids(KeptTokens(ds, decisions))[p] in KnownIds(ds)
  {
    KeptInPlace(ds, decisions);
    var at, kept := KeptAt(ds, decisions), KeptTokens(ds, decisions);
    forall p, q | 0 <= p < q < |kept|
      ensures Ids(kept)[p] != Ids(kept)[q]
    {
      assert Ids(ds)[at[p]] != Ids(ds)[at[q]];
    }
    forall p | 0 <= p < |kept|
      ensures Ids(kept)[p] in KnownIds(ds)
    {
      assert kept[p] == ds[at[p]] && ds[at[p]] in ds;
    }
  }

  lemma {:induction false} NoRepetitionConcat(a: seq<string>, b: seq<string>, known: set<string>)
    requires NoRepetition(a) && NoRepetition(b)
    requires (forall p :: 0 <= p < |a| ==> a[p] in known) && forall q :: 0 <= q < |b| ==> b[q] !in known
    ensures NoRepetition(a + b)
  {}

  /** When the token repeats no identifier and new ones are fresh, the final list repeats none. */
  lemma {:induction false} IdentifiersDistinct(context: Tokens.ReviewContext, items: seq<ReviewItem>,
        settings: Settings,
                                               width: int, height: int, policy: Policy, newId: nat -> string, r: Review)
    requires Outcomes(context, items, settings, width, height, policy, newId, r) && r.Reviewed?
    requires NoRepetition(Ids(context.detections)) && FreshIds(newId, KnownIds(context.detections))
    ensures NoRepetition(r.keptIds + r.manualIds)
  {
    ManualIdsDrawn(context, items, settings, width, height, policy, newId, r);
    KeptIdsKnown(context.detections, Decisions(items));
    NoRepetitionConcat(r.keptIds, r.manualIds, KnownIds(context.detections));
  }

  // ---------- when a drawn box is masked as drawn ----------

  /** The addition meets none of its type that leads before it. */
  predicate Leads(ds: seq<Detection>, a: nat)
    requires a < |ds|
  {
    forall b: nat :: b < a && Leads(ds, b) ==> Separate(ds[b], ds[a])
  }

  lemma {:induction false} LedBySomeone(ds: seq<Detection>, kept: seq<Detection>, a: nat, m: Merge)
    requires (forall k :: 0 <= k < |ds| ==> Addable(ds[k], kept)) && a < |ds| && m == Merged(ds, |ds|) && a !in m.reps
    ensures exists b: nat :: b < a && b in m.reps && !Separate(ds[b], ds[a])
  {
    LeaderCovers(ds, kept, a, m);
    LeaderFirst(ds, a, m);
    assert m.owner[a] < a && !Separate(ds[m.owner[a]], ds[a]);
  }

  /** The leaders of the groups are those that one pass over the additions finds. */
  lemma {:induction false} LeadersExactly(ds: seq<Detection>, kept: seq<Detection>, a: nat, m: Merge)
    requires (forall k :: 0 <= k < |ds| ==> Addable(ds[k], kept)) && a < |ds| && m == Merged(ds, |ds|)
    ensures a in m.reps <==> Leads(ds, a)
    decreases a
  {
    forall b: nat | b < a
      ensures b in m.reps <==> Leads(ds, b)
    {
      LeadersExactly(ds, kept, b, m);
    }
    if a in m.reps {
      GroupsApart(ds, |ds|, kept);
      MergingIndexes(ds, |ds|);
      forall b: nat | b < a && Leads(ds, b)
        ensures Separate(ds[b], ds[a])
      {
        LeadersApart(ds, m.reps, b, a);
      }
    } else {
      LedBySomeone(ds, kept, a, m);
    }
  }

  predicate DrawnBy(item: ReviewItem, d: Detection) { item.kind == Some(d.kind) && item.box == Some(d.box) }

  /** A drawn box is masked as drawn, being the box of a final manual detection of its type,
      if and only if it was added and met no leading addition of its type before it.
      Otherwise a detection of its type overlaps it and may leave part of it as it was. */
  lemma {:induction false} MaskedAsDrawnExactly(context: Tokens.ReviewContext, items: seq<ReviewItem>,
        settings: Settings,
      width: int, height: int, policy: Policy, newId: nat -> string, r: Review, item: ReviewItem, added: seq<Detection>)
    requires Outcomes(context, items, settings, width, height, policy, newId, r) && r.Reviewed?
    requires added == Additions(ManualItems(items), r.kept)
    ensures (exists p :: 0 <= p < |r.manual| && DrawnBy(item, r.manual[p]))
            <==> exists a :: 0 <= a < |added| && DrawnBy(item, added[a]) && Leads(added, a)
  {
    var left := Redacted(AdditionsDecided(added, policy), UpTo(|added|));
    var m := Merged(added, |added|);
    ReviewHasManualPart(context, items, settings, width, height, policy, newId, r, added, left);
    LeftAreLeaders(added, r.kept, policy, m, AdditionsDecided(added, policy), left);
    if p :| 0 <= p < |r.manual| && DrawnBy(item, r.manual[p]) {
      LeadersExactly(added, r.kept, left[p], m);
      assert left[p] in left && DrawnBy(item, added[left[p]]);
    }
    if a :| 0 <= a < |added| && DrawnBy(item, added[a]) && Leads(added, a) {
      LeadersExactly(added, r.kept, a, m);
      var p :| 0 <= p < |left| && left[p] == a;
      assert DrawnBy(item, r.manual[p]);
    }
  }

  /** A detection of this type contains the box. */
  predicate Inside(final: seq<Detection>, kind: Kind, box: BoundingBox) {
    exists p :: 0 <= p < |final| && final[p].kind == kind && final[p].box.Contains(box)
  }

  /** A leading addition of this type contains the box. */
  predicate InsideLeader(added: seq<Detection>, kind: Kind, box: BoundingBox) {
    exists a :: 0 <= a < |added| && added[a].kind == kind && added[a].box.Contains(box) && Leads(added, a)
  }

  /** A final manual detection stands where a leading addition was drawn, and is of its type. */
  lemma {:induction false} ManualIsLeader(added: seq<Detection>, kept: seq<Detection>, policy: Policy,
        newId: nat -> string, r: Review, left: seq<nat>, p: nat)
    requires ManualPart(added, kept, policy, newId, r, left) && p < |r.manual|
    ensures p < |left| && left[p] < |added| && Leads(added, left[p])
    ensures r.manual[p].kind == added[left[p]].kind && r.manual[p].box == added[left[p]].box
  {
    var m := Merged(added, |added|);
    LeftAreLeaders(added, kept, policy, m, AdditionsDecided(added, policy), left);
    assert left[p] in left;
    LeadersExactly(added, kept, left[p], m);
  }

  lemma {:induction false} LeaderIsManual(added: seq<Detection>, kept: seq<Detection>, policy: Policy,
        newId: nat -> string, r: Review, left: seq<nat>, a: nat)
    returns (p: nat)
    requires ManualPart(added, kept, policy, newId, r, left) && a < |added| && Leads(added, a)
    ensures p < |r.manual| && r.manual[p].kind == added[a].kind && r.manual[p].box == added[a].box
  {
    var m := Merged(added, |added|);
    LeftAreLeaders(added, kept, policy, m, AdditionsDecided(added, policy), left);
    LeadersExactly(added, kept, a, m);
    p :| 0 <= p < |left| && left[p] == a;
    ManualIsLeader(added, kept, policy, newId, r, left, p);
  }

  lemma {:induction false} InsideManualExactly(added: seq<Detection>, kept: seq<Detection>, policy: Policy,
        newId: nat -> string, r: Review, left: seq<nat>, kind: Kind, box: BoundingBox)
    requires ManualPart(added, kept, policy, newId, r, left)
    ensures Inside(r.manual, kind, box) <==> InsideLeader(added, kind, box)
  {
    if p :| 0 <= p < |r.manual| && r.manual[p].kind == kind && r.manual[p].box.Contains(box) {
      ManualIsLeader(added, kept, policy, newId, r, left, p);
    }
    if a :| 0 <= a < |added| && added[a].kind == kind && added[a].box.Contains(box) && Leads(added, a) {
      var p := LeaderIsManual(added, kept, policy, newId, r, left, a);
    }
  }

  lemma {:induction false} InsideEither(kept: seq<Detection>, manual: seq<Detection>, kind: Kind, box: BoundingBox)
    ensures Inside(kept + manual, kind, box) <==> Inside(kept, kind, box) || Inside(manual, kind, box)
  {
    var final := kept + manual;
    if p :| 0 <= p < |manual| && manual[p].kind == kind && manual[p].box.Contains(box) {
      assert final[|kept| + p] == manual[p];
    }
    if p :| 0 <= p < |kept| && kept[p].kind == kind && kept[p].box.Contains(box) {
      assert final[p] == kept[p];
    }
  }

  /** All of a drawn box lies in a final detection of its type if and only if all of it lies in
      a kept one, or in an addition that meets no leading addition of its type before it. */
  lemma {:induction false} WhollyCoveredExactly(context: Tokens.ReviewContext, items: seq<ReviewItem>,
        settings: Settings, width: int, height: int, policy: Policy, newId: nat -> string, r: Review, j: nat,
        added: seq<Detection>)
    requires Outcomes(context, items, settings, width, height, policy, newId, r) && r.Reviewed?
    requires j < |ManualItems(items)| && added == Additions(ManualItems(items), r.kept)
    ensures Drawn(ManualItems(items)[j], context)
    ensures var kind, box := ManualItems(items)[j].kind.value, ManualItems(items)[j].box.value;
            Inside(r.kept + r.manual, kind, box) <==> Inside(r.kept, kind, box) || InsideLeader(added, kind, box)
  {
    var left := Redacted(AdditionsDecided(added, policy), UpTo(|added|));
    ReviewHasManualPart(context, items, settings, width, height, policy, newId, r, added, left);
    var kind, box := ManualItems(items)[j].kind.value, ManualItems(items)[j].box.value;
    InsideManualExactly(added, r.kept, policy, newId, r, left, kind, box);
    InsideEither(r.kept, r.manual, kind, box);
  }

  /** A box that meets a kept one in a single pixel adds nothing: the rest of it stays as it was. */
  lemma {:induction false} OnePixelIsRedundant(items: seq<ReviewItem>, item: ReviewItem, kept: seq<Detection>)
    requires item.kind == Some(Email) && item.box == Some(BoundingBox(9, 9, 10, 10)) && items == [item]
    requires |kept| == 1 && kept[0].kind == Email && kept[0].box == BoundingBox(0, 0, 10, 10)
    ensures Additions(items, kept) == [] && !kept[0].box.Contains(item.box.value)
  {
    assert kept[0].box.Overlaps(item.box.value) && Redundant(kept, Email, item.box.value);
    assert items[..0] == [] && Additions(items[..0], kept) == [];
  }
}
