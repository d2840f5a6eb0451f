/** What a whole run of the verification loop guarantees, whatever the text recogniser answers. */
module VerificationRuns {
  import opened Models
  import opened Redaction
  import opened ResidualText
  import opened Verification

  // ---------- a loop that retries ----------

  /** The state when attempt `t` starts from state `s` at attempt 1. */
  function Iterate<S>(step: (nat, S) -> S, s: S, t: nat): S {
    if t <= 1 then s else step(t - 1, Iterate(step, s, t - 1))
  }

  /** What each attempt finds. */
  function Findings<S>(step: (nat, S) -> S, find: (nat, S) -> seq<nat>, s: S): (at: nat -> seq<nat>)
    ensures forall t: nat :: at(t) == find(t, Iterate(step, s, t))
  {
    t => find(t, Iterate(step, s, t))
  }

  /** Attempts before `t` all find something. */
  ghost predicate Reached(at: nat -> seq<nat>, t: nat) { forall s: nat :: 1 <= s < t ==> at(s) != [] }

  /** The first attempt that finds nothing, or the last one allowed. */
  ghost predicate LastAttempt(at: nat -> seq<nat>, maxRetries: int, t: nat) {
    1 <= t <= maxRetries && Reached(at, t) && (at(t) == [] || t == maxRetries)
  }

  lemma {:induction false} SomeLastAttempt(at: nat -> seq<nat>, maxRetries: int, t: nat) returns (end: nat)
    requires 1 <= t <= maxRetries && Reached(at, t)
    ensures LastAttempt(at, maxRetries, end)
    decreases maxRetries - t
  {
    if at(t) == [] || t == maxRetries {
      end := t;
    } else {
      end := SomeLastAttempt(at, maxRetries, t + 1);
    }
  }

  lemma {:induction false} LastAttemptFindsNothing(at: nat -> seq<nat>, maxRetries: int, t: nat)
    requires LastAttempt(at, maxRetries, t)
    ensures at(t) == [] <==> exists s: nat :: 1 <= s <= maxRetries && at(s) == []
  {}

  /** While attempts find something, `run` is the run of the next attempt on the next state. */
  ghost predicate Retries<S(!new), E>(step: (nat, S) -> S, find: (nat, S) -> seq<nat>, run: (nat, S) -> E,
        maxRetries: int) {
    forall t: nat, s: S :: 1 <= t < maxRetries && find(t, s) != [] ==> run(t, s) == run(t + 1, step(t, s))
  }

  lemma {:induction false} RunReaches<S(!new), E>(step: (nat, S) -> S, find: (nat, S) -> seq<nat>, run: (nat, S) -> E,
                                                  maxRetries: int, s: S, t: nat)
    requires Retries(step, find, run, maxRetries) && 1 <= t <= maxRetries && Reached(Findings(step, find, s), t)
    ensures run(1, s) == run(t, Iterate(step, s, t))
    decreases t
  {
    if t > 1 {
      RunReaches(step, find, run, maxRetries, s, t - 1);
      assert Findings(step, find, s)(t - 1) != [];
    }
  }

  // ---------- the attempts of a run ----------

  /** From one attempt to the next. */
  function StepOf(original: Image, oracle: Oracle): (nat, seq<Detection>) -> seq<Detection> {
    (t: nat, ds: seq<Detection>) => Next(oracle, t, ds, Rendered(original, ds))
  }

  function ResidualIn(original: Image, oracle: Oracle): (nat, seq<Detection>) -> seq<nat> {
    (t: nat, ds: seq<Detection>) => ResidualOf(oracle, t, ds, Rendered(original, ds))
  }

  function RunOf(original: Image, oracle: Oracle, maxRetries: int): (nat, seq<Detection>) -> Ended {
    (t: nat, ds: seq<Detection>) => VerifyFrom(original, ds, oracle, t, maxRetries)
  }

  /** The detections when attempt `t` starts. */
  function DetectionsAt(original: Image, ds: seq<Detection>, oracle: Oracle, t: nat): seq<Detection> {
    Iterate(StepOf(original, oracle), ds, t)
  }

  /** What each attempt can still read. */
  function Residuals(original: Image, ds: seq<Detection>, oracle: Oracle): nat -> seq<nat> {
    Findings(StepOf(original, oracle), ResidualIn(original, oracle), ds)
  }

  lemma {:induction false} OneRetry(original: Image, ds: seq<Detection>, oracle: Oracle, t: nat, maxRetries: int,
        image: Image)
    requires t < maxRetries && image == Rendered(original, ds) && ResidualOf(oracle, t, ds, image) != []
    ensures VerifyFrom(original, ds, oracle, t, maxRetries) ==
            VerifyFrom(original, Next(oracle, t, ds, image), oracle, t + 1, maxRetries)
  {
    Unrolled(original, ds, oracle, t, maxRetries, image, ResidualOf(oracle, t, ds, image),
      NotedOf(oracle, t, ds, image, |ds|));
  }

  lemma {:induction false} RetryAt(original: Image, oracle: Oracle, maxRetries: int, t: nat, ds: seq<Detection>)
    requires t < maxRetries && ResidualIn(original, oracle)(t, ds) != []
    ensures RunOf(original, oracle, maxRetries)(t, ds) ==
            RunOf(original, oracle, maxRetries)(t + 1, StepOf(original, oracle)(t, ds))
  {
    OneRetry(original, ds, oracle, t, maxRetries, Rendered(original, ds));
  }

  lemma {:induction false} LoopRetries(original: Image, oracle: Oracle, maxRetries: int,
        step: (nat, seq<Detection>) -> seq<Detection>,
                                       find: (nat, seq<Detection>) -> seq<nat>, run: (nat, seq<Detection>) -> Ended)
    requires step == StepOf(original, oracle) && find == ResidualIn(original, oracle)
    requires run == RunOf(original, oracle, maxRetries)
    ensures Retries(step, find, run, maxRetries)
  {
    forall t: nat, ds: seq<Detection> | 1 <= t < maxRetries && find(t, ds) != []
      ensures run(t, ds) == run(t + 1, step(t, ds))
    {
      RetryAt(original, oracle, maxRetries, t, ds);
    }
  }

  /** The result of a run that ends with attempt `t`, which starts from `ds`. */
  function EndedWith(original: Image, oracle: Oracle, t: nat, ds: seq<Detection>): (e: Ended)
    ensures |e.detections| == |ds| && e.result.attempts == t && e.result.status != SKIPPED
    ensures e.result.status == PASSED <==> ResidualIn(original, oracle)(t, ds) == []
    ensures e.result.residualCount == |ResidualIn(original, oracle)(t, ds)|
  {
    var image := Rendered(original, ds);
    var residual := ResidualOf(oracle, t, ds, image);
    var noted := NotedOf(oracle, t, ds, image, |ds|);
    Ended(noted, image,
          if residual == [] then VerificationResult(PASSED, t, 0, false, {}) else Failed(noted, residual, t))
  }

  lemma {:induction false} EndsHere(original: Image, ds: seq<Detection>, oracle: Oracle, t: nat, maxRetries: int)
    requires 1 <= t <= maxRetries && (ResidualIn(original, oracle)(t, ds) == [] || t == maxRetries)
    ensures RunOf(original, oracle, maxRetries)(t, ds) == EndedWith(original, oracle, t, ds)
  {
    var image := Rendered(original, ds);
    Unrolled(original, ds, oracle, t, maxRetries, image, ResidualIn(original, oracle)(t, ds),
      NotedOf(oracle, t, ds, image, |ds|));
  }

  lemma {:induction false} RunReachesLast(step: (nat, seq<Detection>) -> seq<Detection>,
        find: (nat, seq<Detection>) -> seq<nat>,
                                          run: (nat, seq<Detection>) -> Ended, maxRetries: int, ds: seq<Detection>)
    returns (t: nat)
    requires Retries(step, find, run, maxRetries) && maxRetries >= 1
    ensures LastAttempt(Findings(step, find, ds), maxRetries, t) && run(1, ds) == run(t, Iterate(step, ds, t))
  {
    t := SomeLastAttempt(Findings(step, find, ds), maxRetries, 1);
    RunReaches(step, find, run, maxRetries, ds, t);
  }

  /** A run with at least one attempt is its attempts up to the last. */
  lemma {:induction false} RunExactly(original: Image, ds: seq<Detection>, oracle: Oracle, maxRetries: int, e: Ended,
        at: nat -> seq<nat>)
    returns (t: nat)
    requires e == VerifyFrom(original, ds, oracle, 1, maxRetries) && maxRetries >= 1
    requires at == Residuals(original, ds, oracle)
    ensures LastAttempt(at, maxRetries, t) && e == EndedWith(original, oracle, t, DetectionsAt(original, ds, oracle, t))
    ensures at(t) == ResidualIn(original, oracle)(t, DetectionsAt(original, ds, oracle, t))
  {
    LoopRetries(original, oracle, maxRetries, StepOf(original, oracle), ResidualIn(original, oracle),
      RunOf(original, oracle, maxRetries));
    t := RunReachesLast(StepOf(original, oracle), ResidualIn(original, oracle),
                        RunOf(original, oracle, maxRetries), maxRetries, ds);
    EndsHere(original, DetectionsAt(original, ds, oracle, t), oracle, t, maxRetries);
  }

  // ---------- verdicts ----------

  lemma {:induction false} NoAttempts(original: Image, ds: seq<Detection>, oracle: Oracle, maxRetries: int)
    requires maxRetries < 1
    ensures VerifyFrom(original, ds, oracle, 1, maxRetries) ==
            Ended(ds, Rendered(original, ds), VerificationResult(FAILED, maxRetries, -1, false, {}))
  {}

  /** A run passes exactly when one of its attempts finds nothing, and reports the first. */
  lemma {:induction false} PassedExactly(original: Image, ds: seq<Detection>, oracle: Oracle, maxRetries: int,
        e: Ended, at: nat -> seq<nat>)
    requires e == VerifyFrom(original, ds, oracle, 1, maxRetries) && at == Residuals(original, ds, oracle)
    ensures e.result.status == PASSED <==> exists t: nat :: 1 <= t <= maxRetries && at(t) == []
    ensures e.result.status == PASSED ==>
              1 <= e.result.attempts <= maxRetries && Reached(at, e.result.attempts) && at(e.result.attempts) == []
  {
    if maxRetries >= 1 {
      var t := RunExactly(original, ds, oracle, maxRetries, e, at);
      LastAttemptFindsNothing(at, maxRetries, t);
    } else {
      NoAttempts(original, ds, oracle, maxRetries);
    }
  }

  /** A run that is allowed an attempt and fails has used them all and names what is left,
      which is something; one that is allowed none fails without looking, and says so with a
      count of -1. */
  lemma {:induction false} FailedExactly(original: Image, ds: seq<Detection>, oracle: Oracle, maxRetries: int,
        e: Ended, at: nat -> seq<nat>)
    requires e == VerifyFrom(original, ds, oracle, 1, maxRetries) && at == Residuals(original, ds, oracle)
    requires e.result.status != PASSED
    ensures e.result.status == FAILED && e.result.attempts == maxRetries
    ensures e.result.residualCount == -1 <==> maxRetries < 1
    ensures maxRetries >= 1 ==> at(maxRetries) != [] && Names(e, at(maxRetries))
  {
    if maxRetries >= 1 {
      var t := RunExactly(original, ds, oracle, maxRetries, e, at);
      AnyCriticalExactly(e.detections, at(t));
      FailedNames(e.detections, at(t), t);
    } else {
      NoAttempts(original, ds, oracle, maxRetries);
    }
  }

  /** The result counts the residual detections, lists their types, and asks for a human
      when one of them is critical. */
  ghost predicate Names(e: Ended, residual: seq<nat>) {
    && e.result.residualCount == |residual|
    && (e.result.needsHumanReview <==>
          exists i :: i in residual && i < |e.detections| && e.detections[i].riskLevel == CRITICAL)
    && (forall kind :: kind in e.result.residualTypes <==>
          exists i :: i in residual && i < |e.detections| && e.detections[i].kind == kind)
  }

  lemma {:induction false} FailedNames(ds: seq<Detection>, residual: seq<nat>, t: nat)
    ensures forall kind :: kind in Failed(ds, residual, t).residualTypes <==>
              exists i :: i in residual && i < |ds| && ds[i].kind == kind
  {}

  lemma {:induction false} AnyCriticalExactly(ds: seq<Detection>, indices: seq<nat>)
    ensures AnyCritical(ds, indices) <==> exists i :: i in indices && i < |ds| && ds[i].riskLevel == CRITICAL
  {
    if i :| i in indices && i < |ds| && ds[i].riskLevel == CRITICAL {
      var k :| 0 <= k < |indices| && indices[k] == i;
    }
    if AnyCritical(ds, indices) {
      var k :| 0 <= k < |indices| && indices[k] < |ds| && ds[indices[k]].riskLevel == CRITICAL;
      assert indices[k] in indices;
    }
  }

  // ---------- the image ----------

  lemma {:induction false} SameStrokes(a: seq<Detection>, b: seq<Detection>)
    requires |a| == |b| && forall i :: 0 <= i < |a| ==> a[i].action == b[i].action && a[i].box == b[i].box
    ensures Strokes(a) == Strokes(b)
  {
    if a != [] {
      SameStrokes(a[..|a| - 1], b[..|b| - 1]);
    }
  }

  lemma {:induction false} EndImage(original: Image, oracle: Oracle, t: nat, ds: seq<Detection>)
    ensures EndedWith(original, oracle, t, ds).image ==
              Rendered(original, EndedWith(original, oracle, t, ds).detections)
  {
    SameStrokes(ds, NotedOf(oracle, t, ds, Rendered(original, ds), |ds|));
  }

  /** Pass or fail, the image returned is the original with the final detections painted
      over it once: no earlier attempt has left a trace. */
  lemma {:induction false} RendersFinalDetections(original: Image, ds: seq<Detection>, oracle: Oracle,
        maxRetries: int, e: Ended)
    requires e == VerifyFrom(original, ds, oracle, 1, maxRetries)
    ensures e.image == Rendered(original, e.detections)
  {
    if maxRetries >= 1 {
      var t := RunExactly(original, ds, oracle, maxRetries, e, Residuals(original, ds, oracle));
      EndImage(original, oracle, t, DetectionsAt(original, ds, oracle, t));
    } else {
      NoAttempts(original, ds, oracle, maxRetries);
    }
  }

  // ---------- what a pass means ----------

  lemma {:induction false} NothingNoted(oracle: Oracle, attempt: nat, ds: seq<Detection>, image: Image)
    requires ResidualOf(oracle, attempt, ds, image) == []
    ensures NotedOf(oracle, attempt, ds, image, |ds|) == ds
    ensures forall i :: 0 <= i < |ds| ==> !Residual(oracle, attempt, i, ds[i], image)
  {
    forall i | 0 <= i < |ds|
      ensures !Residual(oracle, attempt, i, ds[i], image)
    {
      assert i !in ResidualOf(oracle, attempt, ds, image);
    }
  }

  lemma {:induction false} PassedHasNoResidual(original: Image, ds: seq<Detection>, oracle: Oracle, maxRetries: int,
        e: Ended, i: nat)
    requires e == VerifyFrom(original, ds, oracle, 1, maxRetries) && e.result.status == PASSED && i < |e.detections|
    ensures e.result.attempts >= 1 && !Residual(oracle, e.result.attempts, i, e.detections[i], e.image)
  {
    if maxRetries >= 1 {
      var t := RunExactly(original, ds, oracle, maxRetries, e, Residuals(original, ds, oracle));
      var current := DetectionsAt(original, ds, oracle, t);
      NothingNoted(oracle, t, current, Rendered(original, current));
    } else {
      NoAttempts(original, ds, oracle, maxRetries);
    }
  }

  /** The tokens cannot be joined to spell the value, whatever blanks or cuts are put in. */
  ghost predicate Hidden(d: Detection, tokens: seq<OcrToken>) {
    && !Respelled(Join(tokens), Normal(d.text, d.kind), d.kind)
    && forall from, to :: 0 <= from <= to <= |tokens| ==>
         Normal(Spell(tokens[from..to]), d.kind) != Normal(d.text, d.kind)
  }

  lemma {:induction false} NotResidual(oracle: Oracle, attempt: nat, i: nat, d: Detection, image: Image)
    requires !Residual(oracle, attempt, i, d, image) && Checkable(d, image)
    ensures var tokens := Recognised(oracle, attempt, i, d, image);
            && (Normal(d.text, d.kind) != "" ==> Hidden(d, tokens))
            && d.kind !in oracle.redetect(tokens)
            && (d.riskLevel == CRITICAL ==> tokens == [] || Total(tokens) / |tokens| as real >= AMBIGUOUS_CONFIDENCE)
  {
    if Normal(d.text, d.kind) != "" {
      NothingSpellsIt(d, Recognised(oracle, attempt, i, d, image), oracle.redetect);
    }
  }

  /** A pass: in the image returned, whose last reading this was, no checkable value can be
      spelled from what was read in its place, nothing of its type is recognised there, and
      a critical one was read with some confidence or not at all. */
  lemma {:induction false} PassedHidesValues(original: Image, ds: seq<Detection>, oracle: Oracle, maxRetries: int,
        e: Ended, i: nat)
    requires e == VerifyFrom(original, ds, oracle, 1, maxRetries) && e.result.status == PASSED
    requires i < |e.detections| && Checkable(e.detections[i], e.image)
    ensures e.image == Rendered(original, e.detections) && e.result.attempts >= 1
    ensures var d, tokens := e.detections[i], Recognised(oracle, e.result.attempts, i, e.detections[i], e.image);
            && (Normal(d.text, d.kind) != "" ==> Hidden(d, tokens))
            && d.kind !in oracle.redetect(tokens)
            && (d.riskLevel == CRITICAL ==> tokens == [] || Total(tokens) / |tokens| as real >= AMBIGUOUS_CONFIDENCE)
  {
    RendersFinalDetections(original, ds, oracle, maxRetries, e);
    PassedHasNoResidual(original, ds, oracle, maxRetries, e, i);
    NotResidual(oracle, e.result.attempts, i, e.detections[i], e.image);
  }

  // ---------- escalation over a run ----------

  /** How often `i` was escalated before attempt `t`: once for each attempt that could read it. */
  function Rounds(at: nat -> seq<nat>, t: nat, i: nat): nat {
    if t <= 1 then 0 else Rounds(at, t - 1, i) + if i in at(t - 1) then 1 else 0
  }

  /** Up to the review flag. */
  predicate SameButFlag(a: Detection, b: Detection) { a.(needsReview := b.needsReview) == b }

  lemma {:induction false} NextAt(oracle: Oracle, attempt: nat, ds: seq<Detection>, image: Image, i: nat)
    requires i < |ds|
    ensures SameButFlag(Next(oracle, attempt, ds, image)[i],
                        if i in ResidualOf(oracle, attempt, ds, image) then Escalated(ds[i]) else ds[i])
  {}

  /** Each step escalates what is found at `i`. */
  ghost predicate Escalates(step: (nat, seq<Detection>) -> seq<Detection>, find: (nat, seq<Detection>) -> seq<nat>,
        i: nat, n: nat) {
    forall t: nat, ds: seq<Detection> :: |ds| == n && i < n ==>
      |step(t, ds)| == n && SameButFlag(step(t, ds)[i], if i in find(t, ds) then Escalated(ds[i]) else ds[i])
  }

  lemma {:induction false} LoopEscalates(original: Image, oracle: Oracle, i: nat, n: nat)
    ensures Escalates(StepOf(original, oracle), ResidualIn(original, oracle), i, n)
  {
    forall t: nat, ds: seq<Detection> | |ds| == n && i < n
      ensures |StepOf(original, oracle)(t, ds)| == n
      ensures SameButFlag(StepOf(original, oracle)(t, ds)[i],
                          if i in ResidualIn(original, oracle)(t, ds) then Escalated(ds[i]) else ds[i])
    {
      NextAt(oracle, t, ds, Rendered(original, ds), i);
    }
  }

  lemma {:induction false} ClimbOne(before: Detection, after: Detection, escalated: bool, start: Detection, k: nat)
    requires SameButFlag(before, Climbed(start, k))
    requires SameButFlag(after, if escalated then Escalated(before) else before)
    ensures SameButFlag(after, Climbed(start, k + if escalated then 1 else 0))
  {}

  lemma {:induction false} ClimbsByRounds(step: (nat, seq<Detection>) -> seq<Detection>,
        find: (nat, seq<Detection>) -> seq<nat>,
                                          ds: seq<Detection>, t: nat, i: nat)
    requires Escalates(step, find, i, |ds|) && i < |ds|
    ensures |Iterate(step, ds, t)| == |ds|
    ensures SameButFlag(Iterate(step, ds, t)[i], Climbed(ds[i], Rounds(Findings(step, find, ds), t, i)))
    decreases t
  {
    if t > 1 {
      ClimbsByRounds(step, find, ds, t - 1, i);
      var before := Iterate(step, ds, t - 1);
      ClimbOne(before[i], step(t - 1, before)[i], i in find(t - 1, before), ds[i],
        Rounds(Findings(step, find, ds), t - 1, i));
    }
  }

  lemma {:induction false} RoundsBounded(at: nat -> seq<nat>, t: nat, i: nat)
    ensures t >= 1 ==> Rounds(at, t, i) < t
    ensures Rounds(at, t, i) == 0 <==> forall s: nat :: 1 <= s < t ==> i !in at(s)
  {
    if t > 1 {
      RoundsBounded(at, t - 1, i);
    }
  }

  lemma {:induction false} FlagOnly(original: Image, oracle: Oracle, t: nat, ds: seq<Detection>, i: nat)
    requires i < |ds|
    ensures SameButFlag(EndedWith(original, oracle, t, ds).detections[i], ds[i])
  {}

  /** What a run does to one detection: `k` escalations, where `k` is the number of earlier
      attempts that could still read it. */
  lemma {:induction false} FinalDetection(original: Image, ds: seq<Detection>, oracle: Oracle, maxRetries: int,
        e: Ended, i: nat, at: nat -> seq<nat>)
    requires e == VerifyFrom(original, ds, oracle, 1, maxRetries) && maxRetries >= 1 && i < |ds|
    requires at == Residuals(original, ds, oracle)
    ensures 1 <= e.result.attempts <= maxRetries && |e.detections| == |ds|
    ensures SameButFlag(e.detections[i], Climbed(ds[i], Rounds(at, e.result.attempts, i)))
  {
    var t := RunExactly(original, ds, oracle, maxRetries, e, at);
    LoopEscalates(original, oracle, i, |ds|);
    ClimbsByRounds(StepOf(original, oracle), ResidualIn(original, oracle), ds, t, i);
    FlagOnly(original, oracle, t, DetectionsAt(original, ds, oracle, t), i);
  }

  /** `w` is `d` with its method `k` rungs up the ladder, never weaker, and covering no less
      of the image; nothing changes without a round, and three give a full mask. */
  ghost predicate Strengthened(image: Image, d: Detection, w: Detection, k: nat) {
    && (d.action != NONE ==> Rung(w.action) == Min(3, Rung(d.action) + k))
    && (k >= 3 ==> w.action == FULL_MASK)
    && (forall x, y :: Covers(image, d.box, x, y) ==> Covers(image, w.box, x, y))
    && (k == 0 ==> w.action == d.action && w.box == d.box)
  }

  lemma {:induction false} ClimbStrengthens(image: Image, d: Detection, w: Detection, k: nat)
    requires SameButFlag(w, Climbed(d, k))
    ensures Strengthened(image, d, w, k)
  {
    ClimbedAction(d, k);
    forall x, y | Covers(image, d.box, x, y)
      ensures Covers(image, w.box, x, y)
    {
      CoverGrows(image, d, k, x, y);
    }
  }

  /** Over a run a detection is strengthened by as many rounds as earlier attempts could read
      it; one that none of them could read keeps its method and its box. */
  lemma {:induction false} EscalationOnlyStrengthens(original: Image, ds: seq<Detection>, oracle: Oracle,
        maxRetries: int,
                                                     e: Ended, i: nat, at: nat -> seq<nat>)
    requires e == VerifyFrom(original, ds, oracle, 1, maxRetries) && maxRetries >= 1 && i < |ds|
    requires at == Residuals(original, ds, oracle)
    ensures 1 <= e.result.attempts <= maxRetries && |e.detections| == |ds|
    ensures Strengthened(original, ds[i], e.detections[i], Rounds(at, e.result.attempts, i))
    ensures Rounds(at, e.result.attempts, i) < e.result.attempts
    ensures Rounds(at, e.result.attempts, i) == 0 <==> forall s: nat :: 1 <= s < e.result.attempts ==> i !in at(s)
  {
    FinalDetection(original, ds, oracle, maxRetries, e, i, at);
    RoundsBounded(at, e.result.attempts, i);
    ClimbStrengthens(original, ds[i], e.detections[i], Rounds(at, e.result.attempts, i));
  }

  // ---------- a value that stays legible ----------

  /** At every attempt the recogniser reads the value of detection `i` as one of its tokens. */
  ghost predicate AlwaysRead(oracle: Oracle, i: nat, text: string) {
    forall attempt: nat, image: Image, rect: Rect ::
      exists k :: 0 <= k < |oracle.ocr(attempt, i, image, rect)| && oracle.ocr(attempt, i, image, rect)[k].text == text
  }

  lemma {:induction false} FinalText(original: Image, ds: seq<Detection>, oracle: Oracle, maxRetries: int, e: Ended,
        i: nat)
    requires e == VerifyFrom(original, ds, oracle, 1, maxRetries) && maxRetries >= 1 && i < |ds|
    ensures |e.detections| == |ds| && e.detections[i].text == ds[i].text
    ensures forall x, y :: Covers(original, ds[i].box, x, y) ==> Covers(original, e.detections[i].box, x, y)
  {
    var at := Residuals(original, ds, oracle);
    FinalDetection(original, ds, oracle, maxRetries, e, i, at);
    EscalationOnlyStrengthens(original, ds, oracle, maxRetries, e, i, at);
    ClimbedRest(ds[i], Rounds(at, e.result.attempts, i));
  }

  lemma {:induction false} ReadIsResidual(oracle: Oracle, attempt: nat, i: nat, d: Detection, image: Image,
        x: int, y: int, c: nat)
    requires AlwaysRead(oracle, i, d.text) && Covers(image, d.box, x, y)
    requires |Strip(d.text)| >= 3 && c < |d.text| && LetterOrDigit(d.text[c])
    ensures Residual(oracle, attempt, i, d, image)
  {
    ShownIsChecked(d, image, x, y);
    var tokens := Recognised(oracle, attempt, i, d, image);
    var k :| 0 <= k < |tokens| && tokens[k].text == d.text;
    TokenIsFound(d, tokens, oracle.redetect, k, c);
  }

  /** A value of three characters, with a letter or a digit, that shows in the image and is read
      in its place at every attempt never passes, whatever else is read or detected. */
  lemma {:induction false} LegibleNeverPasses(original: Image, ds: seq<Detection>, oracle: Oracle, maxRetries: int,
        e: Ended, i: nat, x: int, y: int, c: nat)
    requires e == VerifyFrom(original, ds, oracle, 1, maxRetries) && i < |ds| && AlwaysRead(oracle, i, ds[i].text)
    requires Covers(original, ds[i].box, x, y) && |Strip(ds[i].text)| >= 3
    requires c < |ds[i].text| && LetterOrDigit(ds[i].text[c])
    ensures e.result.status == FAILED
  {
    if maxRetries >= 1 {
      FinalText(original, ds, oracle, maxRetries, e, i);
      RendersFinalDetections(original, ds, oracle, maxRetries, e);
      if e.result.status == PASSED {
        PassedHasNoResidual(original, ds, oracle, maxRetries, e, i);
        ReadIsResidual(oracle, e.result.attempts, i, e.detections[i], e.image, x, y, c);
      } else {
        FailedExactly(original, ds, oracle, maxRetries, e, Residuals(original, ds, oracle));
      }
    } else {
      NoAttempts(original, ds, oracle, maxRetries);
    }
  }
}
