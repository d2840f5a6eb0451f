/**
 Signed, one-time review tokens (maskguard/api/review_token.py).

 The keyed signature (HMAC, RFC 2104) and the payload encoding are parameters.  The clock
 is read three times per submission, as in the source: for the expiry check, for the
 marker's time to live, and inside the claim.
 */
module ReviewTokens {
  import opened Models

  datatype TokenDetection = TokenDetection(
    detectionId: string, kind: Kind, riskLevel: RiskLevel, action: RedactionAction,
    confidence: real, needsReview: bool, box: BoundingBox)

  datatype Payload = Payload(
    detections: seq<TokenDetection>, imageWidth: int, imageHeight: int,
    issuedAt: real, expiresAt: real, identityKey: Option<string>)

  datatype ReviewContext = ReviewContext(
    detections: seq<TokenDetection>, imageWidth: int, imageHeight: int, issuedAt: real, expiresAt: real)

  /** The issuer's secrets: how payloads are written and signed. */
  datatype Scheme = Scheme(encode: Payload -> string, decode: string -> Option<Payload>, mac: string -> string)

  /** Distinct bodies have distinct signatures, and signatures are hex. */
  ghost predicate Proper(scheme: Scheme) {
    && (forall a, b :: scheme.mac(a) == scheme.mac(b) ==> a == b)
    && (forall a :: '.' !in scheme.mac(a))
  }

  /** What was written for this payload is read back as it was. */
  predicate ReadsBack(scheme: Scheme, p: Payload) { scheme.decode(scheme.encode(p)) == Some(p) }

  datatype Outcome = Accepted(context: ReviewContext) | Rejected(code: string)

  // ---------- the one-time marker ----------

  /** Where markers live decides when they lapse: the in-memory store sweeps those strictly
      in the past, Redis drops a key at its expiry. */
  datatype StoreKind = InMemory | Redis

  predicate Alive(kind: StoreKind, marker: real, now: real) {
    match kind
    case InMemory => marker >= now
    case Redis => now < marker
  }

  function Live(kind: StoreKind, spent: map<string, real>, now: real): map<string, real> {
    map sig | sig in spent && Alive(kind, spent[sig], now) :: spent[sig]
  }

  function Claimed(kind: StoreKind, spent: map<string, real>, now: real, sig: string, ttl: int): (map<string, real>,
        bool) {
    var live := Live(kind, spent, now);
    if sig in live then (live, false) else (live[sig := now + Max(1, ttl) as real], true)
  }

  class InMemoryReplayStore {
    var spent: map<string, real>

    constructor ()
      ensures spent == map[]
    {
      spent := map[];
    }

    method TryConsume(now: real, fingerprint: string, ttlSeconds: int) returns (first: bool)
      modifies this
      ensures spent == Claimed(InMemory, old(spent), now, fingerprint, ttlSeconds).0
      ensures first == Claimed(InMemory, old(spent), now, fingerprint, ttlSeconds).1
    {
      var expired := set sig | sig in spent && spent[sig] < now;
      ghost var all := expired;
      while expired != {}
        invariant expired <= all && spent == old(spent) - (all - expired)
        decreases expired
      {
        var sig :| sig in expired;
        spent := spent - {sig};
        expired := expired - {sig};
      }
      assert spent == Live(InMemory, old(spent), now);
      if fingerprint in spent {
        return false;
      }
      spent := spent[fingerprint := now + Max(1, ttlSeconds) as real];
      return true;
    }
  }

  /** SET NX EX: one atomic step against the keys that have not expired. */
  class RedisReplayStore {
    var db: map<string, real>

    method TryConsume(now: real, fingerprint: string, ttlSeconds: int) returns (first: bool)
      modifies this
      ensures Live(Redis, db, now) == Claimed(Redis, old(db), now, fingerprint, ttlSeconds).0
      ensures first == Claimed(Redis, old(db), now, fingerprint, ttlSeconds).1
    {
      if fingerprint in db && now < db[fingerprint] {
        return false;
      }
      db := db[fingerprint := now + Max(1, ttlSeconds) as real];
      return true;
    }
  }

  // ---------- tokens ----------

  function TokenOf(scheme: Scheme, p: Payload): string {
    scheme.encode(p) + "." + scheme.mac(scheme.encode(p))
  }

  /** The parts before and after the last dot. */
  function RPartition(token: string): Option<(string, string)> {
    if token == "" then None
    else if token[|token| - 1] == '.' then Some((token[..|token| - 1], ""))
    else
      match RPartition(token[..|token| - 1])
      case None => None
      case Some((body, sig)) => Some((body, sig + [token[|token| - 1]]))
  }

  lemma {:induction false} RPartitionJoins(body: string, sig: string)
    requires '.' !in sig
    ensures RPartition(body + "." + sig) == Some((body, sig))
    decreases |sig|
  {
    var token := body + "." + sig;
    if sig == "" {
      assert token[..|token| - 1] == body;
    } else {
      RPartitionJoins(body, sig[..|sig| - 1]);
      assert token[..|token| - 1] == body + "." + sig[..|sig| - 1];
      assert sig == sig[..|sig| - 1] + [sig[|sig| - 1]];
    }
  }

  /** The decoded payload of a token whose signature is right. */
  function Authentic(scheme: Scheme, token: string): Option<Payload> {
    match RPartition(token)
    case None => None
    case Some((body, sig)) => if sig == scheme.mac(body) then scheme.decode(body) else None
  }

  function Signature(token: string): string {
    match RPartition(token)
    case None => ""
    case Some((_, sig)) => sig
  }

  datatype Submission = Submission(
    token: string, identityKey: Option<string>, checkedAt: real, timedAt: real, claimedAt: real)

  predicate BoundTo(p: Payload, identityKey: Option<string>) { p.identityKey.Some? ==> p.identityKey == identityKey }

  /** The submission gets as far as the claim. */
  predicate ReachesClaim(scheme: Scheme, s: Submission) {
    match Authentic(scheme, s.token)
    case None => false
    case Some(p) => s.checkedAt <= p.expiresAt && BoundTo(p, s.identityKey)
  }

  function Ttl(p: Payload, timedAt: real): int { Max(1, Truncated(p.expiresAt - timedAt) + 1) }

  function ContextOf(p: Payload): ReviewContext {
    ReviewContext(p.detections, p.imageWidth, p.imageHeight, p.issuedAt, p.expiresAt)
  }

  function Submitted(kind: StoreKind, scheme: Scheme, spent: map<string, real>, s: Submission): (map<string, real>,
        Outcome) {
    match Authentic(scheme, s.token)
    case None => (spent, Rejected("INVALID_REVIEW"))
    case Some(p) =>
      if s.checkedAt > p.expiresAt then (spent, Rejected("REVIEW_EXPIRED"))
      else if !BoundTo(p, s.identityKey) then (spent, Rejected("INVALID_REVIEW"))
      else
        var (after, first) := Claimed(kind, spent, s.claimedAt, Signature(s.token), Ttl(p, s.timedAt));
        (after, if first then Accepted(ContextOf(p)) else Rejected("REVIEW_CONFLICT"))
  }

  class ReviewTokenIssuer {
    const ttlSeconds: int
    const scheme: Scheme
    const replayStore: InMemoryReplayStore

    constructor (ttlSeconds: int, scheme: Scheme)
      ensures this.ttlSeconds == ttlSeconds && this.scheme == scheme && fresh(replayStore) && replayStore.spent == map[]
    {
      this.ttlSeconds, this.scheme := ttlSeconds, scheme;
      replayStore := new InMemoryReplayStore();
    }

    method Issue(now: real, detections: seq<TokenDetection>, width: int, height: int, identityKey: Option<string>)
      returns (token: string)
      ensures token == TokenOf(scheme, Payload(detections, width, height, now, now + ttlSeconds as real, identityKey))
    {
      var body := scheme.encode(Payload(detections, width, height, now, now + ttlSeconds as real, identityKey));
      return body + "." + scheme.mac(body);
    }

    method VerifyAndConsume(s: Submission) returns (outcome: Outcome)
      modifies replayStore
      ensures (replayStore.spent, outcome) == Submitted(InMemory, scheme, old(replayStore.spent), s)
    {
      var parts := RPartition(s.token);
      if parts.None? {
        return Rejected("INVALID_REVIEW");
      }
      var body, signature := parts.value.0, parts.value.1;
      if signature != scheme.mac(body) {
        return Rejected("INVALID_REVIEW");
      }
      var payload := scheme.decode(body);
      if payload.None? {
        return Rejected("INVALID_REVIEW");
      }
      var p := payload.value;
      if s.checkedAt > p.expiresAt {
        return Rejected("REVIEW_EXPIRED");
      }
      if p.identityKey.Some? && p.identityKey != s.identityKey {
        return Rejected("INVALID_REVIEW");
      }
      var first := replayStore.TryConsume(s.claimedAt, signature, Max(1, Truncated(p.expiresAt - s.timedAt) + 1));
      if !first {
        return Rejected("REVIEW_CONFLICT");
      }
      return Accepted(ReviewContext(p.detections, p.imageWidth, p.imageHeight, p.issuedAt, p.expiresAt));
    }
  }

  // ---------- runs ----------

  /** Clock readings of one submission are in order, and so are the claims of a run. */
  ghost predicate Chronological(run: seq<Submission>) {
    && (forall i :: 0 <= i < |run| ==> run[i].checkedAt <= run[i].timedAt <= run[i].claimedAt)
    && (forall i, j :: 0 <= i < j < |run| ==> run[i].claimedAt <= run[j].claimedAt)
  }

  function After(kind: StoreKind, scheme: Scheme, run: seq<Submission>): map<string, real> {
    if run == [] then map[]
    else Submitted(kind, scheme, After(kind, scheme, run[..|run| - 1]), run[|run| - 1]).0
  }

  function OutcomeAt(kind: StoreKind, scheme: Scheme, run: seq<Submission>, i: nat): Outcome
    requires i < |run|
  {
    Submitted(kind, scheme, After(kind, scheme, run[..i]), run[i]).1
  }

  lemma {:induction false} AfterOneMore(kind: StoreKind, scheme: Scheme, run: seq<Submission>, i: nat)
    requires i < |run|
    ensures After(kind, scheme, run[..i + 1]) == Submitted(kind, scheme, After(kind, scheme, run[..i]), run[i]).0
  {
    assert run[..i + 1][..i] == run[..i];
  }

  lemma {:induction false} SameSignature(scheme: Scheme, s: Submission, t: Submission)
    requires Proper(scheme) && ReachesClaim(scheme, s) && ReachesClaim(scheme, t)
    requires Signature(s.token) == Signature(t.token)
    ensures Authentic(scheme, s.token) == Authentic(scheme, t.token)
  {}

  /** When the claim made by `s` lapses. */
  function Marker(scheme: Scheme, s: Submission): real
    requires ReachesClaim(scheme, s)
  {
    s.claimedAt + Max(1, Ttl(Authentic(scheme, s.token).value, s.timedAt)) as real
  }

  lemma {:induction false} MarkerOutlivesToken(scheme: Scheme, s: Submission)
    requires ReachesClaim(scheme, s) && s.timedAt <= s.claimedAt
    ensures Marker(scheme, s) > Authentic(scheme, s.token).value.expiresAt
  {}

  // ---------- at most once ----------

  ghost predicate AcceptedAt(kind: StoreKind, scheme: Scheme, run: seq<Submission>, i: nat) {
    i < |run| && OutcomeAt(kind, scheme, run, i).Accepted?
  }

  /** Submission `i` is accepted on a token with this signature. */
  ghost predicate AcceptedAs(kind: StoreKind, scheme: Scheme, run: seq<Submission>, i: nat, sig: string) {
    AcceptedAt(kind, scheme, run, i) && Signature(run[i].token) == sig
  }

  /** The marker is still there, or it has lapsed by the time `now`. */
  ghost predicate Remembers(kind: StoreKind, spent: map<string, real>, sig: string, marker: real, now: real) {
    if sig in spent then spent[sig] == marker else !Alive(kind, marker, now)
  }

  lemma {:induction false} MarkerIsSet(kind: StoreKind, scheme: Scheme, spent: map<string, real>, s: Submission)
    requires ReachesClaim(scheme, s) && Submitted(kind, scheme, spent, s).1.Accepted?
    ensures Remembers(kind, Submitted(kind, scheme, spent, s).0, Signature(s.token), Marker(scheme, s), s.claimedAt)
  {}

  /** A submission that is not an accepted one of the same token keeps the memory of the marker. */
  lemma {:induction false} MarkerStays(kind: StoreKind, scheme: Scheme, spent: map<string, real>, s: Submission,
        sig: string, marker: real, earlier: real)
    requires Remembers(kind, spent, sig, marker, earlier) && earlier <= s.claimedAt
    requires Signature(s.token) == sig ==> !Submitted(kind, scheme, spent, s).1.Accepted?
    ensures Remembers(kind, Submitted(kind, scheme, spent, s).0, sig, marker, s.claimedAt)
  {
    if ReachesClaim(scheme, s) {
      var live := Live(kind, spent, s.claimedAt);
      assert Signature(s.token) == sig ==> Signature(s.token) in live;
    }
  }

  /** Between `i` and `n`, no submission with the signature `sig` is accepted. */
  ghost predicate NotAcceptedBetween(kind: StoreKind, scheme: Scheme, run: seq<Submission>, sig: string, i: nat,
        n: nat) {
    forall k :: i < k < n ==> !AcceptedAs(kind, scheme, run, k, sig)
  }

  /** After an accepted submission the store remembers its marker until the token is accepted again. */
  lemma {:induction false} MarkerSurvivesRun(kind: StoreKind, scheme: Scheme, run: seq<Submission>, i: nat, n: nat,
        sig: string, marker: real)
    requires Chronological(run) && i < n <= |run|
    requires AcceptedAs(kind, scheme, run, i, sig) && ReachesClaim(scheme, run[i]) && marker == Marker(scheme, run[i])
    requires NotAcceptedBetween(kind, scheme, run, sig, i, n)
    ensures Remembers(kind, After(kind, scheme, run[..n]), sig, marker, run[n - 1].claimedAt)
    decreases n - i
  {
    var before, s := After(kind, scheme, run[..n - 1]), run[n - 1];
    AfterOneMore(kind, scheme, run, n - 1);
    if n - 1 == i {
      MarkerIsSet(kind, scheme, before, s);
    } else {
      MarkerSurvivesRun(kind, scheme, run, i, n - 1, sig, marker);
      assert !AcceptedAs(kind, scheme, run, n - 1, sig);
      MarkerStays(kind, scheme, before, s, sig, marker, run[n - 2].claimedAt);
    }
  }

  /** A repeated submission that reaches the claim is let through exactly when the first
      claim's marker has lapsed by then. */
  lemma {:induction false} RepeatExact(kind: StoreKind, scheme: Scheme, run: seq<Submission>, i: nat, j: nat)
    requires Chronological(run) && i < j < |run| && run[i].token == run[j].token
    requires AcceptedAt(kind, scheme, run, i) && ReachesClaim(scheme, run[i]) && ReachesClaim(scheme, run[j])
    requires NotAcceptedBetween(kind, scheme, run, Signature(run[i].token), i, j)
    ensures AcceptedAt(kind, scheme, run, j) <==> !Alive(kind, Marker(scheme, run[i]), run[j].claimedAt)
  {
    MarkerSurvivesRun(kind, scheme, run, i, j, Signature(run[i].token), Marker(scheme, run[i]));
    var spent := After(kind, scheme, run[..j]);
    assert Signature(run[j].token) in Live(kind, spent, run[j].claimedAt) <==>
           Alive(kind, Marker(scheme, run[i]), run[j].claimedAt);
  }

  lemma {:induction false} AcceptedReachesClaim(kind: StoreKind, scheme: Scheme, run: seq<Submission>, i: nat)
    requires AcceptedAt(kind, scheme, run, i)
    ensures ReachesClaim(scheme, run[i])
  {}

  lemma {:induction false} Latest(p: nat -> bool, i: nat, j: nat) returns (m: nat)
    requires i < j && p(i)
    ensures i <= m < j && p(m) && forall k: nat :: m < k < j ==> !p(k)
    decreases j - i
  {
    if p(j - 1) {
      m := j - 1;
    } else {
      m := Latest(p, i, j - 1);
    }
  }

  /** No token is accepted twice, as long as every claim happens before its token expires. */
  lemma {:induction false} AtMostOnce(kind: StoreKind, scheme: Scheme, run: seq<Submission>, i: nat, j: nat)
    requires Proper(scheme) && Chronological(run) && i < j < |run|
    requires AcceptedAt(kind, scheme, run, i) && Signature(run[i].token) == Signature(run[j].token)
    requires ReachesClaim(scheme, run[j]) ==> run[j].claimedAt <= Authentic(scheme, run[j].token).value.expiresAt
    ensures OutcomeAt(kind, scheme, run, j).Rejected?
    ensures ReachesClaim(scheme, run[j]) ==> OutcomeAt(kind, scheme, run, j) == Rejected("REVIEW_CONFLICT")
  {
    if ReachesClaim(scheme, run[j]) {
      var sig := Signature(run[j].token);
      var accepted := (k: nat) => AcceptedAs(kind, scheme, run, k, sig);
      var m := Latest(accepted, i, j);
      assert forall k: nat :: m < k < j ==> accepted(k) == AcceptedAs(kind, scheme, run, k, sig);
      AcceptedReachesClaim(kind, scheme, run, m);
      SameSignature(scheme, run[m], run[j]);
      MarkerOutlivesToken(scheme, run[m]);
      MarkerSurvivesRun(kind, scheme, run, m, j, sig, Marker(scheme, run[m]));
      assert sig in Live(kind, After(kind, scheme, run[..j]), run[j].claimedAt);
    }
  }

  // ---------- the rightful submission ----------

  /** Whatever is marked as spent was accepted. */
  lemma {:induction false} SpentWasAccepted(kind: StoreKind, scheme: Scheme, run: seq<Submission>, n: nat, sig: string)
    requires n <= |run| && sig in After(kind, scheme, run[..n])
    ensures exists k :: 0 <= k < n && AcceptedAs(kind, scheme, run, k, sig)
    decreases n
  {
    if n > 0 {
      AfterOneMore(kind, scheme, run, n - 1);
      if sig in After(kind, scheme, run[..n - 1]) {
        SpentWasAccepted(kind, scheme, run, n - 1, sig);
      } else {
        assert AcceptedAs(kind, scheme, run, n - 1, sig);
      }
    }
  }

  lemma {:induction false} IssuedIsAuthentic(scheme: Scheme, p: Payload)
    requires Proper(scheme) && ReadsBack(scheme, p)
    ensures Authentic(scheme, TokenOf(scheme, p)) == Some(p)
    ensures Signature(TokenOf(scheme, p)) == scheme.mac(scheme.encode(p))
  {
    RPartitionJoins(scheme.encode(p), scheme.mac(scheme.encode(p)));
  }

  /** Nothing but an earlier acceptance can burn a token: its first submission in time by its
      owner is accepted and returns exactly what was issued, whatever else was submitted. */
  lemma {:induction false} FirstRightfulAccepted(kind: StoreKind, scheme: Scheme, p: Payload, run: seq<Submission>,
        j: nat)
    requires Proper(scheme) && ReadsBack(scheme, p) && j < |run| && run[j].token == TokenOf(scheme, p)
    requires run[j].checkedAt <= p.expiresAt && BoundTo(p, run[j].identityKey)
    requires forall k :: 0 <= k < j && run[k].token == TokenOf(scheme, p) ==> !AcceptedAt(kind, scheme, run, k)
    ensures OutcomeAt(kind, scheme, run, j) == Accepted(ContextOf(p))
  {
    IssuedIsAuthentic(scheme, p);
    var sig := Signature(run[j].token);
    var spent := After(kind, scheme, run[..j]);
    if sig in spent {
      SpentWasAccepted(kind, scheme, run, j, sig);
      var k :| 0 <= k < j && AcceptedAs(kind, scheme, run, k, sig);
      AcceptedReachesClaim(kind, scheme, run, k);
      SignatureDeterminesToken(scheme, run[k].token, run[j].token);
    }
    assert sig !in Live(kind, spent, run[j].claimedAt);
  }

  lemma {:induction false} PartsOfToken(token: string)
    ensures RPartition(token).Some? ==> token == RPartition(token).value.0 + "." + RPartition(token).value.1
    decreases |token|
  {
    if token != "" {
      PartsOfToken(token[..|token| - 1]);
      assert token == token[..|token| - 1] + [token[|token| - 1]];
    }
  }

  lemma {:induction false} SignatureDeterminesToken(scheme: Scheme, a: string, b: string)
    requires Proper(scheme) && Authentic(scheme, a).Some? && Authentic(scheme, b).Some? && Signature(a) == Signature(b)
    ensures a == b
  {
    PartsOfToken(a);
    PartsOfToken(b);
  }

  // ---------- a claim delayed past the marker ----------

  /** Without the bound on the claim the promise fails: checked in time, claimed too late. */
  lemma {:induction false} DelayedClaimReplays(scheme: Scheme, p: Payload)
    requires Proper(scheme) && ReadsBack(scheme, p) && p.expiresAt == 10.0 && p.identityKey == None
    ensures var t := TokenOf(scheme, p);
            var run := [Submission(t, None, 0.0, 0.0, 0.0), Submission(t, None, 10.0, 10.0, 12.0)];
            Chronological(run) && AcceptedAt(InMemory, scheme, run, 0) && AcceptedAt(InMemory, scheme, run, 1)
  {
    var t := TokenOf(scheme, p);
    var run := [Submission(t, None, 0.0, 0.0, 0.0), Submission(t, None, 10.0, 10.0, 12.0)];
    IssuedIsAuthentic(scheme, p);
    assert run[..0] == [];
    assert Live(InMemory, map[], 0.0) == map[];
    RepeatExact(InMemory, scheme, run, 0, 1);
    assert Marker(scheme, run[0]) == 11.0;
  }

  // ---------- which submissions are accepted ----------

  /** The token is this body, signed, and the body reads as `p`. */
  predicate Signed(scheme: Scheme, token: string, body: string, p: Payload) {
    && token == body + "." + scheme.mac(body) && '.' !in scheme.mac(body)
    && scheme.decode(body) == Some(p)
  }

  lemma {:induction false} NoDotAfterLast(token: string)
    ensures RPartition(token).Some? ==> '.' !in RPartition(token).value.1
    ensures RPartition(token).None? ==> '.' !in token
    decreases |token|
  {
    if token != "" {
      NoDotAfterLast(token[..|token| - 1]);
      assert token == token[..|token| - 1] + [token[|token| - 1]];
    }
  }

  lemma {:induction false} AuthenticWhenSigned(scheme: Scheme, token: string, body: string, p: Payload)
    requires Signed(scheme, token, body, p)
    ensures Authentic(scheme, token) == Some(p) && RPartition(token) == Some((body, scheme.mac(body)))
  {
    RPartitionJoins(body, scheme.mac(body));
  }

  lemma {:induction false} SignedWhenAuthentic(scheme: Scheme, token: string) returns (body: string)
    requires Authentic(scheme, token).Some?
    ensures Signed(scheme, token, body, Authentic(scheme, token).value) && Signature(token) == scheme.mac(body)
  {
    PartsOfToken(token);
    NoDotAfterLast(token);
    body := RPartition(token).value.0;
  }

  /** The marker of this signature is still there. */
  predicate Burned(kind: StoreKind, spent: map<string, real>, sig: string, now: real) {
    sig in spent && if kind == InMemory then now <= spent[sig] else now < spent[sig]
  }

  /** What a submission of a signed token must come to: its code when it is late, comes from
      someone else, or was accepted before and is remembered; else what was issued. */
  function Verdict(kind: StoreKind, spent: map<string, real>, s: Submission, sig: string, p: Payload): Outcome {
    if s.checkedAt > p.expiresAt then Rejected("REVIEW_EXPIRED")
    else if p.identityKey != None && p.identityKey != s.identityKey then Rejected("INVALID_REVIEW")
    else if Burned(kind, spent, sig, s.claimedAt) then Rejected("REVIEW_CONFLICT")
    else Accepted(ReviewContext(p.detections, p.imageWidth, p.imageHeight, p.issuedAt, p.expiresAt))
  }

  /** The markers that are left at the time of the claim, and the new one. */
  ghost predicate MarksOnly(kind: StoreKind, before: map<string, real>, after: map<string, real>, s: Submission,
                            sig: string, p: Payload, accepted: bool)
  {
    forall other: string ::
      (Burned(kind, after, other, s.claimedAt) <==>
         Burned(kind, before, other, s.claimedAt) || (accepted && other == sig))
      && (Burned(kind, after, other, s.claimedAt) ==>
            after[other] == if accepted && other == sig
                            then s.claimedAt + Max(1, Truncated(p.expiresAt - s.timedAt) + 1) as real
                            else before[other])
  }

  /** Over any run: the answer to a signed submission, and the only marker that it sets. */
  lemma {:induction false} SignedExactly(kind: StoreKind, scheme: Scheme, run: seq<Submission>, i: nat, body: string,
        p: Payload)
    requires i < |run| && Signed(scheme, run[i].token, body, p)
    ensures OutcomeAt(kind, scheme, run, i) == Verdict(kind, After(kind, scheme, run[..i]), run[i], scheme.mac(body), p)
    ensures MarksOnly(kind, After(kind, scheme, run[..i]), After(kind, scheme, run[..i + 1]), run[i],
                      scheme.mac(body), p, OutcomeAt(kind, scheme, run, i).Accepted?)
  {
    AuthenticWhenSigned(scheme, run[i].token, body, p);
    AfterOneMore(kind, scheme, run, i);
  }

  /** A submission that is not signed is refused and leaves everything as it was. */
  lemma {:induction false} UnsignedExactly(kind: StoreKind, scheme: Scheme, run: seq<Submission>, i: nat)
    requires i < |run| && forall body, p :: !Signed(scheme, run[i].token, body, p)
    ensures OutcomeAt(kind, scheme, run, i) == Rejected("INVALID_REVIEW")
    ensures After(kind, scheme, run[..i + 1]) == After(kind, scheme, run[..i])
  {
    AfterOneMore(kind, scheme, run, i);
    if Authentic(scheme, run[i].token).Some? {
      var body := SignedWhenAuthentic(scheme, run[i].token);
      assert false;
    }
  }

  /** Over any run a submission is accepted if and only if it is signed, in time, from the one
      the token is bound to, and the token is not burned. */
  lemma {:induction false} AcceptedExactly(kind: StoreKind, scheme: Scheme, run: seq<Submission>, i: nat)
    requires i < |run|
    ensures OutcomeAt(kind, scheme, run, i).Accepted? <==>
            exists body, p ::
              && Signed(scheme, run[i].token, body, p)
              && run[i].checkedAt <= p.expiresAt
              && (p.identityKey == None || p.identityKey == run[i].identityKey)
              && !Burned(kind, After(kind, scheme, run[..i]), scheme.mac(body), run[i].claimedAt)
  {
    if Authentic(scheme, run[i].token).Some? {
      var body := SignedWhenAuthentic(scheme, run[i].token);
      SignedExactly(kind, scheme, run, i, body, Authentic(scheme, run[i].token).value);
    }
    forall body, p | Signed(scheme, run[i].token, body, p)
      ensures OutcomeAt(kind, scheme, run, i) ==
              Verdict(kind, After(kind, scheme, run[..i]), run[i], scheme.mac(body), p)
    {
      SignedExactly(kind, scheme, run, i, body, p);
    }
  }

  // ---------- which tokens are burned ----------

  /** The submission was accepted, and the marker it set is still there. */
  ghost predicate BurnedBy(kind: StoreKind, scheme: Scheme, run: seq<Submission>, k: nat, body: string, p: Payload,
                           now: real)
  {
    && AcceptedAt(kind, scheme, run, k) && Signed(scheme, run[k].token, body, p)
    && var marker := run[k].claimedAt + Max(1, Truncated(p.expiresAt - run[k].timedAt) + 1) as real;
       if kind == InMemory then now <= marker else now < marker
  }

  ghost predicate BurnedBySome(kind: StoreKind, scheme: Scheme, run: seq<Submission>, n: nat, sig: string, now: real) {
    exists k, body, p :: 0 <= k < n && scheme.mac(body) == sig && BurnedBy(kind, scheme, run, k, body, p, now)
  }

  lemma {:induction false} MarksLater(kind: StoreKind, scheme: Scheme, run: seq<Submission>, i: nat, sig: string,
        now: real)
    requires i < |run| && run[i].claimedAt <= now && !AcceptedAs(kind, scheme, run, i, sig)
    ensures Burned(kind, After(kind, scheme, run[..i + 1]), sig, now) <==>
            Burned(kind, After(kind, scheme, run[..i]), sig, now)
  {
    if Authentic(scheme, run[i].token).Some? {
      var body := SignedWhenAuthentic(scheme, run[i].token);
      SignedExactly(kind, scheme, run, i, body, Authentic(scheme, run[i].token).value);
    } else {
      AfterOneMore(kind, scheme, run, i);
    }
  }

  lemma {:induction false} MarkSet(kind: StoreKind, scheme: Scheme, run: seq<Submission>, i: nat, sig: string,
        now: real)
    requires i < |run| && run[i].claimedAt <= now && AcceptedAs(kind, scheme, run, i, sig)
    ensures Burned(kind, After(kind, scheme, run[..i + 1]), sig, now) <==>
            exists body, p :: scheme.mac(body) == sig && BurnedBy(kind, scheme, run, i, body, p, now)
    ensures !Burned(kind, After(kind, scheme, run[..i]), sig, run[i].claimedAt)
  {
    var p := Authentic(scheme, run[i].token).value;
    var body := SignedWhenAuthentic(scheme, run[i].token);
    SignedExactly(kind, scheme, run, i, body, p);
    assert Burned(kind, After(kind, scheme, run[..i + 1]), sig, run[i].claimedAt);
    assert Burned(kind, After(kind, scheme, run[..i + 1]), sig, now) <==>
           BurnedBy(kind, scheme, run, i, body, p, now);
    forall b, q | Signed(scheme, run[i].token, b, q)
      ensures q == p
    {
      AuthenticWhenSigned(scheme, run[i].token, b, q);
    }
  }

  lemma {:induction false} BurnedEarlier(kind: StoreKind, scheme: Scheme, run: seq<Submission>, n: nat, sig: string,
        now: real, later: real)
    requires now <= later && BurnedBySome(kind, scheme, run, n, sig, later)
    ensures BurnedBySome(kind, scheme, run, n, sig, now)
  {
    var k, body, p :| 0 <= k < n && scheme.mac(body) == sig && BurnedBy(kind, scheme, run, k, body, p, later);
    assert BurnedBy(kind, scheme, run, k, body, p, now);
  }

  /** A token is burned exactly as long as a marker lasts that an accepted submission of a token
      with its signature has set. */
  lemma {:induction false} BurnedExactly(kind: StoreKind, scheme: Scheme, run: seq<Submission>, n: nat, sig: string,
        now: real)
    requires Chronological(run) && n <= |run| && (n > 0 ==> run[n - 1].claimedAt <= now)
    ensures Burned(kind, After(kind, scheme, run[..n]), sig, now) <==> BurnedBySome(kind, scheme, run, n, sig, now)
  {
    if n > 0 {
      var i := n - 1;
      BurnedExactly(kind, scheme, run, i, sig, now);
      if AcceptedAs(kind, scheme, run, i, sig) {
        MarkSet(kind, scheme, run, i, sig, now);
        BurnedExactly(kind, scheme, run, i, sig, run[i].claimedAt);
        if BurnedBySome(kind, scheme, run, i, sig, now) {
          BurnedEarlier(kind, scheme, run, i, sig, run[i].claimedAt, now);
        }
      } else {
        MarksLater(kind, scheme, run, i, sig, now);
        NotBurnedBy(kind, scheme, run, i, sig, now);
      }
    } else {
      assert run[..0] == [];
    }
  }

  lemma {:induction false} NotBurnedBy(kind: StoreKind, scheme: Scheme, run: seq<Submission>, i: nat, sig: string,
        now: real)
    requires i < |run| && !AcceptedAs(kind, scheme, run, i, sig)
    ensures forall body, p :: scheme.mac(body) == sig ==> !BurnedBy(kind, scheme, run, i, body, p, now)
  {
    forall body, p | scheme.mac(body) == sig && Signed(scheme, run[i].token, body, p)
      ensures Signature(run[i].token) == sig
    {
      AuthenticWhenSigned(scheme, run[i].token, body, p);
    }
  }
}
