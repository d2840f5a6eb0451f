# A verified model of MaskGuard's core

MaskGuard finds sensitive data in screenshots, masks it, reads the masked image again to
see whether anything is left, and lets a person review the outcome. This project models
the algorithms and state machines under its OCR, HTTP and user-interface layers and proves
what they promise, for all inputs, all runs and, where text recognition is involved, against
any recogniser.

The modules, by the part of the system they describe:

- **Measuring** (`EditDistance`, `Matching`): the two-row edit distance against edit scripts,
  intersection over union against sets of cells, the greedy matcher against every matching.
- **Rate limiting** (`KeyOrder`, `RateLimiting`, `RateLimitRuns`, `RateLimitEviction`,
  `RedisRateLimiting`): the bounded in-memory limiter and the Redis script against one
  fixed-window counter that remembers every call.
- **From OCR text to boxes** (`LineGrouping`, `LineFirstFit`, `LineIndexing`,
  `ContextNormalization`, `NormalizedSpaces`, `NormalizationProperties`): lines, joined text, the normaliser with
  its position map, and the way back to tokens and boxes.
- **Audit log** (`AuditChain`, `AuditHistory`): the hash chain, its check, and retention.
- **One-time review tokens** (`ReviewTokens`), **sessions** (`Sessions`, `SessionRuns`,
  `SessionLiveness`, `SessionHistory`, `SessionEviction`, `SessionKeyLife`),
  **pending logins** (`PendingTransactions`), **job slots** (`JobSlots`): state machines whose
  safety is shown over whole runs. The Redis and in-memory session stores are shown to return only what a store that never forgets would return
  (`SessionRuns`), and exactly when they return less (`SessionEviction`, `SessionKeyLife`).
- **Risk, policy, review** (`Models`, `DetectionMerging`, `MergedPlaces`, `RiskScoring`,
  `PolicyDecisions`, `FindingFates`, `RaisedConfidences`, `ReviewService`, `ReviewProperties`,
  `ReviewCompletion`): in-place merging, scoring, deciding, and the rebuilding of a detection
  list from a review, up to the released image.
- **Verification** (`ResidualText`, `Redaction`, `Verification`, `VerificationRuns`,
  `PipelineTail`, `Processing`): what counts as still readable, the escalation ladder, the
  retry loop, the independent scan, the decision to release, and the whole way from findings
  to the released image.
- **Card numbers** (`Luhn`): the checksum of the regex detector.
- `Collections`: small facts about sequences and sets that several modules use.

Code that loops or updates objects is modelled by methods and classes that do the same, and
each is tied by its contract to a function on values; the lemmas are about those functions.
A list of detections that the code updates in place is an array, so that a detection keeps
its identity while its fields change, and a list that refers to some of them is a sequence of
indices.

## What the proofs turned up

Where the code does not keep a promise as one would first write it down, the model keeps the
code, and the lemmas named here give an input for which the promise fails or say exactly when
it holds, mostly both.

- Evicting the least recently used key reopens the window under way for that key
  (`maskguard/api/ratelimit/limiter.py:33-39` says it never gets more requests than its policy
  allows): `FloodReopensWindow`. Every answer is that of the fixed-window counter if and only
  if no more than `maxKeys` keys are in play: `ExactlyWhenKeysFit`.
- `cleanup_now` sets the time of the last sweep to -1 to force a sweep
  (`maskguard/api/ratelimit/limiter.py:125-132`). On a clock that reads less than the interval
  minus one, nothing is swept: `CleanupNow`.
- Two tokens with one top edge and one height need not come out on one line: a lower token
  between them can draw another line down over the second (`EqualButParted`). They do when every
  token with that top edge has that height (`SideBySideShare`).
- The matcher leaves no acceptable pair over only when the threshold is positive; at zero,
  boxes that do not meet are never matched: `MaximalExactlyForPositiveThreshold`. The same holds
  of the factor-two bound: `HalfOptimalExactlyForPositiveThreshold`.
- A review token can be accepted a second time when the claim happens after the marker of the
  first one has lapsed, although its expiry was checked in time: `DelayedClaimReplays`; exactly
  then: `RepeatExact`.
- Retention keeps the audit chain intact if and only if no expired row lies between surviving
  ones (`RetentionExact`); one event stored out of time order is enough to break it
  (`BackdatedEventBreaksChain`).
- A Redis session key outlives its session exactly when sessions are minted for less than a
  second: `KeyNeverOutlivesSession`, and over runs `KeysNeverOutliveSessions`.
- Merging keeps only one box of a group. Called on any list, `score` can lose the place of a
  finding: exactly when some finding is more confident than two earlier ones of its type
  (`PlacesKeptExactly`, `ChainLosesPlace`). On the lists the pipeline collects confidences do not
  rise within a type, and the box kept is that of the first member, which meets all the others
  (`CollectedKeepPlaces`). It need not cover them: of a second finding whose box meets the first
  in one row of pixels, as on touching lines, the rest stays unmasked and its text is not looked
  for in verification (`TouchingLinesLoseText`). A critical finding is masked as a whole exactly
  when the first finding of its group covers it (`CollectedWhollyMaskedExactly`).
- A full in-memory session store forgets sessions that have not expired (`FirstIsForgotten`),
  exactly as `InMemoryAnswersExactly` and `EnoughRoomExactly` say. The Redis store counts the
  life of a key in whole seconds and loses a session that still lives at the moment its idle time
  is over and in its last second (`RedisMissesExactly`, `MissedAtTheEdges`).
- Raising the confidence of a member can move the box of its group off the line of a keyword and
  lower its risk level, down to no redaction (`RaisingCanLower`); exactly when it cannot is
  `RaisingOnOneGrouping`.
- A box drawn in a review is dropped when it meets a kept box of its type in one pixel
  (`OnePixelIsRedundant`); it is masked as drawn exactly as `MaskedAsDrawnExactly` says, and
  all of it is covered exactly as `WhollyCoveredExactly` says.
- With `critical_action` set to `partial_mask` outside strict mode, critical findings are masked
  less than high ones: `RiskNeverWeakensExactly`.
- No text goes through a review, so verification after a review has nothing to look for
  (`ReviewRendersDecisions`); the whole-image scan is the only check there.
- `verify_and_fix` with no retries allowed reaches the statement marked unreachable
  (`maskguard/verification/verification_engine.py:86-87`) and fails with a count of -1:
  `FailedExactly`.

## Model

| member | source | states |
|---|---|---|
| `EditDistance.Levenshtein` | benchmarks/ocr/metrics.py:19-40 | the two-row loop, with its three shortcuts, returns the edit distance of the two strings (`Distance`), which `DistanceIsShortestScript` identifies |
| `EditDistance.DistanceIsShortestScript` | benchmarks/ocr/metrics.py:19-40 | for all strings there is a script of single-character insertions, deletions and substitutions, at any positions, of exactly that length, and no script is shorter |
| `EditDistance.ShortestScript` | benchmarks/ocr/metrics.py:29-39 | constructs such a script |
| `EditDistance.OneEdit` | benchmarks/ocr/metrics.py:33-37 | one edit anywhere in a string moves it by a distance of at most one |
| `EditDistance.NoShorterScript` | benchmarks/ocr/metrics.py:19-40 | any script that turns one string into the other is at least as long as the distance |
| `EditDistance.ZeroOnlyWhenEqual` | benchmarks/ocr/metrics.py:22-23 | the distance is zero exactly for equal strings |
| `EditDistance.Symmetric` | benchmarks/ocr/metrics.py:19-40 | the distance does not depend on the order of its arguments |
| `EditDistance.Triangle` | benchmarks/ocr/metrics.py:19-40 | the triangle inequality |
| `EditDistance.LengthBounds` | benchmarks/ocr/metrics.py:24-27 | the distance lies between the difference of the lengths and the greater length |
| `Matching.IouIsJaccard` | benchmarks/ocr/metrics.py:62-75 | the corner arithmetic is shared unit cells over covered unit cells, for all rectangles, degenerate and negative ones included |
| `Matching.IouSymmetric` | benchmarks/ocr/metrics.py:62-75 | the score of two boxes does not depend on their order |
| `Matching.IouInUnitInterval` | benchmarks/ocr/metrics.py:62-75 | the score is in [0, 1], is 1 exactly for two copies of one nonempty region, and is positive exactly when a cell is shared |
| `Matching.MatchDetections` | benchmarks/ocr/metrics.py:113-142 | the loop returns the counts and scores of the greedy assignment; TP + FN is the number of ground-truth regions and TP + FP the number of detections |
| `Matching.FindBest` | benchmarks/ocr/metrics.py:128-134 | the inner loop finds the choice that `BestIsBest` characterises |
| `Matching.BestIsBest` | benchmarks/ocr/metrics.py:128-134 | the choice is the first unused detection of the type with the greatest positive score, or nothing when there is none |
| `Matching.GreedyIsSound` | benchmarks/ocr/metrics.py:127-138 | the assignment is one-to-one, type-correct and at the threshold, its size is the number of matches, and no pair with a positive score at the threshold is left over |
| `Matching.PartnersExactly` | benchmarks/ocr/metrics.py:113-142 | every region has the first, among the detections of its type that no earlier region took, with the greatest score, if that is positive and reaches the threshold, and else none; the scores reported are those of the pairs, in order |
| `Matching.UsedFits` | benchmarks/ocr/metrics.py:140-141 | there are no more matches than regions or detections, so the two differences are not negative |
| `Matching.GreedyIsHalfOptimal` | benchmarks/ocr/metrics.py:113-142 | no one-to-one assignment of pairs of equal type that reach the threshold with a positive score has more than twice as many pairs, whatever the score function |
| `Matching.HalfOptimalExactlyForPositiveThreshold` | benchmarks/ocr/metrics.py:113-142 | at least half of every one-to-one, same-type assignment at the threshold is found, on every input, if and only if the threshold is positive |
| `Matching.MaximalExactlyForPositiveThreshold` | benchmarks/ocr/metrics.py:113-142 | no unmatched pair of equal type reaches the threshold, on every input, if and only if the threshold is positive |
| `Luhn.LuhnValid` | maskguard/detection/regex_detector.py:34-43 | the loop from the right decides the checksum of Annex B of ISO/IEC 7812-1 for digit strings of any length |
| `Luhn.ValidExactly` | maskguard/detection/regex_detector.py:34-43 | the checksum is the sum, from the right, of every other digit and of the decimal digits of twice the ones between |
| `Luhn.OneWrongDigit` | maskguard/detection/regex_detector.py:34-43 | replacing any one digit of a valid string leaves it valid only if the digit is the same |
| `Luhn.SwappedNeighbours` | maskguard/detection/regex_detector.py:34-43 | swapping two neighbours of a valid string leaves it valid exactly when they are equal or are 0 and 9 |
| `Luhn.ExactlyOneCheckDigit` | maskguard/detection/regex_detector.py:34-43 | every prefix has exactly one completing digit |
| `RateLimiting.FloorDivision` | maskguard/api/ratelimit/limiter.py:89 | the window of a moment is the floor of the quotient times the window |
| `RateLimiting.LaterWindow` | maskguard/api/ratelimit/limiter.py:89 | windows of later moments are never earlier, and are the same exactly while the window lasts |
| `RateLimiting.RateLimiter.constructor` | maskguard/api/ratelimit/limiter.py:74-79 | both settings are raised to at least one and the store starts empty |
| `RateLimiting.RateLimiter.Check` | maskguard/api/ratelimit/limiter.py:81-109 | makes the step whose runs `FixedWindow` compares with a counter that remembers every call, and keeps the size limit |
| `RateLimiting.RateLimiter.Touch` | maskguard/api/ratelimit/limiter.py:94-102 | the key ends up most recent, with a bucket for the current window; a new key in a full store displaces the least recently touched one |
| `RateLimiting.RateLimiter.Count` | maskguard/api/ratelimit/limiter.py:104-109 | a call is refused exactly when the count has reached the capacity, otherwise it is counted; the remaining calls and the time to wait |
| `RateLimiting.RateLimiter.MaybeCleanup` | maskguard/api/ratelimit/limiter.py:111-123 | once per interval exactly the stale buckets go |
| `RateLimiting.RateLimiter.CleanupNow` | maskguard/api/ratelimit/limiter.py:125-132 | the forced sweep removes exactly the stale buckets when the clock reads at least interval - 1, and nothing otherwise; then the time of the last sweep stays at -1 |
| `RateLimiting.RateLimiter.KeyCount` | maskguard/api/ratelimit/limiter.py:134-137 | the number of keys, which never exceeds `maxKeys` |
| `RateLimiting.CheckedKeepsWellFormed` | maskguard/api/ratelimit/limiter.py:81-109 | no call lets the store outgrow `maxKeys`, and keys and order never disagree |
| `RateLimiting.SweepsExactly` | maskguard/api/ratelimit/limiter.py:111-123 | a sweep is due once per interval and takes exactly the buckets whose window is over |
| `RateLimiting.WaitsExactly` | maskguard/api/ratelimit/limiter.py:104-106 | a refused caller is told the whole seconds left of the window, plus one |
| `RateLimiting.MisconfiguredExactly` | maskguard/api/ratelimit/limiter.py:82-86 | a policy that is not positive lets nobody through and changes nothing |
| `RateLimitRuns.LastTouchOrder` | maskguard/api/ratelimit/limiter.py:91-102 | after any run the buckets are at most `maxKeys`, and a key further back in the order was checked after the last check of every key before it |
| `RateLimitRuns.NotEvicted` | maskguard/api/ratelimit/limiter.py:95-99 | a key is not the one evicted while fewer than `maxKeys` other keys have been checked since its own last check |
| `RateLimitRuns.ExactAfterSweep` | maskguard/api/ratelimit/limiter.py:111-123 | sweeping is invisible: it changes no count of the current or a later window |
| `RateLimitRuns.RunStaysExact` | maskguard/api/ratelimit/limiter.py:81-123 | after any paced run on a nondecreasing clock, and while fewer than `maxKeys` other keys have been checked since the last check of the key, its count is exactly the number of calls admitted in the window |
| `RateLimitRuns.FixedWindow` | maskguard/api/ratelimit/limiter.py:81-123 | on every run with a nondecreasing clock in which fewer than `maxKeys` other keys are checked between two checks of a key, a call for it is admitted exactly when fewer than `capacity` were admitted before it in the same window, with the right limit and remaining count |
| `RateLimitRuns.RetryLandsLater` | maskguard/api/ratelimit/limiter.py:104-106 | a refused caller is told to wait between 1 and window + 1, and is in a later window once it has |
| `RateLimitRuns.AtMostTwiceCapacity` | maskguard/api/ratelimit/limiter.py:17-20 | any limiter that never admits more than the fixed-window counter admits at most twice the capacity in any span of one window length |
| `RateLimitRuns.BurstBound` | maskguard/api/ratelimit/limiter.py:17-20 | hence so does this one |
| `RateLimitEviction.FloodReopensWindow` | maskguard/api/ratelimit/limiter.py:33-39 | a flood of `maxKeys` other keys makes the limiter admit a call to a window whose capacity is already used up |
| `RateLimitEviction.ExactlyWhenKeysFit` | maskguard/api/ratelimit/limiter.py:94-99 | the answers are those of the fixed-window counter on all runs over a set of keys, under all policies, if and only if the set has at most `maxKeys` keys |
| `RedisRateLimiting.RedisRateLimiter.Check` | maskguard/api/ratelimit/redis_limiter.py:27-65 | makes the step whose runs `RedisRateLimiting.FixedWindow` compares with that counter |
| `RedisRateLimiting.RunCounts` | maskguard/api/ratelimit/redis_limiter.py:34-38 | after any run each counter holds the attempts of its window, refused ones included, and outlives the window by a second |
| `RedisRateLimiting.ExpiresExactly` | maskguard/api/ratelimit/redis_limiter.py:33-37 | over any run a counter expires exactly a window and a second after the first call that it counts |
| `RedisRateLimiting.WaitsExactly` | maskguard/api/ratelimit/redis_limiter.py:38-43 | a refused caller is told the seconds left of that, to the nearest |
| `RedisRateLimiting.AdmittedAreFirstAttempts` | maskguard/api/ratelimit/redis_limiter.py:34-45 | counting attempts admits the same calls as counting admissions |
| `RedisRateLimiting.FixedWindow` | maskguard/api/ratelimit/redis_limiter.py:27-46 | every call of every run gets the answer of the fixed-window counter: no counter expires inside its own window |
| `RedisRateLimiting.BackendsAgree` | maskguard/api/ratelimit/redis_limiter.py:27-46 | on one clock the two backends agree on admission, limit and remaining count of every paced call |
| `RedisRateLimiting.RetryLandsLater` | maskguard/api/ratelimit/redis_limiter.py:38-44 | a refused caller who waits as told is in a later window |
| `RedisRateLimiting.BurstBound` | maskguard/api/ratelimit/redis_limiter.py:27-46 | at most twice the capacity in any span of one window length |
| `LineGrouping.GroupIntoLines` | maskguard/textline.py:7-37 | the loops compute `Grouped`, about which the next lemmas speak |
| `LineFirstFit.GroupedByFirstFit` | maskguard/textline.py:17-36 | the lines returned are those of the assignment in which every token, taken in reading order, is on the earliest line so far that it shares more than half of the lower height with, or on a new one when there is none; each is sorted from left to right |
| `LineFirstFit.SideBySideShare` | maskguard/textline.py:24-30 | two tokens with one top edge and one positive height come out on one line, if every token with that top edge has that height |
| `LineFirstFit.EqualButParted` | maskguard/textline.py:24-30 | without that they need not: an input with a lower token between two equal ones, which end up on different lines |
| `LineGrouping.Place` | maskguard/textline.py:17-31 | the search for a line; see `FirstFit` and `NoFit` |
| `LineGrouping.FirstFit` | maskguard/textline.py:21-29 | a token joins the earliest line that it overlaps by more than half of the lower of the two heights |
| `LineGrouping.NoFit` | maskguard/textline.py:30-31 | a token that fits no line starts one |
| `LineGrouping.ExtentCovers` | maskguard/textline.py:22-23 | the vertical extent of a line is the least interval that covers its tokens |
| `LineGrouping.EveryTokenOnce` | maskguard/textline.py:7-37 | every token lands in exactly one line |
| `LineGrouping.LinesInOrder` | maskguard/textline.py:33-36 | lines run from top to bottom and tokens in a line from left to right, and no line is empty |
| `LineGrouping.InputOrderIrrelevant` | maskguard/textline.py:14 | the result does not depend on the order of the input when no two tokens share a corner |
| `LineGrouping.TouchingLinesStayApart` | maskguard/textline.py:14-36 | two tokens whose boxes share one row of pixels end up on two lines |
| `LineIndexing.BuildLineIndex` | maskguard/detection/line_matching.py:19-31 | the loop with its cursor builds the joined text and the spans of the tokens |
| `LineIndexing.SpanSpellsToken` | maskguard/detection/line_matching.py:19-31 | each span cuts its own token out of the text |
| `LineIndexing.SpansTile` | maskguard/detection/line_matching.py:19-31 | the spans cover the text from end to end with one space between neighbours |
| `LineIndexing.MergedIsLeast` | maskguard/detection/line_matching.py:38-45 | the merged box contains every box and is contained in any rectangle that does; only the empty list has none |
| `ContextNormalization.NormalizeForContext` | maskguard/detection/normalization.py:104-128 | the loop over segments computes the characters and source positions of `Normalized`, about which the next lemmas speak |
| `ContextNormalization.NormalizedChar` | maskguard/detection/normalization.py:72-78 | folding a character twice changes nothing, and it never turns a space into a non-space or back |
| `ContextNormalization.FoldedExactly` | maskguard/detection/normalization.py:44-78 | the characters folded into each mark, the full-width forms of the other visible ASCII characters, and that nothing else is folded |
| `ContextNormalization.SpaceExactly` | maskguard/detection/normalization.py:62 | which characters are white space, code point by code point |
| `NormalizationProperties.Idempotent` | maskguard/detection/normalization.py:104-128 | normalising a normalised text changes nothing |
| `NormalizationProperties.KeepsEverySolidCharacter` | maskguard/detection/normalization.py:110-126 | every non-space character is kept once, in order, folded, at its own position, and nothing else but spaces is produced |
| `NormalizedSpaces.SpacesExactly` | maskguard/detection/normalization.py:108-129 | in the output a space stands between two kept characters if and only if white space was between them and one of them is an ASCII letter or digit, and nowhere else |
| `NormalizationProperties.SourcesAscend` | maskguard/detection/normalization.py:118-124 | source positions never decrease, lie in the text and point at non-space characters |
| `NormalizationProperties.ExtraSpace` | maskguard/detection/normalization.py:117-120 | a space between two non-space characters is invisible if and only if neither, once folded, is an ASCII letter or digit |
| `NormalizationProperties.SplitToken` | maskguard/detection/normalization.py:104-128 | splitting a token leaves the normalised text of its line unchanged if and only if neither neighbour of the split, once folded, is an ASCII letter or digit |
| `NormalizationProperties.LeadsBackToOwners` | maskguard/detection/normalization.py:92-101 | for tokens that are not blank, a range of the normalised text leads back to exactly the tokens that own the source position of one of its characters; ends outside the text are moved into it |
| `NormalizationProperties.HitsAreOwners` | maskguard/detection/line_matching.py:34-35 | the overlap test on spans selects exactly those owners |
| `AuditChain.AuditStore.Append` | maskguard/api/audit/storage.py:148-181 | a new row continues the chain from the last hash or from genesis; a duplicate id is refused and changes nothing |
| `AuditChain.AuditStore.DeleteOlderThan` | maskguard/api/audit/storage.py:236-251 | exactly the rows older than the cutoff go, in order, and their number is returned |
| `AuditChain.AuditStore.VerifyIntegrity` | maskguard/api/audit/storage.py:253-296 | passes exactly when every row continues its predecessor and carries its own hash; otherwise names the first row at which the local check fails |
| `AuditChain.SharedHead` | maskguard/api/audit/storage.py:104-106 | given an injective keyed hash, of two tables that pass and end in the same hash the shorter is a suffix of the longer |
| `AuditChain.AnyChangeReported` | maskguard/api/audit/storage.py:253-296 | no other table of the same length that keeps the last hash passes |
| `AuditChain.EditReported` | maskguard/api/audit/storage.py:253-296 | editing the fields of any record is reported at that record |
| `AuditChain.RemovalReported` | maskguard/api/audit/storage.py:253-296 | removing a block of records passes if and only if the block touches an end of the table |
| `AuditChain.SwapReported` | maskguard/api/audit/storage.py:253-296 | swapping two records passes if and only if the table has just these two and the first continues the second, which no honest hash brings about |
| `AuditChain.RetentionExact` | maskguard/api/audit/storage.py:236-251 | retention leaves a table that passes if and only if no expired row lies between two surviving ones |
| `AuditChain.BackdatedEventBreaksChain` | maskguard/api/audit/storage.py:236-251 | one event stored out of time order and a later retention run are enough to make the check fail |
| `AuditChain.RunsVerify` | maskguard/api/audit/storage.py:142-181 | from an empty store, every sequence of appends and retention runs keeps the check passing, the ids unique and the order of time, provided timestamps do not decrease in append order |
| `AuditHistory.TableExactly` | maskguard/api/audit/storage.py:142-251 | after any run the table holds, in order and each under its own hash, exactly the events whose identifier was free when they were appended and that no later retention run has reached |
| `AuditChain.RestartsFromGenesis` | maskguard/api/audit/storage.py:142-146 | after a retention run that finds every row expired, in whatever order, the next append starts from genesis |
| `ReviewTokens.InMemoryReplayStore.TryConsume` | maskguard/api/review_token.py:128-137 | sweeps exactly the markers in the past, then claims the fingerprint unless it is still marked |
| `ReviewTokens.RedisReplayStore.TryConsume` | maskguard/api/review_token.py:164-174 | the atomic claim against the markers that have not expired |
| `ReviewTokens.ReviewTokenIssuer.Issue` | maskguard/api/review_token.py:203-227 | the token is the encoded payload, a dot and its signature |
| `ReviewTokens.ReviewTokenIssuer.VerifyAndConsume` | maskguard/api/review_token.py:229-291 | the checks in their order, each with its error code, the claim last; the new marker store and the outcome |
| `ReviewTokens.RPartitionJoins` | maskguard/api/review_token.py:240-242 | cutting at the last dot undoes joining |
| `ReviewTokens.IssuedIsAuthentic` | maskguard/api/review_token.py:203-246 | an issued token whose payload reads back as written is authentic and decodes to that payload |
| `ReviewTokens.AcceptedExactly` | maskguard/api/review_token.py:229-291 | over any run a submission is accepted if and only if its token is a body under its signature that decodes to a payload, it is in time, the payload is bound to nobody or to the submitter, and no marker of the signature is left |
| `ReviewTokens.SignedExactly` | maskguard/api/review_token.py:260-291 | what a signed submission is answered, late, from someone else, repeated or rightful, in that order, and that only an accepted one sets a marker, for how long, and no other changes one that is left |
| `ReviewTokens.UnsignedExactly` | maskguard/api/review_token.py:240-258 | any other submission is invalid and changes nothing |
| `ReviewTokens.BurnedExactly` | maskguard/api/review_token.py:128-175 | over any run a marker of a signature is left exactly as long as that of an accepted submission with this signature lasts |
| `ReviewTokens.MarkerOutlivesToken` | maskguard/api/review_token.py:284 | the marker of a claim outlives the token |
| `ReviewTokens.MarkerSurvivesRun` | maskguard/api/review_token.py:128-137 | after an acceptance, whatever is submitted, the marker is remembered until it lapses or the token is accepted again |
| `ReviewTokens.RepeatExact` | maskguard/api/review_token.py:284-286 | a repeated submission that reaches the claim is let through if and only if the marker of the earlier one has lapsed by then |
| `ReviewTokens.AtMostOnce` | maskguard/api/review_token.py:260-286 | over any run on a nondecreasing clock, in either store, no token is accepted twice as long as each claim happens no later than the expiry of its token; the second attempt is a conflict |
| `ReviewTokens.FirstRightfulAccepted` | maskguard/api/review_token.py:229-291 | the first submission of an issued token that is in time and correctly bound is accepted and returns exactly what was issued, whatever else was submitted before |
| `ReviewTokens.DelayedClaimReplays` | maskguard/api/review_token.py:260-285 | without that bound the promise fails: a submission checked in time and claimed two seconds later is accepted again |
| `Sessions.InMemorySessionStore.EvictIfFull` | maskguard/api/auth/session.py:59-63 | the least recently used sessions go until there is room |
| `Sessions.InMemorySessionStore.Create` | maskguard/api/auth/session.py:65-77 | makes the step that `InMemoryRefinesIdeal` compares with a store that never forgets, and keeps keys, order and capacity in agreement |
| `Sessions.InMemorySessionStore.Get` | maskguard/api/auth/session.py:79-89 | the same; a session found expired is removed, a hit is renewed and becomes the last to be evicted |
| `Sessions.InMemorySessionStore.Delete` | maskguard/api/auth/session.py:91-93 | the same; the session is gone and nothing else |
| `Sessions.InMemorySessionStore.Rotate` | maskguard/api/auth/session.py:95-110 | the same; the old session is gone in any case, a live one passes its identity to the new id |
| `Sessions.StaysWithinCapacity` | maskguard/api/auth/session.py:59-110 | no operation takes the store over its capacity |
| `Sessions.RedisSessionStore.Create` | maskguard/api/auth/session.py:227-235 | makes the step that `RedisRefinesIdeal` compares with a store that never forgets; the key lives for at least a second |
| `Sessions.RedisSessionStore.Get` | maskguard/api/auth/session.py:237-255 | the same; a hit never extends the key beyond the idle limit or the absolute expiry |
| `Sessions.RedisSessionStore.Rotate` | maskguard/api/auth/session.py:263-275 | the same; the old key is gone, the identity moves to the new id |
| `SessionRuns.InMemoryRefinesIdeal` | maskguard/api/auth/session.py:49-110 | over any run with fresh ids whatever the bounded store returns, a store that never forgets would return too; and it stays within its capacity |
| `SessionRuns.RedisRefinesIdeal` | maskguard/api/auth/session.py:194-275 | the same for the Redis store on a nondecreasing clock |
| `SessionLiveness.AnsweredExactly` | maskguard/api/auth/session.py:49-110 | over any run a lookup or rotation is answered by a store that never forgets if and only if the session was minted, by a login or by rotating one that lived, was not deleted or rotated away since, the clock is within its absolute limit, and this and every lookup since came within its own idle timeout of a use before it |
| `SessionLiveness.LookupReturns` | maskguard/api/auth/session.py:79-89 | a lookup returns the record of that minting, with its times, seen just now |
| `SessionEviction.HeldExactly` | maskguard/api/auth/session.py:59-110 | after any run the bounded store holds a session exactly when the one that never forgets does and, at no time since the last use that was answered, as many other sessions used since and still alive as the capacity |
| `SessionEviction.InMemoryAnswersExactly` | maskguard/api/auth/session.py:59-110 | to every lookup and rotation, over any run, the bounded store gives the answer of one that never forgets, if and only if that is nothing or there was always room since the last use of the session |
| `SessionEviction.RecentIsRemembered` | maskguard/api/auth/session.py:59-89 | in particular while fewer other ids than the capacity were minted or looked up since that use |
| `SessionEviction.EnoughRoomExactly` | maskguard/api/auth/session.py:59-110 | on every run that never holds more than n sessions all answers are those of a store that never forgets, if and only if the capacity is at least n |
| `SessionEviction.FirstIsForgotten` | maskguard/api/auth/session.py:59-77 | minting one session more than the capacity makes a lookup of the first fail, though it has not expired |
| `SessionKeyLife.KeyIsLastRenewal` | maskguard/api/auth/session.py:237-255 | as long as the Redis store has answered every use, the key holds the session as the last lookup that had a second left, or the minting, saw it, until that plus the whole seconds left |
| `SessionKeyLife.RedisMissesExactly` | maskguard/api/auth/session.py:237-275 | it then answers nothing to a lookup or rotation of a session that lives, if and only if that time is over or the time of last use in the key is too long ago |
| `SessionKeyLife.RedisKeepsUpExactly` | maskguard/api/auth/session.py:237-255 | over any run a minted session is answered whenever it lives, if and only if no lookup comes that late |
| `SessionKeyLife.MissedAtTheEdges` | maskguard/api/auth/session.py:246-254 | with one idle timeout this happens only at the very moment when the idle time is over, or in the last second before the absolute expiry |
| `SessionHistory.EveryRecordAccounted` | maskguard/api/auth/session.py:49-110 | every record held was minted in the run, with its identity and absolute expiry, was last used when it says, and has not been ended since |
| `SessionHistory.LookupIsJustified` | maskguard/api/auth/models.py:55-72 | a successful lookup: the session was minted, is within its idle limit and an absolute limit that never moved, and has not been deleted, rotated away or found expired since |
| `SessionHistory.EndedStaysEnded` | maskguard/api/auth/session.py:79-110 | a session that was deleted, rotated away or found expired is never returned again |
| `SessionHistory.EndedEverywhere` | maskguard/api/auth/session.py:49-275 | nor is it by either real store |
| `SessionHistory.EvictedStaysGone` | maskguard/api/auth/session.py:59-63 | a session the bounded store has lost never comes back |
| `SessionHistory.KeyNeverOutlivesSession` | maskguard/api/auth/session.py:227-235 | minting keeps every Redis key within the absolute lifetime of its session if and only if that lifetime is at least a second |
| `SessionHistory.KeysNeverOutliveSessions` | maskguard/api/auth/session.py:194-275 | throughout a run no Redis key outlives its session if and only if everything the run mints is minted for at least a second |
| `SessionHistory.LookupKeepsKeyBounded` | maskguard/api/auth/session.py:246-254 | a lookup keeps that bound |
| `PendingTransactions.InMemoryPendingTransactionStore.Create` | maskguard/api/auth/session.py:132-145 | exactly as many of the oldest transactions go as there must to make room, and the new one is stored last |
| `PendingTransactions.InMemoryPendingTransactionStore.Consume` | maskguard/api/auth/session.py:147-154 | returns the transaction exactly when it is there and not expired, and removes it in any case |
| `PendingTransactions.RedisPendingTransactionStore.Create` | maskguard/api/auth/session.py:305-323 | the transaction is visible for an hour from its creation and not after, and nothing else changes |
| `PendingTransactions.RedisPendingTransactionStore.Consume` | maskguard/api/auth/session.py:325-336 | the same as in memory, on the keys that have not expired |
| `PendingTransactions.ConsumedAtMostOnce` | maskguard/api/auth/session.py:123-154 | over any run of a store that may lose transactions, none is handed out twice |
| `JobSlots.ConcurrencyLimiter.TryAcquire` | maskguard/api/concurrency.py:41-48 | a slot is given exactly while fewer than the maximum are taken |
| `JobSlots.ConcurrencyLimiter.Release` | maskguard/api/concurrency.py:50-52 | one slot comes back, never below zero |
| `JobSlots.JobRunner.Start` | maskguard/api/routes/_shared.py:35-40 | a slot is taken before the worker starts, or the request is refused and nothing changes |
| `JobSlots.JobRunner.GiveUp` | maskguard/api/routes/_shared.py:47-52 | a timeout ends the wait and keeps the slot |
| `JobSlots.JobRunner.Done` | maskguard/api/routes/_shared.py:42-45 | a finished worker still holds its slot until the release has happened |
| `JobSlots.JobRunner.GiveBack` | maskguard/api/routes/_shared.py:42-43 | the release gives back exactly the slot of that worker |
| `JobSlots.CountIsWorkInFlight` | maskguard/api/routes/_shared.py:21-52 | over any interleaving of requests, timeouts, completions and releases the count is exactly the workers still running or about to give back their slot, never more than the maximum |
| `JobSlots.RefusedExactlyWhenFull` | maskguard/api/routes/_shared.py:35-45 | a request is refused exactly when that many workers are in flight, however many requests have timed out |
| `DetectionMerging.MergeOverlapping` | maskguard/risk/risk_engine.py:80-100 | the loop, updating detections in place, leaves the values and the list of representatives that `RepresentativeOf` characterises |
| `DetectionMerging.MergeNext` | maskguard/risk/risk_engine.py:82-99 | one detection starts a group or joins one |
| `DetectionMerging.Find` | maskguard/risk/risk_engine.py:83-90 | the search finds what `FirstDuplicateIsFirst` says |
| `DetectionMerging.FirstDuplicateIsFirst` | maskguard/risk/risk_engine.py:83-90 | the duplicate is the earliest representative of the same type with an overlapping box, or none exists |
| `DetectionMerging.AbsorbInto` | maskguard/risk/risk_engine.py:94-99 | exactly the one representative is updated |
| `Models.OverlapsExactly` | maskguard/risk/risk_engine.py:53-56 | two nonempty boxes overlap if and only if they share a pixel |
| `DetectionMerging.MergingIndexes` | maskguard/risk/risk_engine.py:80-100 | every input has exactly one representative, and representatives keep the order of the inputs |
| `DetectionMerging.MembersAreOwned` | maskguard/risk/risk_engine.py:80-100 | the groups partition the inputs |
| `DetectionMerging.FoldRepresents` | maskguard/risk/risk_engine.py:94-99 | a group folded together has the greatest confidence of its members, the box and text of the first member that reaches it, the ordered union of their layers, is unknown only if all of them are, and keeps the verdict of its leader |
| `DetectionMerging.MergingKeepsKinds` | maskguard/risk/risk_engine.py:87 | nothing is represented by a detection of another type |
| `DetectionMerging.MergingSettles` | maskguard/risk/risk_engine.py:80-100 | representatives are their groups folded together, everything else is untouched |
| `DetectionMerging.RepresentativeOf` | maskguard/risk/risk_engine.py:80-100 | every input is in the group of its representative, which has its type and represents the group as above |
| `RiskScoring.Score` | maskguard/risk/risk_engine.py:58-78 | merging, then scoring the representatives in place; the rest of the list is as merging left it |
| `RiskScoring.ComputeScore` | maskguard/risk/risk_engine.py:64-74 | the loop over keyword hits computes the risk score |
| `RiskScoring.ScoreOne` | maskguard/risk/risk_engine.py:60-77 | a detection decided by a user rule is untouched, any other gets score and level and nothing else |
| `FindingFates.ScoreExactly` | maskguard/risk/risk_engine.py:59-77 | the score is severity times confidence, at least 0.3, plus 0.2 for each critical and 0.08 for each other keyword hit that shares a row with the box, up to 1, and at least 0.85 for a known finding of one of seven types from a pattern, a label or a rule |
| `FindingFates.BaseScoresExactly` | maskguard/risk/risk_engine.py:17-40 | the severity of every type |
| `FindingFates.ActionExactly` | maskguard/policy/policy_engine.py:36-62 | from the score to the action: user rules keep theirs, uncertain findings that matter are fully masked and flagged, and otherwise the bands from 0.3, 0.6 and 0.8 up decide; nothing but score, level, action and flag changes |
| `FindingFates.CriticalActionExactly` | maskguard/policy/policy_engine.py:22-61 | the action for critical findings: a full mask in strict mode and for every configured name but three, whose case does not matter |
| `FindingFates.LoneFindingFate` | maskguard/pipeline.py:101-103 | what becomes of a finding as its detector reports it, by type, when nothing overlaps it and no keyword is beside it |
| `FindingFates.KeywordRaisesEmail` | maskguard/risk/risk_engine.py:65-77 | one critical keyword beside an address of mail blurs it |
| `RiskScoring.ScoreInUnitInterval` | maskguard/risk/intrinsic_critical.py:52-88 | scores lie in [0, 1], and the intrinsic floor always reaches the critical band |
| `RiskScoring.MoreHitsBoostMore` | maskguard/risk/risk_engine.py:67-69 | boosts are never negative and never shrink when hits are added anywhere in the list |
| `RiskScoring.RaisingNeverLowers` | maskguard/risk/risk_engine.py:64-77 | for a detection that stays where it is, more confidence and more keyword hits never lower the risk level; what happens when the box of a group moves is in `RaisingOnOneGrouping` |
| `RaisedConfidences.GroupRaised` | maskguard/risk/risk_engine.py:94-99 | when confidences are raised and the grouping stays, the value of a group changes in confidence, box and text only, and its confidence does not fall |
| `RaisedConfidences.RaisingOnOneGrouping` | maskguard/risk/risk_engine.py:64-99 | when any confidences are raised and the grouping stays, the risk level of a group never falls under any keyword hits if and only if a user rule decides it, its box was empty, every line of its old box is one of its new box, or it is critical without keywords, by score or by the intrinsic floor |
| `RaisedConfidences.NeverLowerExactly` | maskguard/risk/risk_engine.py:64-77 | the same for any two values of one group |
| `RaisedConfidences.RaisingCanLower` | maskguard/risk/risk_engine.py:67-97 | an input for which it falls: surer of the second of two overlapping names, the engine moves the group off the line of a keyword, and the finding is no longer redacted |
| `MergedPlaces.UnbeatenKeepsBox` | maskguard/risk/risk_engine.py:94-97 | a group whose leader no member beats in confidence keeps the box of its leader |
| `MergedPlaces.GroupKeepsPlaces` | maskguard/risk/risk_engine.py:80-100 | every member of a group is in the place of the group or overlaps it, unless the third or a later member is more confident than all before it |
| `MergedPlaces.EveryPlaceKept` | maskguard/risk/risk_engine.py:80-100 | so is every finding of a list in which none is more confident than two earlier ones of its type |
| `MergedPlaces.ChainLosesPlace` | maskguard/risk/risk_engine.py:94-97 | whenever one is, there are places for the findings in which one of the two is neither in the place of its group nor overlaps it |
| `MergedPlaces.PlacesKeptExactly` | maskguard/risk/risk_engine.py:80-100 | for given types and confidences, every finding is in the place of its group or overlaps it, wherever the findings are, if and only if none is more confident than two earlier ones of its type |
| `PolicyDecisions.Decide` | maskguard/policy/policy_engine.py:36-61 | the loop decides the listed detections in place and returns those left with an action |
| `PolicyDecisions.DecideOne` | maskguard/policy/policy_engine.py:37-57 | exactly the one detection is decided; user rules keep their own action |
| `PolicyDecisions.ScoreAndDecide` | maskguard/pipeline.py:101-102 | risk engine and policy engine one after the other: the outcome that `FailSafe` and `LeftUnredactedExactly` speak about |
| `PolicyDecisions.GroupLayers` | maskguard/risk/risk_engine.py:98 | the layers of a group are exactly those of its members |
| `PolicyDecisions.EvidenceKept` | maskguard/risk/intrinsic_critical.py:67-78 | merging the findings of the detectors keeps the invariant that one that is not unknown has a regex, context or user-rule layer |
| `PolicyDecisions.RulesStayApart` | maskguard/policy/policy_engine.py:38-39 | a merged finding counts as decided by a user rule exactly when it is of a user-rule type |
| `PolicyDecisions.ConfidencesNeverRise` | maskguard/pipeline.py:180-209 | on a list as the pipeline collects it, detector by detector and each with its own confidence, confidences never rise within a type |
| `PolicyDecisions.CollectedKeepPlaces` | maskguard/pipeline.py:180-209 | so on every such list each finding is in the place of its group or overlaps it |
| `PolicyDecisions.FailSafe` | maskguard/policy/policy_engine.py:29-61 | whatever the detectors report, in any order, with any confidences and keyword hits, every finding of an intrinsically critical type is represented by a redacted one of its type: fully masked and flagged when it is unknown, otherwise with the action for critical findings |
| `PolicyDecisions.AlwaysMaskedExactly` | maskguard/policy/policy_engine.py:50-57 | every such finding of every list ends under a full mask if and only if strict mode is on or the configured action comes to a full mask |
| `PolicyDecisions.LeftUnredactedExactly` | maskguard/policy/policy_engine.py:37-61 | a finding is left unredacted exactly when no user rule decided it, it is not an unknown of a fail-safe type, and its score is below 0.30 |
| `PolicyDecisions.RiskNeverWeakensExactly` | maskguard/policy/policy_engine.py:11-24 | a higher risk level never gets a weaker action if and only if strict mode is on or critical findings are not configured to be masked only in part |
| `ReviewService.ProcessReview` | maskguard/api/review_service.py:126-252 | the whole of it up to the end of the pipeline: which refusal comes first, what is kept, what is added, with which identifiers |
| `ReviewService.ResolveItems` | maskguard/api/review_service.py:148-167 | the decisions and manual items, or the first item that is refused and why |
| `ReviewService.RebuildKept` | maskguard/api/review_service.py:170-213 | the kept detections, their identifiers, and whether a critical one was rejected |
| `ReviewService.ResolveManual` | maskguard/api/review_service.py:215-241 | the additions that are not redundant, or the first that is refused and why |
| `ReviewService.DecideManual` | maskguard/api/review_service.py:243-249 | scoring and deciding the additions in place; the list returned by the risk engine is not used |
| `ReviewService.PickLeft` | maskguard/api/review_service.py:249-252 | the detections left and the identifiers beside them |
| `ReviewProperties.AcceptedExactly` | maskguard/api/review_service.py:140-223 | a submission is processed if and only if it is for this image and every item in it is acceptable, wherever it stands |
| `ReviewProperties.ProcessedExactly` | maskguard/api/review_service.py:95-221 | a submission is processed if and only if it is for this image and every item gives a verdict on a detection of the token, with a reason that is not too long, or is a manual addition of one of eleven types with a box within the image, neither empty nor too small nor too large |
| `ReviewProperties.RefusalExactly` | maskguard/api/review_service.py:95-221 | which of the four refusals it is: the first item that is not well formed decides, else the first manual one that is not well drawn |
| `ReviewProperties.FirstIsFirst` | maskguard/api/review_service.py:148-223 | the refusal reported is that of the first item that has one |
| `ReviewProperties.BoxAcceptedExactly` | maskguard/api/review_service.py:95-123 | a box is accepted if and only if it is a nonempty part of the image, neither too small nor too large; the guard on an empty image never matters |
| `Models.ContainsExactly` | maskguard/api/review_service.py:110-113 | a nonempty box lies within another if and only if all its pixels do |
| `ReviewProperties.AcceptedBoxIsDrawn` | maskguard/api/review_service.py:95-123 | an accepted manual item has a reviewable type and a nonempty box inside the image |
| `ReviewProperties.LastDecisionCounts` | maskguard/api/review_service.py:148-162 | the last decision about a detection is the one that counts |
| `ReviewProperties.KeptExactly` | maskguard/api/review_service.py:174-213 | the kept list is the token's list in order without exactly the detections that are rejected last and not intrinsically critical; type, box, level, action and confidence are the token's; the review flag follows the decision; identifiers stay beside their detections |
| `ReviewProperties.DroppedExactly` | maskguard/api/review_service.py:176-183 | a detection of the token is left out if and only if the last verdict on it rejects it and it is not of one of seven types |
| `ReviewProperties.CriticalRejectedExactly` | maskguard/api/review_service.py:186-191 | a human is asked for if and only if the last verdict on a detection of those types rejects it |
| `ReviewProperties.RedundantOrAdded` | maskguard/api/review_service.py:226-240 | every accepted manual box overlaps a kept detection of its type or becomes an addition |
| `ReviewProperties.GroupsApart` | maskguard/risk/risk_engine.py:80-100 | groups of additions of one type do not overlap |
| `ReviewProperties.FateOfAddition` | maskguard/api/review_service.py:246-247 | the leader of each group of additions is redacted as its type demands, all others are dropped |
| `ReviewProperties.EveryBoxCovered` | maskguard/api/review_service.py:215-251 | every box a reviewer drew overlaps a final detection of its type |
| `ReviewProperties.MaskedAsDrawnExactly` | maskguard/api/review_service.py:226-251 | a drawn box is the box of a final manual detection if and only if it was added and meets no leading addition of its type before it |
| `ReviewProperties.LeadersExactly` | maskguard/risk/risk_engine.py:80-100 | the groups of additions are led by those that one pass over the additions picks |
| `ReviewProperties.WhollyCoveredExactly` | maskguard/api/review_service.py:215-251 | all of a drawn box lies in a final detection of its type if and only if all of it lies in a kept one, or in an addition of that type that meets no leading addition before it |
| `ReviewProperties.OnePixelIsRedundant` | maskguard/api/review_service.py:226-228 | a drawn box that meets a kept one of its type in a single pixel is dropped, though the kept box does not cover it |
| `ReviewProperties.ManualExactly` | maskguard/api/review_service.py:243-252 | final manual detections are redacted as their type demands, each stands beside the identifier drawn for the addition it came from, and none overlaps another, or a kept one, of its type |
| `ReviewProperties.IdentifiersDistinct` | maskguard/api/review_service.py:238-249 | the identifiers of the final list, kept and manual together, are distinct when the token repeats none and new ones are fresh |
| `ReviewCompletion.CompleteReview` | maskguard/api/review_service.py:251-261 | the end of the pipeline on the final list, and the fix-up after it |
| `ReviewCompletion.CriticalRejectionNeedsHuman` | maskguard/api/review_service.py:184-189 | rejecting a critical finding never removes it: it is kept with its own box and action, is flagged, and the outcome asks for a human |
| `ReviewCompletion.ReviewRendersDecisions` | maskguard/api/review_service.py:251-261 | the image a review releases shows exactly the kept and manual detections as decided; verification has no text to look for, so it escalates nothing and fails only when it is allowed no attempt or the scan sees a critical type |
| `ResidualText.SeparatorsInvisible` | maskguard/verification/normalization.py:37-47 | separators of any length anywhere in a value change nothing |
| `ResidualText.NormalIdempotent` | maskguard/verification/normalization.py:37-47 | normalising twice changes nothing |
| `ResidualText.NormalKeepsExactly` | maskguard/verification/normalization.py:34-52 | normalising keeps, in order and as often as they occur, exactly the characters that are not white space nor, for four types, a hyphen, dot or slash |
| `ResidualText.ValueStays` | maskguard/verification/normalization.py:34-52 | so a value with a letter or a digit never becomes empty |
| `ResidualText.AssessedExactly` | maskguard/verification/verification_engine.py:120-150 | when the verdict on a crop is found, unknown and clean |
| `ResidualText.StripExactly` | maskguard/verification/verification_engine.py:93 | stripping takes white space off both ends and nothing else |
| `ResidualText.StripInvisible` | maskguard/verification/verification_engine.py:94 | stripping the value first changes nothing |
| `ResidualText.TokenisationInvisible` | maskguard/verification/verification_engine.py:121 | how the text was cut into tokens cannot be seen after normalisation |
| `ResidualText.ContainedExactlyWhenRespelled` | maskguard/verification/verification_engine.py:126-129 | the check on normal forms finds a value if and only if some stretch of the text, whatever blanks are in it, spells it |
| `ResidualText.ReadableExactly` | maskguard/verification/verification_engine.py:121-129 | hence a value is found in a crop if and only if a stretch of the recognised text spells it |
| `ResidualText.NothingSpellsIt` | maskguard/verification/verification_engine.py:120-150 | a crop without a finding: no stretch of its text and no run of its tokens spells the value, and nothing of the type is detected again |
| `Redaction.Apply` | maskguard/redaction/redaction_engine.py:13-28 | the given image stays beneath, with one stroke for each detection that has an action, in order |
| `Redaction.PaintedExactly` | maskguard/redaction/redaction_engine.py:13-28 | what is painted over the image: each detection with an action once, in order, with its action, over its box |
| `Redaction.Escalate` | maskguard/redaction/redaction_engine.py:30-47 | exactly the one detection changes: next method on the ladder, wider box |
| `Redaction.ClimbedAction` | maskguard/redaction/redaction_engine.py:33-38 | after k escalations the method is k rungs up or a full mask; three always give a full mask |
| `Redaction.ClimbedBox` | maskguard/redaction/redaction_engine.py:40-47 | where the box is after k escalations |
| `Redaction.ClimbedRest` | maskguard/redaction/redaction_engine.py:30-47 | nothing but method and box is touched |
| `Redaction.CoverGrows` | maskguard/redaction/redaction_engine.py:40-47 | the part of the image that a detection covers only ever grows, for any box |
| `Redaction.StrokeShown` | maskguard/redaction/redaction_engine.py:13-28 | every detection with an action has its stroke in the rendered image |
| `Verification.CheckOne` | maskguard/verification/verification_engine.py:94-110 | a detection whose text is too short or whose place is outside the image is clean without being read; otherwise the crop decides |
| `Verification.CropExactly` | maskguard/verification/verification_engine.py:97-104 | the part read again is exactly what lies in the image within the padding of the box |
| `Verification.ShownIsChecked` | maskguard/verification/verification_engine.py:94-106 | a value is looked at whenever any of its place shows in the image, exactly if it has three characters |
| `Verification.ResidualExactly` | maskguard/verification/verification_engine.py:89-150 | a detection counts as still readable if and only if its value has three characters and shows, and the crop spells it or has its type again, or, for a critical one, was read with a mean confidence below 0.35; only in that last case it is flagged |
| `Verification.FindResidual` | maskguard/verification/verification_engine.py:89-118 | exactly the detections that were found, or are critical and in doubt, are returned; exactly the doubtful ones are flagged |
| `Verification.VerifyAndFix` | maskguard/verification/verification_engine.py:59-87 | the loop computes the run that the next lemmas speak about, for any number of retries |
| `Verification.EscalateAll` | maskguard/verification/verification_engine.py:82-83 | exactly the residual detections are escalated, once each |
| `Verification.ReportFailure` | maskguard/verification/verification_engine.py:72-80 | the count, the types and the request for a human of a failed run |
| `VerificationRuns.RunExactly` | maskguard/verification/verification_engine.py:67-84 | against any text recogniser, a run with at least one attempt is its attempts up to the first that finds nothing, or the last |
| `VerificationRuns.PassedExactly` | maskguard/verification/verification_engine.py:67-70 | a run passes if and only if one of its attempts finds nothing, and reports the first |
| `VerificationRuns.FailedExactly` | maskguard/verification/verification_engine.py:72-87 | a run that fails with a retry allowed has used exactly that many attempts and names what is left, which is something; with none allowed it fails with a count of -1 |
| `VerificationRuns.RendersFinalDetections` | maskguard/verification/verification_engine.py:65-84 | pass or fail, the image returned is the original with the final detections painted over it once |
| `VerificationRuns.PassedHasNoResidual` | maskguard/verification/verification_engine.py:67-70 | after a pass no detection is residual in the image returned |
| `VerificationRuns.PassedHidesValues` | maskguard/verification/verification_engine.py:59-150 | a pass, against any text recogniser: in the image returned no checkable value can be spelled from what was read in its place, under any tokenisation or separators, and a critical one was read with confidence of at least 0.35 or not at all |
| `VerificationRuns.LegibleNeverPasses` | maskguard/verification/verification_engine.py:59-87 | a value with a letter or digit that shows in the image and is read in its place at every attempt never passes |
| `VerificationRuns.FinalDetection` | maskguard/verification/verification_engine.py:82-84 | a run escalates a detection once for each earlier attempt that could read it, and changes nothing else but the review flag |
| `VerificationRuns.EscalationOnlyStrengthens` | maskguard/redaction/redaction_engine.py:30-47 | so its method is that many rungs up the ladder and never weaker, the part of the image it covers only grows, and one that was never residual keeps method and box |
| `PipelineTail.SanityOnlyWorsens` | maskguard/verification/whole_image_sanity.py:102-128 | the scan never turns a failure into a pass; a pass survives exactly when no critical type was seen; a request for a human is never withdrawn |
| `PipelineTail.ScannedExactly` | maskguard/verification/whole_image_sanity.py:60-97 | the scan looks for nine types, seven of which fail a verdict |
| `PipelineTail.RedactVerifyAndFinalize` | maskguard/pipeline.py:137-164 | verification or plain rendering, the scan, and the decision to write the image |
| `PipelineTail.WithheldExactly` | maskguard/pipeline.py:155-164 | strict mode withholds the image if and only if verification failed or the scan saw a critical type; what is written is the original with the final detections painted over it |
| `PipelineTail.StrictReleaseIsClean` | maskguard/pipeline.py:137-164 | an image written in strict mode after verification: the scan saw no critical type in it and no checkable value can be spelled from the last reading of that very image |
| `PipelineTail.NothingToLookFor` | maskguard/verification/verification_engine.py:94-96 | detections without a text of three characters pass at the first attempt, unchanged |
| `Processing.Process` | maskguard/pipeline.py:101-178 | scoring, deciding, selecting what is left, and the end of the pipeline on it, as one step from findings to release |
| `Processing.Choose` | maskguard/policy/policy_engine.py:61 | the detections left, in order |
| `Processing.MaskSurvives` | maskguard/verification/verification_engine.py:59-87 | verification, with whatever the recogniser answers, leaves a full mask a full mask of its type, never uncovers a pixel of it, and has it painted in the image returned |
| `Processing.CriticalFindingsStayMasked` | maskguard/pipeline.py:101-164 | from findings to the image: when the policy asks for full masks, every intrinsically critical finding of the detectors is represented in the image by the stroke of a full mask of its type over at least the box of its group, for every recogniser and every number of retries; on a list as the pipeline collects it the finding is in the place of that box or overlaps it |
| `Processing.CollectedFindingsAreMet` | maskguard/pipeline.py:101-164 | every critical finding that lies in the image, on a list as the pipeline collects it, shares a pixel with a full mask of its own type that is painted there; when it is all covered says `CollectedWhollyMaskedExactly` |
| `Processing.PixelMaskedExactly` | maskguard/verification/verification_engine.py:59-87 | a pixel is under a full mask in the end, for every recogniser and every configuration of verification, if and only if one of the detections handed to redaction masks it fully from the start |
| `Processing.WhollyMaskedExactly` | maskguard/pipeline.py:101-164 | when the policy asks for full masks, the final mask that represents a critical finding of the detectors covers all that the finding covers of the image, for every recogniser and configuration, if and only if the box of its group does |
| `Processing.CollectedWhollyMaskedExactly` | maskguard/pipeline.py:101-209 | on a list as the pipeline collects it, if and only if the box of the first finding of its group does |
| `Processing.TouchingLinesLoseText` | maskguard/risk/risk_engine.py:79-100 | two bank account numbers on touching lines are collected, merged and redacted as one: of the second only the shared row of pixels is masked, and its text is not among those that verification looks for, whatever the configuration |

## Left out

- Matching.MatchDetections: recall, precision, mean score, error rates and the quality bands of scores are left out; they are quotients and thresholds of what is modelled.
- RateLimiting.RateLimiter.Check: the clock is an input, read where the lock is taken; the source reads it just before.
- RateLimitRuns.FixedWindow: each key keeps one policy over a run, as the configuration gives it.
- RedisRateLimiting.RedisRateLimiter.Check: a counter is found under the pair of key and window start; the source joins them with a colon. An expired counter is dropped when it is next used.
- LineFirstFit.SideBySideShare: the condition is enough but not needed; whether two given tokens share a line is told exactly by `GroupedByFirstFit`.
- LineIndexing.MergedIsLeast: merging no boxes has no result here; the source raises.
- ContextNormalization.NormalizeForContext: the source finds segments with a regular expression; the model scans for the same runs of non-space characters.
- AuditChain.AuditStore.Append: rows are a sequence; SQLite, its transactions and the unavailability errors are left out, and so are queries, paging and the sanitiser.
- AuditChain.SharedHead: the keyed hash is a parameter of the previous hash and the event, assumed injective; canonical JSON, and how the source joins it to the previous hash, are part of that assumption. Timestamps are compared as numbers.
- ReviewTokens.ReviewTokenIssuer.VerifyAndConsume: HMAC (RFC 2104), base64 and JSON are parameters; distinct bodies are assumed to have distinct signatures without a dot, and what is said about an issued token assumes that its own payload reads back as it was written; a token with characters outside ASCII, on which encoding raises, is left out, and so is a failing Redis.
- Sessions.RedisSessionStore.Get: the commands of one operation happen at one instant; interleavings of several clients inside one `get` or `rotate`, unreadable stored values and a failing Redis are left out.
- Sessions.InMemorySessionStore.constructor: a capacity of at least one is required, here and of the store of pending logins; with less the source raises on the first login.
- SessionRuns.RedisRefinesIdeal: new ids are inputs that no earlier step mentions; the source draws them at random.
- JobSlots.CountIsWorkInFlight: `run_with_timeout` is cut where the event loop may switch, into the methods of `JobRunner`, in any interleaving; the event loop itself is left out.
- DetectionMerging.MergeOverlapping: one detection object twice in a list is left out: indices of an array are distinct.
- RiskScoring.ComputeScore: scores, confidences and thresholds are real numbers; rounding of floating-point numbers is left out. Type names and source layers are enumerations with a case for names that no table lists.
- PolicyDecisions.FailSafe: which texts the detectors report is arbitrary; that they build findings as `ByDetector` and `Collected` say was read off their code. Canonicalisation of type names, which comes before, and the original type it keeps are left out.
- ReviewService.ProcessReview: the log of review events is left out, and so are fields of a request that its schema has already refused.
- Redaction.Apply: an image is its size and the strokes painted over it; pixels, and what a blur or a partial mask leaves visible of them, are left out.
- Verification.VerifyAndFix: the text recogniser is an arbitrary function of attempt, detection, image and place, and the pattern detector an arbitrary function of tokens.
- Verification.ReportFailure: the residual types are a set, without the order and repetitions of the list in the source.
- Processing.CollectedFindingsAreMet: promises a shared pixel and no more, because more is not true of the code; `CollectedWhollyMaskedExactly` says when all of the finding is masked.
- SessionKeyLife.MissedAtTheEdges: all lookups of a run have one idle timeout, as the configuration gives it; `RedisMissesExactly` does not need that.
- PipelineTail.RedactVerifyAndFinalize: metadata stripping, saving, reports and the processing log are left out; deskewing before the scan is part of the arbitrary scan.
- Regular expressions, keyword tables, name and entropy heuristics: tables of data, or matching by an engine.
- FastAPI routes, middleware, cookies, OIDC and the React frontend: wrappers around libraries.
- Configuration, role maps, reports, command line and benchmark data: single branches that would only add easy members.
