# AITP interop peer, verifiers and API gates: a verified model

This project models the stateful parts of the AITP Rust workspace and proves what they are for.
`dafny verify dfyconfig.toml` checks everything.

## What is modelled

**The interop peer** (`crates/aitp-cli`). `EnrolledKeys` is the pinned-key store: a bounded map beside a
recency queue that is cleaned lazily. `Recency` reads off the intended list (keys by last enrolment) and every
operation is proved against it. `NonceStore` is the in-memory challenge store, sharded, with its expiry heaps,
its capacity counter and its retry hint; `NonceRaces` is the same store as a machine of atomic steps taken by
any number of threads, hosts that call the public `sweep` among them, and `NonceAlone` ties the two together. `Enrolment` and `Echo` are the two challenge protocols over that store, with opposite
consume orders, and `EnrolmentRuns` and `EchoRuns` state what they guarantee over all runs with several peers,
clients and forgers. `CappedBody` reads request bodies.

**Trust-context tokens.** `TctVerify` follows the verifier check by check, errors included; `TctCache` is the bindings' FIFO
verification cache, compared with plain verification over all histories of calls, deny lists and clocks.

**Identity.** `Aids` is the agent-identifier grammar, `KeyTexts` what identifiers encode; `Spiffe` the canonical
SPIFFE ID, the bundle and the bundle store (section 6 of RFC-AITP-0002); `AgentCard` the A2A Agent Card binding (section 4.2 of RFC-AITP-0014).

**The gates.** `SinglePath` (union-find over public paths), `Classification`, `ClassificationOrder` and
`ClassificationShown` (a walk over a cyclic module graph, and the table made from it), `PathScanner` and `BreakGate`
(bracket scanners and the break detector of the public-API snapshots), `StableDeps` (a worklist closure), `CodeMasks` and `DocAnchors`
(Markdown code masking, fences and heading anchors). `Ordering` holds sorting, `Basics` what everything shares.

## What is assumed

- SHA-256, cut to sixteen bytes for echo slots, does not collide: a digest is its input (`Signatures`, `Echo`).
  A signature verifies only for the key and digest it was made with; a forger can use any signature made so far.
- The nonce a peer draws is a parameter; two draws may coincide, and the store then refuses the second.
- JSON, base64url, UUID and certificate decoding are done; what a decoder found is a field of the input.
- `clock` values are parameters, one per reading, and may go back unless a lemma says otherwise.
- Regular expressions have matched: snapshot and Markdown lines carry their parsed parts. The scanners written
  by hand are modelled on characters.

## Where the code departs from its comments

- `EnrolledKeys` (serve.rs:812-855): with an AID enrolled twice with one expiry, "oldest evicted first" fails in
  exactly the states `Overtaken` describes (`InsertIsLeastRecentlyEnrolled`), the queue can outgrow every bound
  (`OutgrowsExactlyWhen`, `RepeatsGrowTheQueue`), and a new key can evict itself (`LosesTheNewKeyExactlyWhen`,
  `RepeatEvictsTheNewKey`). The store never checks this; the lemmas about fresh runs carry the precondition.
- `next_expiry` (nonce_store.rs:213-214, 286) is called a lower bound; it fails in exactly the runs where a sweep's
  store is overtaken by a record written, and lowered to, after the sweep passed its shard
  (`NonceRaces.BoundHoldsExactlyWhen`; `SweepCanOverrunTheBound` is such a run). Used by one thread it never does
  (`InMemoryNonceStore.Issue`). It is not raised when the record it came from goes, so a hint can be early; exactly
  when is `HintIsCurrentExactlyWhen`, and `ConsumingForgetsDates` is an input.
- verifier.rs:386-389 leaves a payload that is not JSON to the signature check; verifier.rs:394 refuses it there and
  then as malformed claims, unless only what follows its first value is not JSON (`TctReports`).
- A cache hit does not look at `iat` (tct.rs:380-399), which shows only when the clock goes back
  (`CachedIsPlainExactlyWhen`, `ClockSetBackShows`).
- The cached and the plain entry point read their arguments in different orders and so report different errors
  when both kinds are bad (`EntryPointsAgreeExactlyWhen`).
- check-single-path.py:80-89 calls types that each have members the other lacks distinct; one path that bridges
  them joins them (`ItemsAreRelatedExactlyWhen`, `BarePathJoinsTwoTypes`).
- api-classification.py:90 records a type a glob re-exports even where an explicit item of its name hides it, so
  two types can prefer one path and the order of items can decide the row (`OrderIsIrrelevantExactlyWhen`,
  `ClashMakesOrderMatter`).
- public-api.py:63-112 counts the `>` of an arrow as a closing bracket, in all four scanners
  (`ReadsThePathExactlyWhen`, `PassedOverExactlyWhen`, `SkipsGenericsExactlyWhen`, `FindsForExactlyWhen`;
  `ArrowsCutThePath` is an input), and what an impl line is filed under suffers from an arrow in any of its groups
  (`GenericsAreHarmlessExactlyWhen`, `TraitGroupIsHarmlessExactlyWhen`, `SubjectGroupIsHarmlessExactlyWhen`).
- public-api.py:207 takes an added member for a changed one when the base has any line at its path. The gate then
  passes an incompatible change (`PassesExactlyWhen` and `IsCompatibleExactlyWhen` say exactly when), and two
  changes that pass can make one that does not (`PassesComposeExactlyWhen`); `MethodHidesAddedField` is an input.
- check-docs.py:165-168 stops masking at an opening run of ticks nothing closes, so later code spans on the line
  stay (`MasksEverySpanExactlyWhen`, `UnclosedRunEndsMasking`).
- check-docs.py:165 closes a run of ticks inside a longer one, which section 6.1 of CommonMark does not, and
  check-docs.py:157-174 knows no backslash escapes (section 2.4), so what is masked can differ from the code spans
  (`SeesMarkdownSpansExactlyWhen`, `LongerRunIsMisread`, `EscapedTickIsMisread`).
- spiffe.rs:95-96 asks for a `kid` unique among a bundle's `jwt-svid` keys; keys of an unsupported type are not
  remembered, so the order of keys can decide (`OrderDecidesExactlyWhen`, `RepeatedKidDependsOnOrder`).

## Model

| member | source | states |
|---|---|---|
| EnrolledKeys.Store.Insert | crates/aitp-cli/src/serve.rs:836-855 | the whole new state; when the mark is not already queued, the recency list moves the key to its end and drops exactly its head over the cap, the key is trusted and the queue holds distinct marks, at most twice the cap |
| EnrolledKeys.Store.Len | crates/aitp-cli/src/serve.rs:857-861 | the recency list loses exactly its expired keys, the queue keeps its marks, the count is the list's length |
| EnrolledKeys.Store.IsTrusted | crates/aitp-cli/src/serve.rs:865-870 | true exactly when the list holds this very key unexpired |
| EnrolledKeys.Store.constructor | crates/aitp-cli/src/serve.rs:829-834 | an empty store whose cap is at least one |
| EnrolledKeys.PushMovesToEnd | crates/aitp-cli/src/serve.rs:839-840 | recording an enrolment moves its key to the end of the intended list |
| EnrolledKeys.EvictionDropsTheVictim | crates/aitp-cli/src/serve.rs:841-849 | one key over the cap, the loop removes exactly the key of the first unsuperseded mark, nothing else, and never runs out of marks |
| EnrolledKeys.RetainKeepsRecency | crates/aitp-cli/src/serve.rs:850-854 | compaction changes neither the list nor the invariant |
| EnrolledKeys.InsertDropsTheVictim | crates/aitp-cli/src/serve.rs:836-855 | for any expiries at all: the invariant, the key bound and the list after an enrolment |
| EnrolledKeys.VictimIsOldest | crates/aitp-cli/src/serve.rs:841-849 | the evicted key is the least recently enrolled exactly when no repeated mark overtakes another key's last one |
| EnrolledKeys.InsertIsLeastRecentlyEnrolled | crates/aitp-cli/src/serve.rs:812-855 | the exact condition under which an enrolment evicts the least recently enrolled key |
| EnrolledKeys.FreshInsertRefinesRecency | crates/aitp-cli/src/serve.rs:836-855 | without a repeated mark: refinement of the recency list, the new key kept, both bounds, distinct marks |
| EnrolledKeys.PruneRefinesUnexpired | crates/aitp-cli/src/serve.rs:857-861 | pruning is dropping the expired from the list and keeps the invariant |
| EnrolledKeys.EvictsTheSoonestToExpire | crates/aitp-cli/src/serve.rs:841-849 | with repeats but expiries that do not go back, what is evicted expires no later than anything that stays |
| EnrolledKeys.OutgrowsExactlyWhen | crates/aitp-cli/src/serve.rs:850-854 | the queue outgrows twice the cap exactly when more than that many queued marks carry the current expiry of a key that stays |
| EnrolledKeys.LosesTheNewKeyExactlyWhen | crates/aitp-cli/src/serve.rs:841-849 | an enrolment loses its own key exactly when the store is full without it and an earlier mark like its own is the first the loop acts on |
| EnrolledKeysRuns.RunTracked | crates/aitp-cli/src/serve.rs:828-862 | every reachable state keeps the invariant and the key bound |
| EnrolledKeysRuns.FreshRunBounded | crates/aitp-cli/src/serve.rs:850-854 | a run that repeats no mark never queues one twice nor exceeds twice the cap |
| EnrolledKeysRuns.EnrolmentsKeepTheLastCap | crates/aitp-cli/src/serve.rs:812-855 | a fresh run of enrolments leaves exactly the last `cap` distinct keys enrolled, in order |
| EnrolledKeysRuns.RunIsASublist | crates/aitp-cli/src/serve.rs:836-861 | with status calls mixed in, what is left is an ordered part of the history |
| EnrolledKeysRuns.StatusKeepsTheUnexpired | crates/aitp-cli/src/serve.rs:836-861 | every unexpired key among the last `cap` enrolled is still held |
| EnrolledKeysRuns.StatusNeverUntrusts | crates/aitp-cli/src/serve.rs:836-870 | two runs: adding status calls never makes a key untrusted that the run without them trusts |
| EnrolledKeysRuns.DistinctEnrolmentsAreFresh | crates/aitp-cli/src/serve.rs:524-526 | enrolling no AID twice with one expiry is enough for a run to be fresh |
| EnrolledKeysRuns.RepeatsGrowTheQueue | crates/aitp-cli/src/serve.rs:850-854 | runs that meet that condition: repeated enrolments with one expiry grow the queue past any bound |
| EnrolledKeysRuns.RepeatEvictsTheNewKey | crates/aitp-cli/src/serve.rs:841-849 | a run that meets that condition: an enrolment evicts its own new key |
| NonceStore.Purge | crates/aitp/src/core/nonce_store.rs:165-178 | exactly the live records stay, each removal is counted, no due heap entry is left |
| NonceStore.CompactedFacts | crates/aitp/src/core/nonce_store.rs:180-188 | compaction keeps every record covered and bounds the heap by twice the records plus 64; below that it changes nothing, above it drops every stale entry |
| NonceStore.Earliest | crates/aitp/src/core/nonce_store.rs:192-194 | never later than any record's expiry, whatever stale entries the heap holds |
| NonceStore.RetryAfterIsSafe | crates/aitp/src/core/nonce_store.rs:331-338 | drawn from a true lower bound, the hint is never later than the first second after an outstanding record's expiry |
| NonceStore.RetryAfterIsHint | crates/aitp/src/core/nonce_store.rs:331-338 | no hint exactly when no date ever comes; otherwise the wait until the second after the earliest date, at least one second and at most what an `i64` holds |
| NonceStore.HintIsCurrentExactlyWhen | crates/aitp/src/core/nonce_store.rs:213-215 | the hint is the one the dates held now give exactly when the earliest date noted is as early as the earliest held, or no hint could tell them apart |
| NonceStore.HintFreesASlot | crates/aitp/src/core/nonce_store.rs:329-338 | where no heap entry is stale, a held record, the first to expire, frees its slot at the hinted second |
| NonceStore.ConsumingForgetsDates | crates/aitp/src/core/nonce_store.rs:180-188 | an input: consuming the last record of a shard with more than 64 heap entries forgets every date its hint was drawn from |
| NonceStore.InMemoryNonceStore.Sweep | crates/aitp/src/core/nonce_store.rs:274-289 | all shards keep exactly the live records, the counter falls by what went, `next_expiry` becomes the earliest date held |
| NonceStore.InMemoryNonceStore.Reserve | crates/aitp/src/core/nonce_store.rs:312-327 | only expired records go; refused only when every slot is taken and no sweep was owed; the hint is the wait for the earliest date held since the last sweep |
| NonceStore.InMemoryNonceStore.Issue | crates/aitp/src/core/nonce_store.rs:340-365 | the records after each outcome; refused for room exactly when live records fill the store; the hint is the wait for the earliest date held now if the call has swept, otherwise held since the last sweep |
| NonceStore.InMemoryNonceStore.Consume | crates/aitp/src/core/nonce_store.rs:367-390 | a nonce is consumed once, by its own verifier, in time; another verifier's nonce stays |
| NonceRaces.CapacityHolds | crates/aitp/src/core/nonce_store.rs:274-365 | in every interleaving, direct sweeps included, the records never exceed the capacity and the counter is exact once all threads rest |
| NonceRaces.EachRecordTakenOnce | crates/aitp/src/core/nonce_store.rs:274-390 | in every interleaving, direct sweeps included, each taking has a recording of its own, same verifier and expiry, nothing between |
| NonceRaces.LiveRecordsSurvive | crates/aitp/src/core/nonce_store.rs:165-178 | no thread's step removes a record live at its clock except by taking that nonce |
| NonceRaces.StepKeepsBoundExactlyWhen | crates/aitp/src/core/nonce_store.rs:274-289 | a step loses the lower bound exactly when a sweep stores what it saw after missing a record whose writer has already lowered it |
| NonceRaces.BoundHoldsUnlessTooLate | crates/aitp/src/core/nonce_store.rs:213-215 | so over any run `next_expiry` is a lower bound throughout exactly when no such step is taken |
| NonceRaces.StoresTooLateExactlyWhen | crates/aitp/src/core/nonce_store.rs:274-289 | a sweep is about to do so exactly when, after it passed the shard of some held record, that record was written and its writer lowered the bound |
| NonceRaces.BoundHoldsExactlyWhen | crates/aitp/src/core/nonce_store.rs:213-215 | over any run `next_expiry` is a lower bound throughout exactly when no such write overtakes a sweep before it stores |
| NonceRaces.UndisturbedSweepsKeepTheBound | crates/aitp/src/core/nonce_store.rs:274-289 | when no record is written between a sweep's start and its store it always is, and at rest for every record |
| NonceRaces.SweepCanOverrunTheBound | crates/aitp/src/core/nonce_store.rs:286-287 | a run of two threads in which a sweep stores too late |
| NonceAlone.AloneIssues | crates/aitp/src/core/nonce_store.rs:340-365 | a thread whose steps nobody interrupts issues as the sequential store does: the same step on the records, refused only when they fill the store, the count exact |
| NonceAlone.AloneConsumes | crates/aitp/src/core/nonce_store.rs:367-390 | and consumes as it does |
| NonceAlone.SweepsExactlyWhen | crates/aitp/src/core/nonce_store.rs:310-322 | in every interleaving an issue that finds the store full sweeps exactly when none has begun a sweep at its clock or later |
| Aids.AcceptedForms | crates/aitp/src/core/aid.rs:73-100 | the accepted texts are exactly the three printed forms of a key |
| Aids.CanonicalRoundTrip | crates/aitp/src/core/aid.rs:105-145 | printing a key and reading it back gives the key |
| Aids.SameKeyIsCanonicalEquality | crates/aitp-experimental/src/a2a.rs:377-382 | two AIDs denote one key exactly when their canonical texts are equal |
| Aids.AidsAreNulFree | crates/aitp/src/core/aid.rs:204-232 | no AID holds a NUL or a character outside ASCII |
| KeyTexts.Ed25519IdentifiersAreKeys | crates/aitp/src/core/aid.rs:204-214 | the identifiers of Ed25519 are exactly the unpadded base64url texts of 32 bytes |
| KeyTexts.P256IdentifiersAreKeys | crates/aitp/src/core/aid.rs:216-232 | those of P-256 exactly the texts of 33 bytes of which the first is 2 or 3 |
| KeyTexts.EncodedIsDecoded | crates/aitp/src/core/aid.rs:105-145 | the text gives the bytes back |
| KeyTexts.TaggedReports | crates/aitp/src/core/aid.rs:73-80 | after a known tag the identifier is refused for its length, then as no key's text |
| KeyTexts.UntaggedReports | crates/aitp/src/core/aid.rs:81-91 | without a tag likewise, as Ed25519's |
| KeyTexts.UnknownTagReports | crates/aitp/src/core/aid.rs:84-88 | another tag is named in the refusal |
| KeyTexts.OtherMethodReports | crates/aitp/src/core/aid.rs:93-99 | so is another method; without `aid:` the scheme is missing |
| Signatures.FieldEndsAtNul | crates/aitp-cli/src/enrol.rs:112-122 | a NUL ends a NUL-free field, so both sides can be read back |
| Enrolment.SigningDigestInjective | crates/aitp-cli/src/enrol.rs:112-122 | one digest, one client, one peer, one challenge |
| Enrolment.ParseEnroll | crates/aitp-cli/src/enrol.rs:95-109 | a parsed request is the body's own AID, nonce and signature, and its key is the one that AID denotes |
| Enrolment.ParseReports | crates/aitp-cli/src/enrol.rs:95-109 | a body is refused for the first of its members that does not decode |
| Enrolment.EnrollReports | crates/aitp-cli/src/serve.rs:478-534 | the outcome from the body and the records alone: decoding, then the signature over domain, client, peer and nonce, then the challenge |
| Enrolment.Peer.EnrollChallenge | crates/aitp-cli/src/serve.rs:426-476 | issues a record for this peer with a minute's life and touches no enrolment |
| Enrolment.Peer.Enroll | crates/aitp-cli/src/serve.rs:478-534 | a bad body or signature changes nothing; otherwise the nonce is consumed and, only if it was good, the key enrolled |
| EnrolmentRuns.NoncesStayBacked | crates/aitp-cli/src/serve.rs:426-534 | every outstanding nonce was issued by that peer, for that peer, and not used since |
| EnrolmentRuns.EnrolmentIsAuthentic | crates/aitp-cli/src/serve.rs:478-534 | each enrolment used an unexpired challenge of its own peer and a signature its key's holder made for that peer and challenge, even where keys sign enrolments that name other keys' AIDs |
| EnrolmentRuns.ChallengesAreSingleUse | crates/aitp-cli/src/serve.rs:503-523 | two enrolments never answer one challenge |
| EnrolmentRuns.TrustedKeysWereEnrolled | crates/aitp-cli/src/serve.rs:864-871 | every key a peer holds came from an authentic enrolment there |
| EnrolmentRuns.HonestAnswerAccepted | crates/aitp-cli/src/serve.rs:493-502 | however many forged, malformed or foreign requests come first, an honest in-time answer is accepted |
| TctVerify.AcceptsExactly | crates/aitp/src/tct/verifier.rs:324-472 | accepted exactly when genuine, of the expected issuer and audience, in date and not revoked |
| TctVerify.RevocationIsLast | crates/aitp/src/tct/verifier.rs:324-366 | a token that fails anything else reports that, whatever its revocation status |
| TctVerify.TctReports | crates/aitp/src/tct/verifier.rs:277-472 | a token is refused for the first rule it breaks, in the order of section 7.2 of RFC-AITP-0005, each rule with its own error; otherwise its claims are returned |
| TctVerify.NarrowedKeeps | crates/aitp/src/tct/revocation.rs:457-490 | a safe subset leaves exactly the safe grants, as often as they are granted |
| TctVerify.NarrowedKeepsOrder | crates/aitp/src/tct/revocation.rs:457-490 | and in order |
| TctCache.EntriesAreSupplied | bindings/aitp-py/src/helpers.rs:79-88 | the parsed deny list holds exactly the entries supplied, and one that is not a UUID refuses the list |
| TctCache.StatusIsAsSupplied | bindings/aitp-py/src/helpers.rs:116-160 | from the caller's own list and mode: a bad mode, then a bad entry; otherwise revoked exactly when listed, unavailable exactly with no list and no `fail_open` |
| TctCache.StoredWellKept | bindings/aitp-py/src/tct.rs:291-304 | order without repeats and with exactly the keys held, within the bound; a present key keeps its place, a new one goes last and drops the head when full |
| TctCache.TctStore.Insert | bindings/aitp-py/src/tct.rs:291-304 | the store after an insert is that FIFO step |
| TctCache.TctStore.Clear | bindings/aitp-py/src/tct.rs:274-278 | empties map and order together |
| TctCache.TctStore.Get | bindings/aitp-py/src/tct.rs:282-289 | the entry for a key, if there is one, and no change |
| TctCache.TctStore.VerifyCached | bindings/aitp-py/src/tct.rs:359-423 | result and store of one cached call; the lemmas below compare it with plain verification |
| TctCache.PlainAcceptsExactly | bindings/aitp-py/src/tct.rs:156-214 | accepted exactly when genuine, for the audience, in date, granted, and cleared by the caller's own list and mode; the identity member by member |
| TctCache.PlainReports | bindings/aitp-py/src/tct.rs:156-214 | the first argument at fault is reported, whatever the token; only then the token's own error, or the missing grant |
| TctCache.StatusIsReported | bindings/aitp-py/src/tct.rs:156-214 | a token good in all else is refused as revoked exactly when listed, as unavailable exactly with no list and no `fail_open` |
| TctCache.CachedIsPlainExactlyWhen | bindings/aitp-py/src/tct.rs:376-423 | one call's answer is the plain one unless it is a hit on a token whose `iat` is ahead of the clock, and only then |
| TctCache.HitsExactlyWhen | bindings/aitp-py/src/tct.rs:376-399 | a call is answered from the cache exactly when this token's entry is cleared by the caller's arguments, for this audience, granted and not in its last second |
| TctCache.CachedAcceptsExactly | bindings/aitp-py/src/tct.rs:376-423 | a cached call succeeds exactly when plain verification would, but for the `iat` of a hit; the identity member by member |
| TctCache.RevokedIsNeverAccepted | bindings/aitp-py/src/tct.rs:376-400 | a warm entry never overrides what the caller's list and mode say of the token |
| TctCache.EntriesAreFaithful | bindings/aitp-py/src/tct.rs:402-421 | in every run each entry is what an earlier verification of that very token returned |
| TctCache.VerifiedStaysCached | bindings/aitp-py/src/tct.rs:291-304 | a token new to the cache stays in it while fewer than `max_entries` calls follow and nothing clears it |
| TctCache.CacheIsInvisible | bindings/aitp-py/src/tct.rs:359-423 | over every run with a clock that does not go back, each call returns the plain identity or error |
| TctCache.ClockSetBackShows | bindings/aitp-py/src/tct.rs:380-399 | with the clock set back before `iat` the cache accepts what plain verification refuses |
| TctCache.EntryPointsAgreeExactlyWhen | bindings/aitp-py/src/tct.rs:117-143 | the two entry points differ only when revocation and PoP arguments are both bad |
| TctCache.PopAcceptsExactly | bindings/aitp-py/src/tct.rs:52-138 | with proof of possession: accepted exactly when genuine, in date, granted, cleared by the caller's own list and mode, its audience is its own subject, the caller named none, and the response proves the subject's key |
| TctCache.PopReports | bindings/aitp-py/src/tct.rs:52-138 | the first argument at fault is reported, then the plain error, and a failed proof only for a token good in all else |
| Echo.OwnTctAccepted | crates/aitp-cli/src/serve.rs:740-777 | accepted exactly when genuine, this peer's own, in date and granting echo |
| Echo.OwnTctReports | crates/aitp-cli/src/serve.rs:740-777 | which of the three codes a refused token gets: expiry and the missing grant have their own, once what is checked before them holds |
| Echo.EchoSlotInjective | crates/aitp-cli/src/serve.rs:727-734 | another token or nonce is another slot |
| Echo.RespondReports | crates/aitp-cli/src/echo.rs:64-100 | the holder signs only a challenge its peer signed for this token, and the answer echoes its nonce under its own key |
| Echo.Peer.EchoChallenge | crates/aitp-cli/src/serve.rs:558-621 | a slot is issued only for a token that passes the peer's own checks |
| Echo.Peer.CheckEcho | crates/aitp-cli/src/serve.rs:649-723 | the challenge is consumed before the answer is judged, revocation last |
| Echo.EchoReports | crates/aitp-cli/src/serve.rs:649-723 | the code from the answer and the records alone: no challenge, an expired one, an answer that proves nothing, and revocation last |
| EchoRuns.AnswerBurnsTheSlot | crates/aitp-cli/src/serve.rs:665-693 | any parseable answer with a valid token empties its slot, right or wrong |
| EchoRuns.SlotsAreIssued | crates/aitp-cli/src/serve.rs:586-607 | every outstanding slot was issued and nobody has answered in it since |
| EchoRuns.SuccessIsAuthentic | crates/aitp-cli/src/serve.rs:649-723 | each success follows an unexpired challenge issued for the same token and nonce with no earlier answer, and shows possession of the subject's key |
| EchoRuns.SuccessesNeverExceedIssues | crates/aitp-cli/src/serve.rs:558-723 | successes in a slot plus the one outstanding never exceed its issues |
| EchoRuns.ChallengeStands | crates/aitp-cli/src/serve.rs:558-723 | an unanswered challenge stays until it expires, whatever else happens |
| EchoRuns.HonestAnswerAccepted | crates/aitp-cli/src/echo.rs:64-100 | the holder's answer to the peer's own challenge is accepted if undisturbed and in time |
| CappedBody.ReadCapped | crates/aitp-cli/src/serve.rs:368-384 | the concatenated data exactly when no frame fails and the total is within the limit; reading stops only at a failure or past the drain limit |
| CappedBody.WholeBodyIsRead | crates/aitp-cli/src/serve.rs:366-384 | a body within the drain limit is read to its end |
| SinglePath.Find | scripts/check-single-path.py:102-105 | terminates on a forest at the tree's root |
| SinglePath.JoinKeepsForest | scripts/check-single-path.py:107-110 | hanging one root under another keeps `parent` an acyclic forest |
| SinglePath.Unite | scripts/check-single-path.py:100-110 | after the pairwise loop two paths share a root exactly when a chain of subset steps links them |
| SinglePath.Collect | scripts/check-single-path.py:111-113 | the components are the trees, each in group order, each once |
| SinglePath.ItemsOf | scripts/check-single-path.py:97-114 | the group's items: each class of more than one path, sorted, once |
| SinglePath.Group | scripts/check-single-path.py:91-93 | each key's paths in line order, keys in the order they first come up |
| SinglePath.Duplicates | scripts/check-single-path.py:80-115 | the report is sorted and holds each class once for every key it is an item under |
| SinglePath.ReportedExactlyWhen | scripts/check-single-path.py:50-115 | from the lines alone: an item is the whole set of module-level paths with one key that a chain of "all members of one are among the other's" links, sorted |
| SinglePath.PairIsReportedExactlyWhen | scripts/check-single-path.py:17-27 | where two lines alone share a key, their two paths are the one item exactly when one's members are all among the other's |
| SinglePath.BarePathIsReported | scripts/check-single-path.py:83-86 | a path without members is reported with the one of its key |
| SinglePath.DistinctTypesAreNot | scripts/check-single-path.py:88-89 | two types that each have a member the other lacks are not reported |
| SinglePath.ReportsIgnoreOrder | scripts/check-single-path.py:80-115 | the report does not depend on the order of the lines |
| SinglePath.ItemsAreRelatedExactlyWhen | scripts/check-single-path.py:83-89 | items are the documented pairs exactly in groups where no third path bridges two unrelated ones |
| SinglePath.BarePathJoinsTwoTypes | scripts/check-single-path.py:107-110 | one path without members makes two types that share none one item |
| Classification.RecordsAreRoutes | scripts/api-classification.py:61-93 | the walk of any module graph records exactly the ends of routes that open no module twice |
| Classification.PublicPaths.Walk | scripts/api-classification.py:66-90 | adds exactly the records of the walk, in order, and terminates on cycles |
| Classification.LeadsExactly | scripts/api-classification.py:70-90 | which modules and types a child leads to: public items under their names, re-exports of local items under their aliases, globs of local modules under none |
| Classification.RecordsIgnoreOrder | scripts/api-classification.py:66-90 | what is recorded does not depend on the order of items in modules |
| Classification.Preferred | scripts/api-classification.py:111-112 | a least path by number of `::`, then text |
| Classification.DepthCountsModules | scripts/api-classification.py:111-112 | counting `::` counts the modules a path goes through |
| Classification.JoinedTogether | scripts/api-classification.py:90 | paths are put together as their names are |
| Classification.JoinedOnce | scripts/api-classification.py:90 | and two lists of identifiers never print one path |
| Classification.Current | scripts/api-classification.py:115-120 | the table filled in the order types are met |
| Classification.ShapeOf | scripts/api-classification.py:9-15 | non-exhaustive exactly when so marked; exhaustive exactly when callers see every field or it is an enum |
| Classification.ListsEveryTypeExactlyWhen | scripts/api-classification.py:115-120 | the table shows every public type's own shape exactly when no two types of different shape prefer one path |
| Classification.TableIgnoresOrder | scripts/api-classification.py:115-120 | without such a clash the order of items makes no difference |
| Classification.ClashMakesOrderMatter | scripts/api-classification.py:80-90 | a glob beside an item of the same name: two orders, two tables |
| Classification.Problems | scripts/api-classification.py:146-157 | each problem once and in order; none exactly when the table lists the stable types with their classes and reasons |
| ClassificationOrder.CanComeFirst | scripts/api-classification.py:66-90 | for every recorded type some order of items makes the walk meet it first |
| ClassificationOrder.ClashDecidesForTwo | scripts/api-classification.py:115-120 | where no path is preferred by three types, the table is the same for all orders exactly when no two types clash |
| ClassificationShown.FirstMeetingHasRoute | scripts/api-classification.py:66-90 | whatever a walk meets before a type could precede it on the route taken there |
| ClassificationShown.CanComeAfter | scripts/api-classification.py:66-90 | for every route to a type some order of items makes the walk first meet all that can precede it there |
| ClassificationShown.OrderIsIrrelevantExactlyWhen | scripts/api-classification.py:115-120 | for every surface: the table is the same for all orders exactly when the types it can show at each path have one shape |
| PathScanner.ReadPath | scripts/public-api.py:75-91 | the loop takes the prefix its scan specification gives |
| PathScanner.StripGenerics | scripts/public-api.py:63-72 | the loop keeps what stands outside brackets |
| PathScanner.SkipGenerics | scripts/public-api.py:94-103 | the loop drops one leading group |
| PathScanner.TopLevelFor | scripts/public-api.py:106-112 | the first ` for ` outside all brackets |
| PathScanner.PrintedPathIsRead | scripts/public-api.py:63-91 | a printed path whose groups nest to any depth is read exactly, and stripped to its names |
| PathScanner.PathEndsExactlyWhen | scripts/public-api.py:80-90 | a printed path ends exactly at the end of the text, or at a blank, `(`, `;`, `=`, `!`, `,` or a single `:` |
| PathScanner.LeftStrippedIs | scripts/public-api.py:118 | white space before the type goes, and nothing else |
| PathScanner.ReadsThePathExactlyWhen | scripts/public-api.py:75-91 | of paths whose groups nest as Rust reads them, exactly those without an arrow are read whole before every tail |
| PathScanner.PassedOverExactlyWhen | scripts/public-api.py:63-91 | a group leaves no trace in the path read around it, wherever it stands, exactly when it holds no arrow |
| PathScanner.SkipsGenericsExactlyWhen | scripts/public-api.py:94-103 | an impl's generics are skipped exactly when they hold no arrow |
| PathScanner.FindsForExactlyWhen | scripts/public-api.py:106-112 | the ` for ` after an impl's trait is the one found exactly when the trait's groups hold no arrow |
| PathScanner.ImplPath | scripts/public-api.py:115-124 | the path of an impl line by those four scans |
| PathScanner.ImplIsFiledUnderItsType | scripts/public-api.py:115-124 | an impl line is filed under the type it is on, whatever trait, generics and bounds stand around it |
| PathScanner.GenericsAreHarmlessExactlyWhen | scripts/public-api.py:115-124 | over all lines with these generics: each is filed under its type exactly when they hold no arrow |
| PathScanner.TraitGroupIsHarmlessExactlyWhen | scripts/public-api.py:115-124 | over all lines whose trait holds this group: each is filed under its type exactly when the group holds no arrow |
| PathScanner.SubjectGroupIsHarmlessExactlyWhen | scripts/public-api.py:115-124 | over all lines on a type that holds this group: each is filed under it exactly when the group holds no arrow |
| PathScanner.ItemIsFiledUnderItsPath | scripts/public-api.py:125-127 | any other line is filed under the path it declares |
| PathScanner.ArrowsCutThePath | scripts/public-api.py:80-89 | a concrete path that an arrow cuts |
| BreakGate.FindBreaks | scripts/public-api.py:188-218 | reports exactly the removed lines and the additions to exhaustive types |
| BreakGate.PassesExactlyWhen | scripts/public-api.py:188-218 | no breaks exactly when every line stays and each member added to an exhaustive type has some base line at its path |
| BreakGate.IsCompatibleExactlyWhen | scripts/public-api.py:205-218 | a change is compatible exactly when it passes and no member added to an exhaustive type has a base line at its path |
| BreakGate.PassesExactlyWhenCompatible | scripts/public-api.py:188-218 | where member lines stand alone: no breaks exactly when every line stays and every exhaustive type keeps exactly its members |
| BreakGate.PassesComposeExactlyWhen | scripts/public-api.py:188-218 | two changes that pass make one that passes exactly when the first adds no line at the path of a member the second adds to a type exhaustive from the start |
| BreakGate.PassesCompose | scripts/public-api.py:188-218 | where member lines stand alone two changes that pass make one that passes |
| BreakGate.BreaksTogetherOnlyBy | scripts/public-api.py:188-218 | for any snapshots: what two passing changes break together is an added member that was hidden, or came to its type by a nested or a second definition |
| BreakGate.PassesItself | scripts/public-api.py:188-218 | the same lines in any order, any number of times, are no break |
| BreakGate.MethodHidesAddedField | scripts/public-api.py:207-208 | a field added beside a method of its name: a real break that passes, and two passing changes that do not compose |
| BreakGate.SecondDefinitionRetracts | scripts/public-api.py:194-200 | without "one definition" composition fails |
| BreakGate.NestedTypeChangesOwner | scripts/public-api.py:211-217 | without "types do not nest" composition fails |
| StableDeps.Reached | scripts/check-stable-deps.py:43-51 | terminates though the worklist repeats; exactly the packages reachable by normal dependencies, or one of them the metadata lacks |
| StableDeps.CrateVersions | scripts/check-stable-deps.py:52-59 | each path name's versions among the reached packages other than the root |
| StableDeps.NamesExactly | scripts/check-stable-deps.py:54-57 | a crate is named by its package or one of its libraries, dashes read as underscores |
| StableDeps.MajorIsZeroExactlyWhen | scripts/check-stable-deps.py:71 | 0.x means the text `0`, or one that starts `0.` |
| StableDeps.Problems | scripts/check-stable-deps.py:62-73 | one problem for each foreign crate at fault, with the first line naming it, by crate |
| StableDeps.CleanExactlyWhen | scripts/check-stable-deps.py:6-11 | clean exactly when every foreign crate named is reached and none of its reached versions is 0.x |
| CodeMasks.MaskInlineCode | scripts/check-docs.py:157-174 | the loop produces the masked line of its specification |
| CodeMasks.MaskedHasNoSpan | scripts/check-docs.py:157-174 | nothing is left that the masker itself would mask |
| CodeMasks.UnchangedExactlyWhen | scripts/check-docs.py:157-174 | exactly the texts the masker finds no span in are left as they are |
| CodeMasks.MaskingTwice | scripts/check-docs.py:157-174 | masking is idempotent |
| CodeMasks.MaskedColumns | scripts/check-docs.py:137-139 | each column keeps its character or becomes a space |
| CodeMasks.MasksEverySpanExactlyWhen | scripts/check-docs.py:157-174 | the line is masked as by a masker that goes on after a run nothing closes, and otherwise closes runs as this one does, exactly when none of that one's spans comes after such a run |
| CodeMasks.FullMaskingLeavesNoSpan | scripts/check-docs.py:157-174 | that masker leaves no run of ticks that as many later ones close, by the closing rule both share |
| CodeMasks.UnclosedRunEndsMasking | scripts/check-docs.py:165-168 | lines whose later code span stays |
| CodeMasks.SeesMarkdownSpansExactlyWhen | scripts/check-docs.py:137-139 | the spans blanked are the code spans of CommonMark (sections 6.1 and 2.4) exactly when each run it opens a span with is unescaped and ends at the whole run CommonMark ends it at, and no such span follows a run it finds no end for |
| CodeMasks.MaskedSpansAreBlank | scripts/check-docs.py:157-174 | the masked line is the line with exactly those spans blanked |
| CodeMasks.LongerRunIsMisread | scripts/check-docs.py:165 | a tick before a text and two ticks is blanked to its end though CommonMark sees no span |
| CodeMasks.EscapedTickIsMisread | scripts/check-docs.py:157-165 | an escaped tick opens a span here and none of CommonMark's |
| CodeMasks.OpenExactlyFrom | scripts/check-docs.py:140-152 | a fence is open exactly from the line that opens it to the first later line that closes that same fence |
| CodeMasks.MaskCode | scripts/check-docs.py:137-154 | one line each: blank in fenced blocks, masked elsewhere |
| DocAnchors.FirstUnused | scripts/check-docs.py:206-209 | the first unused candidate, within as many suffixes as there are slugs in use |
| DocAnchors.TriesAreBounded | scripts/check-docs.py:207-209 | the pigeonhole step: that many candidates are different anchors |
| DocAnchors.SlugsAreDistinct | scripts/check-docs.py:186-212 | every heading of a page has an anchor of its own |
| DocAnchors.SlugsAreDetermined | scripts/check-docs.py:205-211 | the headings alone, in order, decide their slugs |
| DocAnchors.RepeatsAreNumberedExactlyWhen | scripts/check-docs.py:187-188 | the n-th repeat of every heading gets `-n` exactly when the slugs that makes are all different |
| DocAnchors.UnsuffixedNumbersDiffer | scripts/check-docs.py:187-188 | they are where no heading looks like a suffixed one |
| DocAnchors.TakenSuffixIsSkipped | scripts/check-docs.py:207-209 | a suffix taken by another heading is passed over |
| DocAnchors.AnchorsOf | scripts/check-docs.py:186-212 | a page's anchors are its ids and the slugs, all different, of its headings outside fences |
| Spiffe.AcceptsExactly | crates/aitp-experimental/src/spiffe.rs:583-619 | accepted exactly the printed IDs of workloads, each with its own trust domain |
| Spiffe.PrintedIsRead | crates/aitp-experimental/src/spiffe.rs:583-611 | every workload's ID is read back to its trust domain and path |
| Spiffe.PrintedOnce | crates/aitp-experimental/src/spiffe.rs:583-611 | no two workloads share an ID |
| Spiffe.IdReports | crates/aitp-experimental/src/spiffe.rs:583-619 | what a refused ID is refused for: length, scheme, no path, trust domain, segment, in this order |
| Spiffe.FromJwkSet | crates/aitp-experimental/src/spiffe.rs:102-154 | the bundle of a faultless set, or its first fault |
| Spiffe.FaultReports | crates/aitp-experimental/src/spiffe.rs:113-149 | a JWK is at fault for the first rule it breaks: `kid`, repeat, key; or one certificate, text, contents |
| Spiffe.BundleHolds | crates/aitp-experimental/src/spiffe.rs:113-149 | a bundle holds each verifiable key with its own `kid` and material, and each certificate, and nothing else |
| Spiffe.BundleKeepsOrder | crates/aitp-experimental/src/spiffe.rs:113-149 | in the order of the set |
| Spiffe.KidsAreDistinct | crates/aitp-experimental/src/spiffe.rs:84-86 | a bundle's kids are non-empty and distinct, so a lookup by `kid` has one candidate |
| Spiffe.ParsesExactlyWhen | crates/aitp-experimental/src/spiffe.rs:95-100 | a set parses exactly when each key is sound and none repeats the `kid` of an earlier kept key |
| Spiffe.OrderDecidesExactlyWhen | crates/aitp-experimental/src/spiffe.rs:95-131 | some order of the keys parses and another does not exactly when all are sound, no two kept ones share a `kid`, and a kept one shares one with an unsupported one |
| Spiffe.RepeatedKidDependsOnOrder | crates/aitp-experimental/src/spiffe.rs:118-131 | two keys of one `kid` accepted in one order and refused in the other |
| Spiffe.SpiffeBundleStore.Insert | crates/aitp-experimental/src/spiffe.rs:195-208 | adds a canonical, new trust domain or leaves the store as it was |
| Spiffe.FromConfig | crates/aitp-experimental/src/spiffe.rs:173-191 | succeeds exactly when every entry is complete and no trust domain repeats; otherwise the first failing entry's error |
| Spiffe.ConfigIgnoresOrder | crates/aitp-experimental/src/spiffe.rs:173-191 | the order of entries decides neither success nor what the store holds |
| AgentCard.Locate | crates/aitp-experimental/src/a2a.rs:170-219 | missing, not unique, or what the one AITP entry gives, wherever it stands |
| AgentCard.PointsExactlyWhen | crates/aitp-experimental/src/a2a.rs:183-216 | the entry's AID and URL when params, AID, URL and security scheme all hold, else the first of them at fault |
| AgentCard.BindManifest | crates/aitp-experimental/src/a2a.rs:295-355 | no Manifest, one that does not verify and a held one past its expiry are refused as such; any other is bound exactly when every check holds, else refused for the first that fails |
| AgentCard.OnlyTheKeyCounts | crates/aitp-experimental/src/a2a.rs:319-327 | the outcome depends on the Card's AID only through the key it denotes |
| AgentCard.BoundCardsShareTheKey | crates/aitp-experimental/src/a2a.rs:319-327 | Cards bound to one Manifest name its key, and the pinned one |
| AgentCard.OneBadEntrySpoilsTheList | crates/aitp-experimental/src/a2a.rs:336-342 | an entry that is not a string fails the list even after a match |

## Left out

- Rate limits, HTTP routing, TLS, timeouts and tracing of the peer: no state the proofs need.
- Cryptography, JCS, JOSE header bytes, X.509 and URL parsing: they appear as the outcomes of a decoder or a check.
- The Node binding's cache (bindings/aitp-node/src/tct.rs:272-440): the same design as the Python one, with `f64` times.
- `verify_spiffe` itself and the SVID checks: a fixed order of checks around unseen cryptography.
- Mutex poisoning, metrics gauges and integer overflow of counters: no bound in the code is near the word size.
- Locale, Unicode folding and regular expressions in `slugify` and the gates' line patterns: lines come parsed.
- Reading and writing the classification table, snapshots and documentation: file access.
- Sessions, handshakes, delegation and manifests: other protocols.
- EnrolledKeysRuns.StatusNeverUntrusts: for runs that repeat no mark; with repeats eviction is no longer by last enrolment (`InsertIsLeastRecentlyEnrolled`).
- EnrolmentRuns.EnrolmentIsAuthentic: a request is one step, although other tasks may run between its consume and its insert; neither reads what the other writes.
- NonceStore.InMemoryNonceStore.Issue: one call at a time; `NonceRaces` covers interleavings, over the records alone.
- PathScanner.ItemIsFiledUnderItsPath: for paths without arrows; `PassedOverExactlyWhen` says what an arrow does to the
  lines around its group, not for which single line it happens to make no difference.
- PathScanner.ImplIsFiledUnderItsType: for lines without arrows; `GenericsAreHarmlessExactlyWhen`,
  `TraitGroupIsHarmlessExactlyWhen` and `SubjectGroupIsHarmlessExactlyWhen` say the same of an arrow in such a line.
- BreakGate.PassesExactlyWhen: for heads with one definition per type and no type directly under another;
  `SecondDefinitionRetracts` and `NestedTypeChangesOwner` are inputs outside, `BreaksTogetherOnlyBy` covers all.
- CodeMasks.SeesMarkdownSpansExactlyWhen: one line, code spans and escapes only; raw HTML and autolinks, which can also
  hold a tick, and code spans that go over a line's end are not modelled.
- StableDeps.CrateVersions: a package and its node in the resolved graph are one record.
- SinglePath.Duplicates: a line carries the path it prints, its owner and its text with that path written as `Self`.
