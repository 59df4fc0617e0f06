/**
 Runs of any number of interop peers, clients and forgers. A forger may send
 any request at any time, with any signature somebody has made so far.
 */
module EnrolmentRuns {
  import opened Basics
  import opened Aids
  import opened Signatures
  import opened NonceStore
  import opened Enrolment

  datatype Event =
    | Challenged(peer: string, nonce: Nonce, now: Timestamp, issued: IssueOutcome)
    /** The holder of the key behind `aid` answers a challenge that names this peer and nonce. */
    | Signing(aid: string, peer: string, nonce: Nonce)
    /** Any key signs anything that is not an enrolment of its own, other keys' enrolments included. */
    | SigningElse(key: RawKey, digest: Digest)
    | Attempt(peer: string, body: Option<Request>, now: Timestamp, outcome: Outcome)
    | StatusCall(peer: string, now: Timestamp)

  datatype World = World(peers: map<string, PeerState>, made: set<Signature>)

  type Config = map<string, PeerConfig>

  ghost predicate ValidConfig(cfg: Config) {
    forall p :: p in cfg ==> IsAid(p) && cfg[p].aid == p && 1 <= cfg[p].cap
  }

  ghost predicate Init(cfg: Config, w: World) {
    && w.peers.Keys == cfg.Keys && w.made == {}
    && forall p :: p in cfg ==> w.peers[p] == PeerState(map[], EnrolledKeys.EMPTY)
  }

  /** Not an enrolment of this key; it may be one that names somebody else's AID. */
  ghost predicate NotOwnEnrolment(key: RawKey, d: Digest) {
    forall aid, peer, nonce :: IsAid(aid) && IsAid(peer) && KeyOf(aid) == key ==> d != SigningDigest(aid, peer, nonce)
  }

  /** The forger's limit: a request carries a signature somebody has made, or junk. */
  predicate Available(w: World, body: Option<Request>) {
    match body
    case None => true
    case Some(req) => req.signature.None? || req.signature.value.Junk? || req.signature.value in w.made
  }

  ghost predicate Step(cfg: Config, w: World, e: Event, w': World) {
    match e
    case Signing(aid, peer, nonce) =>
      && IsAid(aid) && IsAid(peer)
      && w' == w.(made := w.made + {Signed(KeyOf(aid), SigningDigest(aid, peer, nonce))})
    case SigningElse(key, digest) =>
      NotOwnEnrolment(key, digest) && w' == w.(made := w.made + {Signed(key, digest)})
    case Challenged(p, nonce, now, outcome) =>
      && OnlyPeer(cfg, w, w', p)
      && ChallengeStep(cfg[p], w.peers[p], w'.peers[p], nonce, now, outcome)
    case Attempt(p, body, now, outcome) =>
      && OnlyPeer(cfg, w, w', p) && Available(w, body)
      && EnrollStep(cfg[p], w.peers[p], w'.peers[p], body, now, outcome)
    case StatusCall(p, now) =>
      && OnlyPeer(cfg, w, w', p)
      && w'.peers[p] == w.peers[p].(enrolled := EnrolledKeys.Pruned(w.peers[p].enrolled, now))
  }

  ghost predicate OnlyPeer(cfg: Config, w: World, w': World, p: string) {
    && p in cfg && p in w.peers && p in w'.peers
    && w' == w.(peers := w.peers[p := w'.peers[p]])
  }

  ghost predicate IsRun(cfg: Config, worlds: seq<World>, events: seq<Event>) {
    && ValidConfig(cfg) && |worlds| == |events| + 1 && Init(cfg, worlds[0])
    && forall i :: 0 <= i < |events| ==> Step(cfg, worlds[i], events[i], worlds[i + 1])
  }

  // ---------------------------------------------------------------- challenges

  /** The event issues this nonce at this peer. */
  predicate Issues(e: Event, p: string, n: Nonce) {
    e.Challenged? && e.peer == p && e.nonce == n && e.issued == Issued
  }

  /** The event enrols a key at this peer on this nonce. */
  predicate EnrolsOn(e: Event, p: string, n: Nonce) {
    e.Attempt? && e.peer == p && e.outcome.Enrolled? &&
    var r := ParseEnroll(e.body); r.Ok? && r.value.nonce == n
  }

  /** Event `j` issued the nonce, good until `expiry`, and it was neither issued nor enrolled on since. */
  ghost predicate IssuedAt(cfg: Config, events: seq<Event>, j: int, k: int, p: string, n: Nonce, expiry: Timestamp) {
    && 0 <= j < k <= |events| && p in cfg && Issues(events[j], p, n)
    && expiry == SaturatingAdd(events[j].now, CHALLENGE_TTL)
    && forall m :: j < m < k ==> !Issues(events[m], p, n) && !EnrolsOn(events[m], p, n)
  }

  /** Every outstanding nonce of every peer was issued there, for that peer, and not used since. */
  ghost predicate NoncesBacked(cfg: Config, w: World, events: seq<Event>, k: int) {
    && w.peers.Keys == cfg.Keys
    && forall p, n :: p in w.peers && n in w.peers[p].nonces ==>
      && w.peers[p].nonces[n].verifier == p
      && exists j :: IssuedAt(cfg, events, j, k, p, n, w.peers[p].nonces[n].expiresAt)
  }

  /** What a challenge leaves outstanding: what was, and the new nonce if it was issued. */
  lemma {:induction false} ChallengeNonces(c: PeerConfig, st: PeerState, st': PeerState, nonce: Nonce, now: Timestamp,
                        outcome: IssueOutcome, n: Nonce)
    requires ChallengeStep(c, st, st', nonce, now, outcome)
    ensures n in st'.nonces && outcome == Issued && n == nonce ==>
      st'.nonces[n] == Record(c.aid, SaturatingAdd(now, CHALLENGE_TTL))
    ensures n in st'.nonces && !(outcome == Issued && n == nonce) ==>
      n in st.nonces && st'.nonces[n] == st.nonces[n]
    ensures LiveAt(st.nonces, n, now) ==> n in st'.nonces && st'.nonces[n] == st.nonces[n]
  {
    if outcome == Issued && n != nonce {
      assert n in st'.nonces ==> n in st'.nonces - {nonce};
      assert LiveAt(st.nonces, n, now) ==> LiveAt(st.nonces - {nonce}, n, now);
    }
  }

  /** What an attempt leaves outstanding: what was, less the nonce it was enrolled on. */
  lemma {:induction false} AttemptNonces(c: PeerConfig, st: PeerState, st': PeerState, body: Option<Request>,
                                         now: Timestamp, outcome: Outcome, n: Nonce)
    requires EnrollStep(c, st, st', body, now, outcome)
    ensures n in st'.nonces ==> n in st.nonces && st'.nonces[n] == st.nonces[n]
    ensures outcome.Enrolled? && ParseEnroll(body).Ok? && ParseEnroll(body).value.nonce == n ==> n !in st'.nonces
    ensures LiveAt(st.nonces, n, now) &&
            !(ParseEnroll(body).Ok? && ParseEnroll(body).value.nonce == n
              && SignatureOk(c.aid, ParseEnroll(body).value))
            ==> n in st'.nonces && st'.nonces[n] == st.nonces[n]
  {
    hide ParseEnroll, SignatureOk;
  }

  lemma {:induction false} StepNonces(cfg: Config, w: World, e: Event, w': World, p: string, n: Nonce)
    requires ValidConfig(cfg) && w.peers.Keys == cfg.Keys && Step(cfg, w, e, w')
    requires p in w'.peers && n in w'.peers[p].nonces
    ensures p in w.peers
    ensures
      || (Issues(e, p, n) && w'.peers[p].nonces[n] == Record(p, SaturatingAdd(e.now, CHALLENGE_TTL)))
      || (n in w.peers[p].nonces && w'.peers[p].nonces[n] == w.peers[p].nonces[n] && !Issues(e, p, n)
          && !EnrolsOn(e, p, n))
  {
    hide SigningDigest, IsAid, EnrollStep, ChallengeStep, ParseEnroll;
    match e
    case Challenged(q, nonce, now, issued) =>
      ChallengeNonces(cfg[q], w.peers[q], w'.peers[q], nonce, now, issued, n);
    case Attempt(q, body, now, outcome) =>
      AttemptNonces(cfg[q], w.peers[q], w'.peers[q], body, now, outcome, n);
    case Signing(_, _, _) =>
    case SigningElse(_, _) =>
    case StatusCall(_, _) =>
  }

  lemma {:induction false} IssuedStill(cfg: Config, events: seq<Event>, j: int, k: int, p: string, n: Nonce,
                                       expiry: Timestamp)
    requires IssuedAt(cfg, events, j, k, p, n, expiry) && k < |events|
    requires !Issues(events[k], p, n) && !EnrolsOn(events[k], p, n)
    ensures IssuedAt(cfg, events, j, k + 1, p, n, expiry)
  {
    hide Issues, EnrolsOn;
  }

  lemma {:induction false} NoncesStayBacked(cfg: Config, worlds: seq<World>, events: seq<Event>, k: nat)
    requires IsRun(cfg, worlds, events) && k <= |events|
    ensures NoncesBacked(cfg, worlds[k], events, k)
  {
    hide Issues, EnrolsOn, IsAid, Step;
    if k > 0 {
      NoncesStayBacked(cfg, worlds, events, k - 1);
      assert Step(cfg, worlds[k - 1], events[k - 1], worlds[k - 1 + 1]);
      StepKeepsBacked(cfg, worlds[k - 1], events, k - 1, worlds[k]);
    }
  }

  lemma {:induction false} StepKeepsBacked(cfg: Config, w: World, events: seq<Event>, k: nat, w': World)
    requires ValidConfig(cfg) && k < |events| && NoncesBacked(cfg, w, events, k) && Step(cfg, w, events[k], w')
    ensures NoncesBacked(cfg, w', events, k + 1)
  {
    hide IsAid;
    StepKeepsPeers(cfg, w, events[k], w');
    var next := k + 1;
    forall p, n | p in w'.peers && n in w'.peers[p].nonces
      ensures w'.peers[p].nonces[n].verifier == p
      ensures exists j :: IssuedAt(cfg, events, j, next, p, n, w'.peers[p].nonces[n].expiresAt)
    {
      hide Step, EnrolsOn;
      StepNonces(cfg, w, events[k], w', p, n);
      if Issues(events[k], p, n) {
        assert IssuedAt(cfg, events, k, next, p, n, w'.peers[p].nonces[n].expiresAt);
      } else {
        var j :| IssuedAt(cfg, events, j, k, p, n, w.peers[p].nonces[n].expiresAt);
        IssuedStill(cfg, events, j, k, p, n, w.peers[p].nonces[n].expiresAt);
      }
    }
  }

  lemma {:induction false} StepKeepsPeers(cfg: Config, w: World, e: Event, w': World)
    requires Step(cfg, w, e, w') && w.peers.Keys == cfg.Keys
    ensures w'.peers.Keys == cfg.Keys
  {
  }

  // ---------------------------------------------------------------- signatures

  /** Event `i` made this signature. */
  ghost predicate MadeAt(events: seq<Event>, i: int, k: int, s: Signature) {
    0 <= i < k <= |events| && match events[i]
      case Signing(aid, peer, nonce) =>
        IsAid(aid) && IsAid(peer) && s == Signed(KeyOf(aid), SigningDigest(aid, peer, nonce))
      case SigningElse(key, digest) => NotOwnEnrolment(key, digest) && s == Signed(key, digest)
      case _ => false
  }

  lemma {:induction false} SignaturesWereMade(cfg: Config, worlds: seq<World>, events: seq<Event>, k: nat, s: Signature)
    requires IsRun(cfg, worlds, events) && k <= |events| && s in worlds[k].made
    ensures exists i :: MadeAt(events, i, k, s)
  {
    hide SigningDigest, KeyOf, IsAid, EnrollStep, ChallengeStep;
    assert k > 0;
    assert Step(cfg, worlds[k - 1], events[k - 1], worlds[k - 1 + 1]);
    if s in worlds[k - 1].made {
      SignaturesWereMade(cfg, worlds, events, k - 1, s);
      var i :| MadeAt(events, i, k - 1, s);
      assert MadeAt(events, i, k, s);
    } else {
      assert MadeAt(events, k - 1, k, s);
    }
  }

  // ---------------------------------------------------------------- what an enrolment proves

  /** Enrolment `k` answered challenge `j`, in time, and nothing else did in between. */
  ghost predicate Answers(cfg: Config, events: seq<Event>, j: int, k: int) {
    && 0 <= j < k < |events| && events[k].Attempt? && events[k].outcome.Enrolled?
    && var r := ParseEnroll(events[k].body);
    && r.Ok? && IssuedAt(cfg, events, j, k, events[k].peer, r.value.nonce,
                         SaturatingAdd(NowOf(events[j]), CHALLENGE_TTL))
    && events[k].now <= SaturatingAdd(NowOf(events[j]), CHALLENGE_TTL)
  }

  function NowOf(e: Event): Timestamp {
    match e
    case Challenged(_, _, now, _) => now
    case Attempt(_, _, now, _) => now
    case StatusCall(_, now) => now
    case _ => I64_MIN
  }

  /** The key's holder signed for this very peer and challenge before the enrolment. */
  ghost predicate SignedFor(events: seq<Event>, i: int, k: int) {
    && 0 <= i < k < |events| && events[k].Attempt? && events[k].outcome.Enrolled?
    && var r := ParseEnroll(events[k].body);
    && r.Ok? && events[i] == Signing(r.value.aid, events[k].peer, r.value.nonce)
    && events[k].outcome.key == KeyOf(r.value.aid)
  }

  /**
   Over every run, a key is enrolled only on a challenge its own peer issued
   and nobody has used, before it expires, and only if the key's holder signed
   for that peer and that challenge. So a signature made for one peer never
   enrols at another.
   */
  lemma {:induction false} EnrolmentIsAuthentic(cfg: Config, worlds: seq<World>, events: seq<Event>, k: nat)
    requires IsRun(cfg, worlds, events) && k < |events|
    requires events[k].Attempt? && events[k].outcome.Enrolled?
    ensures exists j :: Answers(cfg, events, j, k)
    ensures exists i :: SignedFor(events, i, k)
  {
    var p, body := events[k].peer, events[k].body;
    assert Step(cfg, worlds[k], events[k], worlds[k + 1]);
    EnrolledStepFacts(cfg[p], worlds[k].peers[p], worlds[k + 1].peers[p], body, events[k].now, events[k].outcome);
    var r := ParseEnroll(body).value;
    NoncesStayBacked(cfg, worlds, events, k);
    AnswerExists(cfg, worlds[k], events, k, r);
    SignaturesWereMade(cfg, worlds, events, k, r.signature);
    var i :| MadeAt(events, i, k, r.signature);
    SignerAgrees(cfg, events, i, k, r);
  }

  lemma {:induction false} EnrolledStepFacts(c: PeerConfig, st: PeerState, st': PeerState, body: Option<Request>,
                                             now: Timestamp, outcome: Outcome)
    requires EnrollStep(c, st, st', body, now, outcome) && outcome.Enrolled?
    ensures ParseEnroll(body).Ok?
    ensures var r := ParseEnroll(body).value;
      && SignatureOk(c.aid, r) && outcome.key == r.key == KeyOf(r.aid)
      && r.nonce in st.nonces && !InThePast(st.nonces[r.nonce].expiresAt, now)
      && st'.nonces == st.nonces - {r.nonce}
  {
    hide SigningDigest, IsAid;
  }

  lemma {:induction false} AnswerExists(cfg: Config, w: World, events: seq<Event>, k: nat, r: ParsedEnroll)
    requires k < |events| && events[k].Attempt? && events[k].outcome.Enrolled?
    requires ParseEnroll(events[k].body) == Ok(r) && NoncesBacked(cfg, w, events, k)
    requires events[k].peer in w.peers && r.nonce in w.peers[events[k].peer].nonces
    requires !InThePast(w.peers[events[k].peer].nonces[r.nonce].expiresAt, events[k].now)
    ensures exists j :: Answers(cfg, events, j, k)
  {
    hide ParseEnroll;
    var p := events[k].peer;
    var j :| IssuedAt(cfg, events, j, k, p, r.nonce, w.peers[p].nonces[r.nonce].expiresAt);
    assert Answers(cfg, events, j, k);
  }

  lemma {:induction false} SignerAgrees(cfg: Config, events: seq<Event>, i: int, k: nat, r: ParsedEnroll)
    requires ValidConfig(cfg) && k < |events| && events[k].Attempt? && events[k].outcome.Enrolled?
    requires events[k].peer in cfg && ParseEnroll(events[k].body) == Ok(r)
    requires events[k].outcome.key == KeyOf(r.aid) && SignatureOk(events[k].peer, r) && r.key == KeyOf(r.aid)
    requires MadeAt(events, i, k, r.signature)
    ensures SignedFor(events, i, k)
  {
    hide SigningDigest, IsAid, KeyOf, ParseEnroll;
    match events[i]
    case Signing(aid, peer, nonce) =>
      SigningDigestInjective(r.aid, events[k].peer, r.nonce, aid, peer, nonce);
    case SigningElse(key, digest) =>
      assert false;
    case _ =>
  }

  /** No challenge is answered twice: different enrolments used different challenges. */
  lemma {:induction false} ChallengesAreSingleUse(cfg: Config, events: seq<Event>, j: int, k1: int, k2: int)
    requires Answers(cfg, events, j, k1) && Answers(cfg, events, j, k2)
    ensures k1 == k2
  {
    assert EnrolsOn(events[k1], events[j].peer, events[j].nonce);
    assert EnrolsOn(events[k2], events[j].peer, events[j].nonce);
  }

  // ---------------------------------------------------------------- the enrolled keys

  /** Event `k` enrolled this entry at this peer. */
  ghost predicate EnrolledAt(events: seq<Event>, k: int, p: string, e: EnrolledKeys.Entry) {
    0 <= k < |events| && events[k].Attempt? && events[k].peer == p && events[k].outcome == Enrolled(e.key, e.expiry)
  }

  lemma {:induction false} EvictedKeys(cap: nat, st: EnrolledKeys.Enrolment)
    ensures var after := EnrolledKeys.Evicted(cap, st);
      forall a :: a in after.keys ==> a in st.keys && after.keys[a] == st.keys[a]
    decreases |st.order|
  {
    if |st.keys| > cap && st.order != [] {
      EvictedKeys(cap, EnrolledKeys.Popped(st));
    }
  }

  /** Every key a peer holds, and so every key it trusts, came from an authentic enrolment there. */
  lemma {:induction false} TrustedKeysWereEnrolled(cfg: Config, worlds: seq<World>, events: seq<Event>, k: nat,
                                                   p: string, aid: string)
    requires IsRun(cfg, worlds, events) && k <= |events|
    requires p in worlds[k].peers && aid in worlds[k].peers[p].enrolled.keys
    ensures exists m :: m < k && EnrolledAt(events, m, p, worlds[k].peers[p].enrolled.keys[aid])
  {
    hide SigningDigest, IsAid, ParseEnroll, ConsumeStep, IssueStep, ToAid;
    assert k > 0;
    var w, w', e := worlds[k - 1], worlds[k], events[k - 1];
    assert Step(cfg, w, e, worlds[k - 1 + 1]);
    NoncesStayBacked(cfg, worlds, events, k - 1);
    if e.Attempt? && e.peer == p && e.outcome.Enrolled? {
      EvictedKeys(cfg[p].cap, EnrolledKeys.Pushed(w.peers[p].enrolled, e.outcome.key, e.outcome.expiresAt));
    }
    var entry := w'.peers[p].enrolled.keys[aid];
    if p in w.peers && aid in w.peers[p].enrolled.keys && w.peers[p].enrolled.keys[aid] == entry {
      TrustedKeysWereEnrolled(cfg, worlds, events, k - 1, p, aid);
      var m :| m < k - 1 && EnrolledAt(events, m, p, entry);
      assert m < k && EnrolledAt(events, m, p, entry);
    } else {
      assert EnrolledAt(events, k - 1, p, entry);
    }
  }

  // ---------------------------------------------------------------- what forgers cannot do

  /** The event burns a challenge of this peer: it carries a valid signature over it. */
  predicate AnswersValidly(e: Event, p: string, n: Nonce) {
    e.Attempt? && e.peer == p &&
    var r := ParseEnroll(e.body); r.Ok? && r.value.nonce == n && SignatureOk(p, r.value)
  }

  ghost predicate Holds(w: World, p: string, n: Nonce, expiry: Timestamp) {
    p in w.peers && n in w.peers[p].nonces && w.peers[p].nonces[n] == Record(p, expiry)
  }

  /** A step with a clock up to the expiry, that does not answer the challenge validly, leaves it standing. */
  lemma {:induction false} ChallengeSurvivesStep(cfg: Config, w: World, e: Event, w': World, p: string, n: Nonce,
                                                 expiry: Timestamp)
    requires ValidConfig(cfg) && Step(cfg, w, e, w') && Holds(w, p, n, expiry)
    requires NowOf(e) <= expiry && !AnswersValidly(e, p, n)
    ensures Holds(w', p, n, expiry)
  {
    hide SigningDigest, IsAid, EnrollStep, ChallengeStep, ParseEnroll;
    match e
    case Challenged(q, nonce, now, issued) =>
      ChallengeNonces(cfg[q], w.peers[q], w'.peers[q], nonce, now, issued, n);
    case Attempt(q, body, now, outcome) =>
      AttemptNonces(cfg[q], w.peers[q], w'.peers[q], body, now, outcome, n);
    case Signing(_, _, _) =>
    case SigningElse(_, _) =>
    case StatusCall(_, _) =>
  }

  lemma {:induction false} ChallengeSurvives(cfg: Config, worlds: seq<World>, events: seq<Event>, j: nat, k: nat,
                                             p: string, n: Nonce, expiry: Timestamp)
    requires IsRun(cfg, worlds, events) && j < k <= |events|
    requires Issues(events[j], p, n) && expiry == SaturatingAdd(events[j].now, CHALLENGE_TTL)
    requires forall m :: j < m < k ==> NowOf(events[m]) <= expiry && !AnswersValidly(events[m], p, n)
    ensures Holds(worlds[k], p, n, expiry)
  {
    hide AnswersValidly, EnrollStep;
    assert Step(cfg, worlds[k - 1], events[k - 1], worlds[k - 1 + 1]);
    if k > j + 1 {
      ChallengeSurvives(cfg, worlds, events, j, k - 1, p, n, expiry);
      hide Step, Holds;
      ChallengeSurvivesStep(cfg, worlds[k - 1], events[k - 1], worlds[k], p, n, expiry);
    }
  }

  /**
   An honest answer is accepted, however much else happens first: any number
   of forged or malformed requests, other clients, other peers, status calls.
   Only a valid answer to the same challenge, or time running out, stops it.
   */
  lemma {:induction false} HonestAnswerAccepted(cfg: Config, worlds: seq<World>, events: seq<Event>, j: nat, k: nat,
                                                aid: string)
    requires IsRun(cfg, worlds, events) && j < k < |events| && IsAid(aid)
    requires events[j].Challenged? && events[j].issued == Issued
    requires var p, n := events[j].peer, events[j].nonce;
      && events[k].Attempt? && events[k].peer == p && events[k].body == Some(SignEnroll(aid, p, n))
      && forall m :: j < m < k ==> !AnswersValidly(events[m], p, n)
    requires forall m :: j < m <= k ==> NowOf(events[m]) <= SaturatingAdd(events[j].now, CHALLENGE_TTL)
    ensures events[j].peer in cfg
    ensures events[k].outcome == Enrolled(KeyOf(aid), SaturatingAdd(events[k].now, cfg[events[j].peer].enrolTtl))
  {
    var p, n := events[j].peer, events[j].nonce;
    hide IsAid, SigningDigest;
    ChallengeSurvives(cfg, worlds, events, j, k, p, n, SaturatingAdd(events[j].now, CHALLENGE_TTL));
    assert Step(cfg, worlds[k], events[k], worlds[k + 1]);
    assert NowOf(events[k]) <= SaturatingAdd(events[j].now, CHALLENGE_TTL);
  }
}
