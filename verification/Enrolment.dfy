/**
 Enrolment of keys at interop peers: the request a client signs, what a peer
 checks and in which order, and what holds over every run of any number of
 peers, clients and forgers.
 */
module Enrolment {
  import opened Basics
  import opened Aids
  import opened Signatures
  import opened NonceStore
  import EnrolledKeys

  const CHALLENGE_TTL := 60
  const DOMAIN := "aitp-interop-enrol-v1"

  // ---------------------------------------------------------------- what is signed

  function SigningInput(aid: string, peerAid: string, nonce: Nonce): seq<byte> {
    Bytes(DOMAIN) + [0] + (Bytes(aid) + [0] + (Bytes(peerAid) + [0] + nonce.bytes))
  }

  function SigningDigest(aid: string, peerAid: string, nonce: Nonce): Digest {
    Sha256(SigningInput(aid, peerAid, nonce))
  }

  /** One digest, one client, one peer, one challenge. */
  lemma {:induction false} SigningDigestInjective(aid: string, peerAid: string, nonce: Nonce, aid': string,
                                                  peerAid': string, nonce': Nonce)
    requires IsAid(aid) && IsAid(peerAid) && IsAid(aid') && IsAid(peerAid')
    requires SigningDigest(aid, peerAid, nonce) == SigningDigest(aid', peerAid', nonce')
    ensures aid == aid' && peerAid == peerAid' && nonce == nonce'
  {
    hide IsAid, Bytes;
    var d := Bytes(DOMAIN) + [0];
    var inner, inner' := Bytes(peerAid) + [0] + nonce.bytes, Bytes(peerAid') + [0] + nonce'.bytes;
    var outer, outer' := Bytes(aid) + [0] + inner, Bytes(aid') + [0] + inner';
    assert (d + outer)[|d|..] == outer && (d + outer')[|d|..] == outer';
    AidBytes(aid, aid');
    AidBytes(aid', aid);
    AidBytes(peerAid, peerAid');
    AidBytes(peerAid', peerAid);
    FieldEndsAtNul(Bytes(aid), inner, Bytes(aid'), inner');
    FieldEndsAtNul(Bytes(peerAid), nonce.bytes, Bytes(peerAid'), nonce'.bytes);
  }

  // ---------------------------------------------------------------- the request

  /**
   The members of a request body that parsed as JSON, decoded as far as they
   go: no nonce if its text is not sixteen base64url bytes, no signature if its
   text is not one. `onCurve` says whether the AID's key bytes are a key.
   */
  datatype Request = Request(aid: string, onCurve: bool, nonce: Option<Nonce>, signature: Option<Signature>)

  datatype ParsedEnroll = ParsedEnroll(aid: string, key: RawKey, nonce: Nonce, signature: Signature)

  datatype BadRequest = BadBody | BadAid | BadNonceText | BadSignatureText

  /** What a body must hold, in the order it is decoded. */
  ghost function BodyRules(body: Option<Request>): seq<Rule<BadRequest>> {
    [ Rule(body.Some?, BadBody),
      Rule(body.Some? ==> IsAid(body.value.aid) && body.value.onCurve, BadAid),
      Rule(body.Some? ==> body.value.nonce.Some?, BadNonceText),
      Rule(body.Some? ==> body.value.signature.Some?, BadSignatureText) ]
  }

  function ParseEnroll(body: Option<Request>): (r: Result<ParsedEnroll, BadRequest>)
    ensures r.Ok? ==> IsAid(r.value.aid) && r.value.key == KeyOf(r.value.aid)
    ensures r.Ok? ==>
      body == Some(Request(r.value.aid, true, Some(r.value.nonce), Some(r.value.signature)))
  {
    match body
    case None => Err(BadBody)
    case Some(req) =>
      if !IsAid(req.aid) || !req.onCurve then Err(BadAid)
      else if req.nonce.None? then Err(BadNonceText)
      else if req.signature.None? then Err(BadSignatureText)
      else Ok(ParsedEnroll(req.aid, KeyOf(req.aid), req.nonce.value, req.signature.value))
  }

  lemma {:induction false} ParseReports(body: Option<Request>)
    ensures Reports(BodyRules(body), ParseEnroll(body))
  {
    hide IsAid, AllHold, FailsFirst;
    var rules := BodyRules(body);
    if ParseEnroll(body).Ok? {
      NoFault(rules);
    } else {
      FirstFault(rules, if !rules[0].holds then 0 else if !rules[1].holds then 1 else if !rules[2].holds then 2 else 3);
    }
  }

  /** The client's half: the request that answers a peer's challenge under one of the key's AIDs. */
  function SignEnroll(aid: string, peerAid: string, nonce: Nonce): Request
    requires IsAid(aid)
  {
    Request(aid, true, Some(nonce), Some(Signed(KeyOf(aid), SigningDigest(aid, peerAid, nonce))))
  }

  // ---------------------------------------------------------------- the peer

  datatype Outcome =
    | Refused(error: BadRequest)
    | BadSignature
    | BadNonce(expired: bool)
    | Enrolled(key: RawKey, expiresAt: Timestamp)

  datatype PeerState = PeerState(nonces: Records, enrolled: EnrolledKeys.Enrolment)

  datatype PeerConfig = PeerConfig(aid: string, enrolTtl: nat, cap: nat)

  function SignatureOk(peerAid: string, r: ParsedEnroll): bool {
    Verifies(r.key, SigningDigest(r.aid, peerAid, r.nonce), r.signature)
  }

  /** One enrolment attempt: the signature is checked before the nonce is touched. */
  ghost predicate EnrollStep(c: PeerConfig, st: PeerState, st': PeerState, body: Option<Request>, now: Timestamp,
                             outcome: Outcome)
  {
    match ParseEnroll(body)
    case Err(e) => outcome == Refused(e) && st' == st
    case Ok(r) =>
      if !SignatureOk(c.aid, r) then outcome == BadSignature && st' == st
      else
        exists consumed ::
          && ConsumeStep(st.nonces, st'.nonces, r.nonce, c.aid, now, consumed)
          && (match consumed
              case Consumed =>
                var expiresAt := SaturatingAdd(now, c.enrolTtl);
                && outcome == Enrolled(r.key, expiresAt)
                && st'.enrolled == EnrolledKeys.Inserted(c.cap, st.enrolled, r.key, expiresAt)
              case Expired => outcome == BadNonce(true) && st'.enrolled == st.enrolled
              case Unknown => outcome == BadNonce(false) && st'.enrolled == st.enrolled)
  }

  /** The signature of this key over this peer's challenge, and the AID it is for. */
  ghost predicate IsSignedFor(r: Request, peerAid: string)
    requires IsAid(r.aid) && r.nonce.Some?
  {
    r.signature == Some(Signed(KeyOf(r.aid), Sha256(
      Bytes("aitp-interop-enrol-v1") + [0] + Bytes(r.aid) + [0] + Bytes(peerAid) + [0] + r.nonce.value.bytes)))
  }

  /** What becomes of a request that decodes: its signature is looked at, then its challenge. */
  ghost predicate AnsweredBy(c: PeerConfig, st: PeerState, st': PeerState, r: Request, now: Timestamp, outcome: Outcome)
    requires IsAid(r.aid) && r.nonce.Some?
  {
    var nonce := r.nonce.value;
    var held := nonce in st.nonces && st.nonces[nonce].verifier == c.aid;
    && outcome == (if !IsSignedFor(r, c.aid) then BadSignature
                   else if !held then BadNonce(false)
                   else if st.nonces[nonce].expiresAt < now then BadNonce(true)
                   else Enrolled(KeyOf(r.aid), SaturatingAdd(now, c.enrolTtl)))
    && (outcome == BadSignature ==> st' == st)
    && st'.enrolled == (if outcome.Enrolled?
                        then EnrolledKeys.Inserted(c.cap, st.enrolled, KeyOf(r.aid), outcome.expiresAt)
                        else st.enrolled)
  }

  /**
   The outcome of an attempt and what it does to the enrolments: a body that decodes is refused for its
   signature, then for its challenge, and otherwise enrols its AID's key from now on.
   */
  lemma {:induction false} EnrollReports(c: PeerConfig, st: PeerState, st': PeerState, body: Option<Request>,
                                         now: Timestamp, outcome: Outcome)
    requires EnrollStep(c, st, st', body, now, outcome)
    ensures !AllHold(BodyRules(body)) ==>
      st' == st && outcome.Refused? && FailsFirst(BodyRules(body), outcome.error)
    ensures AllHold(BodyRules(body)) ==> DecodedWell(body) && AnsweredBy(c, st, st', body.value, now, outcome)
  {
    hide IsAid, KeyOf, Bytes, EnrolledKeys.Inserted, FailsFirst;
    var rules := BodyRules(body);
    ParseReports(body);
    if AllHold(rules) {
      assert rules[0].holds && rules[1].holds && rules[2].holds && rules[3].holds;
      SameInput(body.value, c.aid);
    }
    hide AllHold;
  }

  ghost predicate DecodedWell(body: Option<Request>) {
    body.Some? && IsAid(body.value.aid) && body.value.nonce.Some? && body.value.signature.Some?
  }

  lemma {:induction false} SameInput(r: Request, peerAid: string)
    requires r.nonce.Some?
    ensures SigningInput(r.aid, peerAid, r.nonce.value)
         == Bytes("aitp-interop-enrol-v1") + [0] + Bytes(r.aid) + [0] + Bytes(peerAid) + [0] + r.nonce.value.bytes
  {
    hide Bytes;
  }

  /** One challenge: sixteen fresh random bytes, bound to this peer for a minute. */
  ghost predicate ChallengeStep(c: PeerConfig, st: PeerState, st': PeerState, nonce: Nonce, now: Timestamp,
                                outcome: IssueOutcome)
  {
    && IssueStep(st.nonces, st'.nonces, Challenge(c, nonce, now), outcome)
    && st'.enrolled == st.enrolled
  }

  function Challenge(c: PeerConfig, nonce: Nonce, now: Timestamp): IssuedNonce {
    IssuedNonce(nonce, c.aid, now, SaturatingAdd(now, CHALLENGE_TTL))
  }

  class Peer {
    const aid: string
    const enrolTtl: nat
    const nonces: InMemoryNonceStore
    const enrolled: EnrolledKeys.Store

    ghost predicate Valid()
      reads this, nonces, nonces.shards, enrolled
    {
      nonces.Valid() && enrolled.Valid()
    }

    ghost function State(): PeerState
      reads this, nonces, enrolled
    {
      PeerState(nonces.records, enrolled.State())
    }

    function Config(): PeerConfig
    {
      PeerConfig(aid, enrolTtl, enrolled.cap)
    }

    constructor (aid: string, enrolTtl: nat, nonces: InMemoryNonceStore, enrolled: EnrolledKeys.Store)
      requires nonces.Valid() && enrolled.Valid()
      ensures Valid() && this.aid == aid && this.enrolTtl == enrolTtl
      ensures this.nonces == nonces && this.enrolled == enrolled
    {
      this.aid, this.enrolTtl, this.nonces, this.enrolled := aid, enrolTtl, nonces, enrolled;
    }

    method EnrollChallenge(nonce: Nonce, now: Timestamp) returns (outcome: IssueOutcome)
      requires Valid()
      modifies nonces, nonces.shards
      ensures Valid()
      ensures ChallengeStep(Config(), old(State()), State(), nonce, now, outcome)
    {
      hide NonceStore.IssueStep;
      outcome := nonces.Issue(Challenge(Config(), nonce, now));
    }

    method Enroll(body: Option<Request>, now: Timestamp) returns (outcome: Outcome)
      requires Valid()
      modifies nonces, nonces.shards, enrolled
      ensures Valid()
      ensures EnrollStep(Config(), old(State()), State(), body, now, outcome)
    {
      hide SignatureOk, ConsumeStep, EnrolledKeys.Inserted, EnrolledKeys.Tracked, InMemoryNonceStore.Valid, IsAid,
        KeyOf;
      var parsed := ParseEnroll(body);
      if parsed.Err? {
        return Refused(parsed.error);
      }
      var r := parsed.value;
      // Signature before the nonce, so a forged request cannot burn an honest client's challenge.
      if !SignatureOk(aid, r) {
        return BadSignature;
      }
      KeyOfIsKey(r.aid);
      var consumed := nonces.Consume(r.nonce, aid, now);
      match consumed {
        case Consumed =>
          var expiresAt := SaturatingAdd(now, enrolTtl);
          enrolled.Insert(r.key, expiresAt);
          outcome := Enrolled(r.key, expiresAt);
        case Expired => outcome := BadNonce(true);
        case Unknown => outcome := BadNonce(false);
      }
    }
  }
}
