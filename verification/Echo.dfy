/**
 The interop peer's `/echo`: a holder presents the token the peer issued it,
 with proof of possession over a challenge the peer issued for that token.
 */
module Echo {
  import opened Basics
  import opened Aids
  import opened Signatures
  import opened NonceStore
  import opened TctVerify

  const ECHO_CAP := "aitp.interop.echo"
  const ECHO_DOMAIN := "aitp-interop-echo-v1"
  const CHALLENGE_TTL := 60

  /** The UTF-8 bytes of a text. */
  type Text = seq<byte>

  datatype Code =
    | TctSignatureInvalid | TctExpired | PolicyViolation
    | PopChallengeInvalid | PopResponseInvalid | TctRevoked | EchoBusy

  /** The key library, and strict unpadded base64url decoding. */
  datatype Env = Env(keys: Keys, decode: Text -> Option<seq<byte>>)

  // ---------------------------------------------------------------- the token

  function OwnContext(sub: string, selfAid: string, now: Timestamp): Context {
    Context(sub, selfAid, now, None, 0, FailOpen)
  }

  function OwnTctCode(e: TctError): Code {
    match e
    case Expired => TctExpired
    case SafeSubsetEmpty => PolicyViolation
    case _ => TctSignatureInvalid
  }

  /** The unverified `sub` member, if it is an AID. */
  function PeekedSub(token: Token): Option<string> {
    if token.Jws? && token.payload.Some? && token.payload.value.Json? && token.payload.value.sub.Some?
       && IsAid(token.payload.value.sub.value)
    then token.payload.value.sub
    else None
  }

  /** The checks on a token this peer issued that need no proof of possession. */
  function VerifyOwnTct(keys: Keys, token: Token, selfAid: string, now: Timestamp): Result<Claims, Code>
    requires Decoded(token) && IsAid(selfAid)
  {
    var sub := PeekedSub(token);
    if sub.None? then Err(TctSignatureInvalid)
    else match VerifyTct(keys, token, OwnContext(sub.value, selfAid, now))
      case Err(e) => Err(OwnTctCode(e))
      case Ok(v) => if ECHO_CAP in v.claims.grants then Ok(v.claims) else Err(PolicyViolation)
  }

  /** Accepted exactly when genuine, this peer's own, in date and granting the echo capability. */
  lemma {:induction false} OwnTctAccepted(keys: Keys, token: Token, selfAid: string, now: Timestamp, c: Claims)
    requires Decoded(token) && IsAid(selfAid)
    ensures VerifyOwnTct(keys, token, selfAid, now) == Ok(c) <==>
      && Genuine(keys, token, c) && c.iss == selfAid && c.iat <= now <= c.exp && ECHO_CAP in c.grants
  {
    hide IsAid;
    if PeekedSub(token).Some? {
      var sub := PeekedSub(token).value;
      AcceptsExactly(keys, token, OwnContext(sub, selfAid, now), c, c.grants);
      var v := VerifyTct(keys, token, OwnContext(sub, selfAid, now));
      if v.Ok? {
        AcceptsExactly(keys, token, OwnContext(sub, selfAid, now), v.value.claims, v.value.effectiveGrants);
      }
      hide VerifyTct;
    }
  }

  /** What a signed token this peer looks at must hold, in turn, and the code that reports it does not. */
  ghost function OwnRules(keys: Keys, c: Claims, selfAid: string, now: Timestamp): seq<Rule<Code>>
    requires IsAid(c.sub)
  {
    [ Rule(c.ver == "aitp/0.3" && c.iss == selfAid && c.aud == c.sub && c.iss != c.sub
           && "aitp.attestation" !in c.grants, TctSignatureInvalid),
      Rule(c.iat <= now <= c.exp, TctExpired),
      Rule(|c.grants| > 0 && keys.usable(KeyOf(c.sub)) && c.jkt == keys.thumbprint(KeyOf(c.sub)), TctSignatureInvalid),
      Rule("aitp.interop.echo" in c.grants, PolicyViolation) ]
  }

  ghost predicate HasClaims(token: Token) {
    exists c :: Carries(token, c)
  }

  /** A token whose text or signature is at fault is one code; a signed one is refused for the first rule it breaks. */
  lemma {:induction false} OwnTctReports(keys: Keys, token: Token, selfAid: string, now: Timestamp)
    requires Decoded(token) && IsAid(selfAid)
    ensures var r := VerifyOwnTct(keys, token, selfAid, now);
      if AllHold(PeekChecks(token)) && AllHold(SignatureChecks(keys, selfAid, token)) && HasClaims(token) then
        forall c :: Carries(token, c) ==> Reports(OwnRules(keys, c, selfAid, now), r) && (r.Ok? ==> r.value == c)
      else r == Err(TctSignatureInvalid)
  {
    hide VerifyTct, IsAid, KeyOf, SignatureChecks, AllHold, FailsFirst, ClaimChecks, RevocationChecks, OwnRules;
    if PeekedSub(token).Some? {
      var ctx := OwnContext(PeekedSub(token).value, selfAid, now);
      var v := VerifyTct(keys, token, ctx);
      TctReports(keys, token, ctx);
      if v.Err? {
        PeekFaults(token, v.error);
      }
      if SignatureHolds(token) && token.payload.value.claims.Ok? {
        assert Carries(token, token.payload.value.claims.value);
      }
      forall c | Carries(token, c) && AllHold(PeekChecks(token)) && AllHold(SignatureChecks(keys, selfAid, token))
        ensures var r := VerifyOwnTct(keys, token, selfAid, now);
          Reports(OwnRules(keys, c, selfAid, now), r) && (r.Ok? ==> r.value == c)
      {
        OwnClaimsReport(keys, c, ctx, v);
      }
    }
  }

  lemma {:induction false} PeekFaults(token: Token, e: TctError)
    ensures FailsFirst(PeekChecks(token), e) ==> OwnTctCode(e) == TctSignatureInvalid
  {
  }

  lemma {:induction false} OwnClaimsReport(keys: Keys, c: Claims, ctx: Context, v: Result<Verified, TctError>)
    requires IsAid(c.sub) && ctx == OwnContext(c.sub, ctx.issuer, ctx.now)
    requires Reports(ClaimChecks(keys, c, ctx) + RevocationChecks(FailOpen, c, ctx.now), v)
    requires v.Ok? ==> v.value.claims == c
    ensures var r: Result<Claims, Code> := if v.Err? then Err(OwnTctCode(v.error))
                 else if ECHO_CAP in c.grants then Ok(c) else Err(PolicyViolation);
      Reports(OwnRules(keys, c, ctx.issuer, ctx.now), r)
  {
    hide IsAid, KeyOf;
    var checks, status := ClaimChecks(keys, c, ctx), RevocationChecks(FailOpen, c, ctx.now);
    var rules := OwnRules(keys, c, ctx.issuer, ctx.now);
    ChecksInTurn(checks, status);
    NoFault(status);
    if v.Ok? {
      assert checks[0].holds && checks[1].holds && checks[2].holds && checks[3].holds && checks[4].holds;
      assert checks[5].holds && checks[7].holds && checks[8].holds && checks[9].holds;
      hide AllHold, FailsFirst;
      if ECHO_CAP in c.grants {
        NoFault(rules);
      } else {
        FirstFault(rules, 3);
      }
    } else {
      assert !FailsFirst(status, v.error);
      var i :| 0 <= i < |checks| && !checks[i].holds && checks[i].error == v.error
        && forall j :: 0 <= j < i ==> checks[j].holds;
      assert i > 0 ==> checks[0].holds;
      assert i > 1 ==> checks[1].holds;
      assert i > 2 ==> checks[2].holds;
      assert i > 3 ==> checks[3].holds;
      assert i > 4 ==> checks[4].holds;
      assert i > 5 ==> checks[5].holds;
      hide AllHold, FailsFirst;
      FirstFault(rules, if i < 5 then 0 else if i == 5 then 1 else 2);
    }
  }

  // ---------------------------------------------------------------- the challenge slot

  function SlotInput(jti: Uuid, nonce: Text): seq<byte> {
    Bytes(ECHO_DOMAIN) + [0] + (jti.bytes + nonce)
  }

  /** The store's key for a challenge: the first sixteen bytes of a hash, taken not to collide. */
  function EchoSlot(jti: Uuid, nonce: Text): Nonce {
    Nonce(SlotInput(jti, nonce))
  }

  /** An answer that names another token, or another nonce, looks in another slot. */
  lemma {:induction false} EchoSlotInjective(jti: Uuid, nonce: Text, jti': Uuid, nonce': Text)
    requires |jti.bytes| == |jti'.bytes| && EchoSlot(jti, nonce) == EchoSlot(jti', nonce')
    ensures jti == jti' && nonce == nonce'
  {
    hide Bytes;
    var d := Bytes(ECHO_DOMAIN) + [0];
    assert SlotInput(jti, nonce)[|d|..] == jti.bytes + nonce;
    assert SlotInput(jti', nonce')[|d|..] == jti'.bytes + nonce';
    assert (jti.bytes + nonce)[..|jti.bytes|] == jti.bytes && (jti.bytes + nonce)[|jti.bytes|..] == nonce;
    assert (jti'.bytes + nonce')[..|jti'.bytes|] == jti'.bytes && (jti'.bytes + nonce')[|jti'.bytes|..] == nonce';
  }

  // ---------------------------------------------------------------- messages

  datatype MessageType = PopChallengeMessage | PopResponseMessage | OtherMessage

  /** A signed envelope; `signedBy` is the key its signature verifies under, over all its members. */
  datatype Envelope<P> = Envelope(messageType: MessageType, sender: string, payload: P, signedBy: Option<RawKey>)

  datatype ChallengePayload = ChallengePayload(jti: Uuid, nonce: Text)

  datatype PopResponse = PopResponse(jti: Uuid, nonceEcho: Text, popSignature: Option<Signature>)

  /** The token, and the answer's envelope if it and its payload parse. */
  datatype EchoRequest = EchoRequest(tct: Token, answer: Option<Envelope<PopResponse>>)

  /** The holder's half: check the peer's challenge and answer it under the key of `aid`. */
  function Respond(env: Env, aid: string, peerAid: string, jti: Uuid, challenge: Envelope<Option<ChallengePayload>>)
    : Result<Envelope<PopResponse>, string>
    requires IsAid(aid) && IsAid(peerAid)
  {
    if challenge.messageType != PopChallengeMessage then Err("not a pop_challenge")
    else if challenge.sender != peerAid then Err("not from the peer")
    else if !env.keys.usable(KeyOf(peerAid)) then Err("the peer's key")
    else if challenge.signedBy != Some(KeyOf(peerAid)) then Err("the challenge signature")
    else if challenge.payload.None? then Err("malformed payload")
    else if challenge.payload.value.jti != jti then Err("a different TCT")
    else
      var nonce := challenge.payload.value.nonce;
      match env.decode(nonce)
      case None => Err("the nonce")
      case Some(raw) =>
        var response := PopResponse(jti, nonce, Some(Signed(KeyOf(aid), Sha256(raw))));
        Ok(Envelope(PopResponseMessage, aid, response, Some(KeyOf(aid))))
  }

  /** What the holder asks of a challenge before it signs anything, in order. */
  ghost function ChallengeRules(env: Env, peerAid: string, jti: Uuid, challenge: Envelope<Option<ChallengePayload>>)
    : seq<Rule<string>>
    requires IsAid(peerAid)
  {
    var p := challenge.payload;
    [ Rule(challenge.messageType == PopChallengeMessage, "not a pop_challenge"),
      Rule(challenge.sender == peerAid, "not from the peer"),
      Rule(env.keys.usable(KeyOf(peerAid)), "the peer's key"),
      Rule(challenge.signedBy == Some(KeyOf(peerAid)), "the challenge signature"),
      Rule(p.Some?, "malformed payload"),
      Rule(p.Some? ==> p.value.jti == jti, "a different TCT"),
      Rule(p.Some? ==> env.decode(p.value.nonce).Some?, "the nonce") ]
  }

  /**
   The holder signs only a challenge of the peer it talks to, for the token it presents; the answer
   echoes its nonce and holds the holder's own signature over it.
   */
  lemma {:induction false} RespondReports(env: Env, aid: string, peerAid: string, jti: Uuid,
                                          challenge: Envelope<Option<ChallengePayload>>)
    requires IsAid(aid) && IsAid(peerAid)
    ensures var r := Respond(env, aid, peerAid, jti, challenge);
      && Reports(ChallengeRules(env, peerAid, jti, challenge), r)
      && (r.Ok? ==>
            && challenge.payload.Some? && env.decode(challenge.payload.value.nonce).Some?
            && r.value.messageType == PopResponseMessage && r.value.sender == aid
               && r.value.signedBy == Some(KeyOf(aid))
            && r.value.payload.jti == jti && r.value.payload.nonceEcho == challenge.payload.value.nonce
            && r.value.payload.popSignature
               == Some(Signed(KeyOf(aid), Sha256(env.decode(challenge.payload.value.nonce).value))))
  {
    hide IsAid, KeyOf, AllHold, FailsFirst;
    var rules := ChallengeRules(env, peerAid, jti, challenge);
    if Respond(env, aid, peerAid, jti, challenge).Ok? {
      NoFault(rules);
    } else {
      FirstFault(rules, if !rules[0].holds then 0 else if !rules[1].holds then 1 else if !rules[2].holds then 2
                        else if !rules[3].holds then 3 else if !rules[4].holds then 4
                        else if !rules[5].holds then 5 else 6);
    }
  }

  /** The steps of `verify_pop_response` that can fail once the nonce echoed is the one looked up. */
  predicate PopHolds(env: Env, r: PopResponse, c: Claims)
    requires IsAid(c.sub)
  {
    && r.jti == c.jti
    && env.keys.usable(KeyOf(c.sub)) && c.jkt == env.keys.thumbprint(KeyOf(c.sub))
    && env.decode(r.nonceEcho).Some? && r.popSignature.Some?
    && Verifies(KeyOf(c.sub), Sha256(env.decode(r.nonceEcho).value), r.popSignature.value)
  }

  /** What happens once the challenge is used up. */
  function Judge(env: Env, answer: Envelope<PopResponse>, c: Claims, revoked: set<Uuid>): Result<Claims, Code>
    requires IsAid(c.sub)
  {
    if answer.messageType != PopResponseMessage then Err(PopResponseInvalid)
    else if answer.sender != c.sub then Err(PopResponseInvalid)
    else if !env.keys.usable(KeyOf(c.sub)) then Err(PopResponseInvalid)
    else if answer.signedBy != Some(KeyOf(c.sub)) then Err(PopResponseInvalid)
    else if !PopHolds(env, answer.payload, c) then Err(PopResponseInvalid)
    else if c.jti in revoked then Err(TctRevoked)
    else Ok(c)
  }

  // ---------------------------------------------------------------- the peer

  datatype PeerConfig = PeerConfig(aid: string, revoked: set<Uuid>)

  datatype Reply = Challenge(envelope: Envelope<Option<ChallengePayload>>) | NoChallenge(code: Code)

  function ChallengeRecord(c: PeerConfig, claims: Claims, nonce: Text, now: Timestamp): IssuedNonce {
    IssuedNonce(EchoSlot(claims.jti, nonce), c.aid, now, SaturatingAdd(now, CHALLENGE_TTL))
  }

  ghost predicate ChallengeStep(env: Env, c: PeerConfig, before: Records, after: Records, tct: Token, nonce: Text,
                                now: Timestamp, reply: Reply)
    requires Decoded(tct) && IsAid(c.aid)
  {
    match VerifyOwnTct(env.keys, tct, c.aid, now)
    case Err(code) => reply == NoChallenge(code) && after == before
    case Ok(claims) =>
      exists outcome ::
        && IssueStep(before, after, ChallengeRecord(c, claims, nonce, now), outcome)
        && reply == (if outcome == Issued
                     then Challenge(Envelope(PopChallengeMessage, c.aid, Some(ChallengePayload(claims.jti, nonce)),
                                             Some(KeyOf(c.aid))))
                     else NoChallenge(EchoBusy))
  }

  /** The challenge goes before the answer is looked at: any answer, right or wrong, uses it up. */
  ghost predicate EchoStep(env: Env, c: PeerConfig, before: Records, after: Records, request: EchoRequest,
                           now: Timestamp, result: Result<Claims, Code>)
    requires Decoded(request.tct) && IsAid(c.aid)
  {
    match VerifyOwnTct(env.keys, request.tct, c.aid, now)
    case Err(code) => result == Err(code) && after == before
    case Ok(claims) =>
      if request.answer.None? then result == Err(PopResponseInvalid) && after == before
      else
        var answer := request.answer.value;
        IsAid(claims.sub) &&
        exists outcome ::
          && ConsumeStep(before, after, EchoSlot(claims.jti, answer.payload.nonceEcho), c.aid, now, outcome)
          && result == (match outcome
                        case Consumed => Judge(env, answer, claims, c.revoked)
                        case Expired => Err(PopChallengeInvalid)
                        case Unknown => Err(PopResponseInvalid))
  }

  /** The answer is the token's subject speaking, and holds a signature of the subject's key over the nonce. */
  ghost predicate Proves(env: Env, answer: Envelope<PopResponse>, c: Claims)
    requires IsAid(c.sub)
  {
    var nonce := env.decode(answer.payload.nonceEcho);
    && answer.messageType == PopResponseMessage && answer.sender == c.sub
    && env.keys.usable(KeyOf(c.sub)) && answer.signedBy == Some(KeyOf(c.sub))
    && answer.payload.jti == c.jti && c.jkt == env.keys.thumbprint(KeyOf(c.sub))
    && nonce.Some? && answer.payload.popSignature.Some?
    && Verifies(KeyOf(c.sub), Sha256(nonce.value), answer.payload.popSignature.value)
  }

  /**
   Once the token stands, the code says what is wrong with the answer: no challenge of this peer's is
   outstanding for it, its time is over, it proves nothing, or, last of all, the token is revoked.
   */
  lemma {:induction false} EchoReports(env: Env, c: PeerConfig, before: Records, after: Records, request: EchoRequest,
                                       now: Timestamp, result: Result<Claims, Code>, claims: Claims)
    requires Decoded(request.tct) && IsAid(c.aid) && IsAid(claims.sub)
    requires VerifyOwnTct(env.keys, request.tct, c.aid, now) == Ok(claims)
    requires EchoStep(env, c, before, after, request, now, result)
    ensures request.answer.None? ==> result == Err(PopResponseInvalid)
    ensures request.answer.Some? ==>
      var answer := request.answer.value;
      var slot := EchoSlot(claims.jti, answer.payload.nonceEcho);
      result == if slot !in before || before[slot].verifier != c.aid then Err(PopResponseInvalid)
                else if before[slot].expiresAt < now then Err(PopChallengeInvalid)
                else if !Proves(env, answer, claims) then Err(PopResponseInvalid)
                else if claims.jti in c.revoked then Err(TctRevoked)
                else Ok(claims)
  {
    hide VerifyOwnTct, IsAid, KeyOf, EchoSlot, Decoded;
  }

  lemma {:induction false} OwnClaimsDecoded(keys: Keys, token: Token, selfAid: string, now: Timestamp)
    requires Decoded(token) && IsAid(selfAid) && VerifyOwnTct(keys, token, selfAid, now).Ok?
    ensures var c := VerifyOwnTct(keys, token, selfAid, now).value; IsAid(c.sub) && |c.jti.bytes| == 16
  {
    hide IsAid;
    OwnTctAccepted(keys, token, selfAid, now, VerifyOwnTct(keys, token, selfAid, now).value);
    hide VerifyTct;
  }

  class Peer {
    const aid: string
    const revoked: set<Uuid>
    const nonces: InMemoryNonceStore

    function Config(): PeerConfig {
      PeerConfig(aid, revoked)
    }

    ghost predicate Valid()
      reads this, nonces, nonces.shards
    {
      IsAid(aid) && nonces.Valid()
    }

    constructor (aid: string, revoked: set<Uuid>, nonces: InMemoryNonceStore)
      requires IsAid(aid) && nonces.Valid()
      ensures Valid() && this.aid == aid && this.revoked == revoked && this.nonces == nonces
    {
      this.aid, this.revoked, this.nonces := aid, revoked, nonces;
    }

    /** `POST /echo/challenge`; `nonce` is the text of sixteen fresh random bytes. */
    method EchoChallenge(env: Env, tct: Token, nonce: Text, now: Timestamp) returns (reply: Reply)
      requires Valid() && Decoded(tct)
      modifies nonces, nonces.shards
      ensures Valid()
      ensures ChallengeStep(env, Config(), old(nonces.records), nonces.records, tct, nonce, now, reply)
    {
      hide VerifyOwnTct, IsAid, IssueStep, Decoded;
      var claims := VerifyOwnTct(env.keys, tct, aid, now);
      if claims.Err? {
        return NoChallenge(claims.error);
      }
      var outcome := nonces.Issue(ChallengeRecord(Config(), claims.value, nonce, now));
      if outcome == Issued {
        reply := Challenge(Envelope(PopChallengeMessage, aid, Some(ChallengePayload(claims.value.jti, nonce)),
                                    Some(KeyOf(aid))));
      } else {
        reply := NoChallenge(EchoBusy);
      }
    }

    /** `POST /echo`. */
    method CheckEcho(env: Env, request: EchoRequest, now: Timestamp) returns (result: Result<Claims, Code>)
      requires Valid() && Decoded(request.tct)
      modifies nonces, nonces.shards
      ensures Valid()
      ensures EchoStep(env, Config(), old(nonces.records), nonces.records, request, now, result)
    {
      hide VerifyOwnTct, IsAid, ConsumeStep, Decoded, Judge;
      var own := VerifyOwnTct(env.keys, request.tct, aid, now);
      if own.Err? {
        return Err(own.error);
      }
      var claims := own.value;
      OwnClaimsDecoded(env.keys, request.tct, aid, now);
      if request.answer.None? {
        return Err(PopResponseInvalid);
      }
      var answer := request.answer.value;
      var outcome := nonces.Consume(EchoSlot(claims.jti, answer.payload.nonceEcho), aid, now);
      match outcome {
        case Consumed => result := Judge(env, answer, claims, revoked);
        case Expired => result := Err(PopChallengeInvalid);
        case Unknown => result := Err(PopResponseInvalid);
      }
    }
  }
}
