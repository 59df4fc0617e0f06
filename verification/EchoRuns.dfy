/** Runs of one interop peer's echo protocol: any interleaving of challenges and answers, by anyone. */
module EchoRuns {
  import opened Basics
  import opened Aids
  import opened Signatures
  import opened NonceStore
  import opened TctVerify
  import opened Echo

  datatype Event =
    | Asked(tct: Token, nonce: Text, now: Timestamp, reply: Reply)
    | Answered(request: EchoRequest, now: Timestamp, result: Result<Claims, Code>)

  function TokenOf(e: Event): Token {
    match e
    case Asked(tct, _, _, _) => tct
    case Answered(request, _, _) => request.tct
  }

  ghost predicate Step(env: Env, c: PeerConfig, before: Records, e: Event, after: Records)
    requires IsAid(c.aid) && Decoded(TokenOf(e))
  {
    match e
    case Asked(tct, nonce, now, reply) => ChallengeStep(env, c, before, after, tct, nonce, now, reply)
    case Answered(request, now, result) => EchoStep(env, c, before, after, request, now, result)
  }

  /** What JSON decoding ensures of every token that reaches the peer. */
  ghost predicate AllDecoded(events: seq<Event>) {
    forall i :: 0 <= i < |events| ==> Decoded(TokenOf(events[i]))
  }

  ghost predicate IsRun(env: Env, c: PeerConfig, stores: seq<Records>, events: seq<Event>) {
    && IsAid(c.aid) && AllDecoded(events) && |stores| == |events| + 1 && stores[0] == map[]
    && forall i :: 0 <= i < |events| ==> Step(env, c, stores[i], events[i], stores[i + 1])
  }

  // ---------------------------------------------------------------- issues, answers, successes

  /** The event issues a challenge in this slot. */
  predicate Issues(env: Env, c: PeerConfig, e: Event, slot: Nonce)
    requires IsAid(c.aid) && Decoded(TokenOf(e))
  {
    e.Asked? && e.reply.Challenge? &&
    var own := VerifyOwnTct(env.keys, e.tct, c.aid, e.now);
    own.Ok? && EchoSlot(own.value.jti, e.nonce) == slot
  }

  /** The event answers in this slot, rightly or wrongly: its token is valid and its answer parses. */
  predicate Answers(env: Env, c: PeerConfig, e: Event, slot: Nonce)
    requires IsAid(c.aid) && Decoded(TokenOf(e))
  {
    e.Answered? && e.request.answer.Some? &&
    var own := VerifyOwnTct(env.keys, e.request.tct, c.aid, e.now);
    own.Ok? && EchoSlot(own.value.jti, e.request.answer.value.payload.nonceEcho) == slot
  }

  predicate Succeeds(env: Env, c: PeerConfig, e: Event, slot: Nonce)
    requires IsAid(c.aid) && Decoded(TokenOf(e))
  {
    Answers(env, c, e, slot) && e.result.Ok?
  }

  function CountIssues(env: Env, c: PeerConfig, events: seq<Event>, slot: Nonce): nat
    requires IsAid(c.aid) && forall i :: 0 <= i < |events| ==> Decoded(TokenOf(events[i]))
  {
    if events == [] then 0
    else CountIssues(env, c, events[..|events| - 1], slot) + if Issues(env, c, events[|events| - 1], slot) then 1 else 0
  }

  function CountSuccesses(env: Env, c: PeerConfig, events: seq<Event>, slot: Nonce): nat
    requires IsAid(c.aid) && forall i :: 0 <= i < |events| ==> Decoded(TokenOf(events[i]))
  {
    if events == [] then 0
    else
      CountSuccesses(env, c, events[..|events| - 1], slot)
      + if Succeeds(env, c, events[|events| - 1], slot) then 1 else 0
  }

  // ---------------------------------------------------------------- one step, one slot

  /** What one event does to one slot. */
  lemma {:induction false} StepSlot(env: Env, c: PeerConfig, before: Records, e: Event, after: Records, slot: Nonce)
    requires IsAid(c.aid) && Decoded(TokenOf(e)) && Step(env, c, before, e, after)
    requires slot in before ==> before[slot].verifier == c.aid
    ensures Issues(env, c, e, slot) ==>
      !LiveAt(before, slot, e.now) && slot in after
      && after[slot] == Record(c.aid, SaturatingAdd(e.now, CHALLENGE_TTL))
    ensures Answers(env, c, e, slot) ==> slot !in after
    ensures Succeeds(env, c, e, slot) ==> LiveAt(before, slot, e.now)
    ensures !Issues(env, c, e, slot) && slot in after ==> slot in before && after[slot] == before[slot]
    ensures LiveAt(before, slot, e.now) && !Answers(env, c, e, slot) ==> slot in after && after[slot] == before[slot]
  {
    hide VerifyOwnTct, IsAid, Decoded, Judge, SlotInput;
    match e
    case Asked(tct, nonce, now, reply) =>
      AskedSlot(env, c, before, after, tct, nonce, now, reply, slot);
    case Answered(request, now, result) =>
  }

  lemma {:induction false} AskedSlot(env: Env, c: PeerConfig, before: Records, after: Records, tct: Token, nonce: Text,
                                     now: Timestamp, reply: Reply, slot: Nonce)
    requires IsAid(c.aid) && Decoded(tct) && ChallengeStep(env, c, before, after, tct, nonce, now, reply)
    ensures var e := Asked(tct, nonce, now, reply);
      && (Issues(env, c, e, slot) ==>
            !LiveAt(before, slot, now) && slot in after
            && after[slot] == Record(c.aid, SaturatingAdd(now, CHALLENGE_TTL)))
      && (!Issues(env, c, e, slot) && slot in after ==> slot in before && after[slot] == before[slot])
      && (LiveAt(before, slot, now) ==> slot in after && after[slot] == before[slot])
  {
    hide VerifyOwnTct, IsAid, Decoded, SlotInput;
    var own := VerifyOwnTct(env.keys, tct, c.aid, now);
    if own.Ok? {
      var rec := ChallengeRecord(c, own.value, nonce, now);
      if slot != rec.nonce {
        assert slot in after ==> slot in after - {rec.nonce};
        assert LiveAt(before, slot, now) ==> LiveAt(before - {rec.nonce}, slot, now);
      }
    }
  }

  /** In a run every record in the store is this peer's own. */
  lemma {:induction false} RecordsAreOwn(env: Env, c: PeerConfig, stores: seq<Records>, events: seq<Event>, k: nat,
                                         slot: Nonce)
    requires IsRun(env, c, stores, events) && k <= |events| && slot in stores[k]
    ensures stores[k][slot].verifier == c.aid
  {
    hide IsAid, Decoded, Issues, Answers;
    assert k > 0;
    var e := events[k - 1];
    assert Step(env, c, stores[k - 1], e, stores[k - 1 + 1]);
    if slot in stores[k - 1] {
      RecordsAreOwn(env, c, stores, events, k - 1, slot);
    }
    hide Step;
    StepSlot(env, c, stores[k - 1], e, stores[k], slot);
  }

  lemma {:induction false} RunStep(env: Env, c: PeerConfig, stores: seq<Records>, events: seq<Event>, k: nat,
                                   slot: Nonce)
    requires IsRun(env, c, stores, events) && k < |events|
    ensures Step(env, c, stores[k], events[k], stores[k + 1]) && Decoded(TokenOf(events[k]))
    ensures slot in stores[k] ==> stores[k][slot].verifier == c.aid
  {
    assert Step(env, c, stores[k], events[k], stores[k + 1]);
    if slot in stores[k] {
      RecordsAreOwn(env, c, stores, events, k, slot);
    }
  }

  /** Any answer with a valid token and a parseable response burns its slot, right or wrong. */
  lemma {:induction false} AnswerBurnsTheSlot(env: Env, c: PeerConfig, stores: seq<Records>, events: seq<Event>, k: nat,
                                              slot: Nonce)
    requires IsRun(env, c, stores, events) && k < |events|
    requires Answers(env, c, events[k], slot)
    ensures slot !in stores[k + 1]
  {
    hide IsAid, Decoded, Issues, Answers, Step;
    RunStep(env, c, stores, events, k, slot);
    StepSlot(env, c, stores[k], events[k], stores[k + 1], slot);
  }

  // ---------------------------------------------------------------- safety

  /** Event `j` issued the slot, good until `expiry`, and it was neither issued nor answered since. */
  ghost predicate IssuedAt(env: Env, c: PeerConfig, events: seq<Event>, j: int, k: int, slot: Nonce, expiry: Timestamp)
    requires IsAid(c.aid) && AllDecoded(events)
  {
    && 0 <= j < k <= |events| && Issues(env, c, events[j], slot)
    && expiry == SaturatingAdd(events[j].now, CHALLENGE_TTL)
    && forall m :: j < m < k ==> !Issues(env, c, events[m], slot) && !Answers(env, c, events[m], slot)
  }

  /** Every outstanding slot was issued, and nobody has answered in it since. */
  lemma {:induction false} SlotsAreIssued(env: Env, c: PeerConfig, stores: seq<Records>, events: seq<Event>, k: nat,
                                          slot: Nonce)
    requires IsRun(env, c, stores, events) && k <= |events| && slot in stores[k]
    ensures exists j :: IssuedAt(env, c, events, j, k, slot, stores[k][slot].expiresAt)
  {
    hide IsAid, Decoded, Issues, Answers;
    assert k > 0;
    RunStep(env, c, stores, events, k - 1, slot);
    hide Step;
    StepSlot(env, c, stores[k - 1], events[k - 1], stores[k], slot);
    if Issues(env, c, events[k - 1], slot) {
      assert IssuedAt(env, c, events, k - 1, k, slot, stores[k][slot].expiresAt);
    } else {
      SlotsAreIssued(env, c, stores, events, k - 1, slot);
      var j :| IssuedAt(env, c, events, j, k - 1, slot, stores[k - 1][slot].expiresAt);
      assert IssuedAt(env, c, events, j, k, slot, stores[k][slot].expiresAt);
    }
  }

  /** What a successful answer shows about the one who sent it. */
  ghost predicate ShowsPossession(env: Env, c: PeerConfig, e: Event, claims: Claims)
    requires Decoded(TokenOf(e)) && IsAid(claims.sub)
  {
    && e.Answered? && e.request.answer.Some?
    && Genuine(env.keys, e.request.tct, claims) && claims.iss == c.aid
    && claims.iat <= e.now <= claims.exp && ECHO_CAP in claims.grants && claims.jti !in c.revoked
    && var a := e.request.answer.value; var raw := env.decode(a.payload.nonceEcho);
      && a.sender == claims.sub && a.signedBy == Some(KeyOf(claims.sub)) && a.payload.jti == claims.jti
      && raw.Some? && a.payload.popSignature == Some(Signed(KeyOf(claims.sub), Sha256(raw.value)))
  }

  /**
   Over every interleaving, each success follows a challenge issued for that
   same token and nonce, in time, with no earlier answer to it, and shows that
   its sender holds the subject's key.
   */
  lemma {:induction false} SuccessIsAuthentic(env: Env, c: PeerConfig, stores: seq<Records>, events: seq<Event>, k: nat)
    requires IsRun(env, c, stores, events) && k < |events|
    requires events[k].Answered? && events[k].result.Ok?
    ensures events[k].request.answer.Some? && IsAid(events[k].result.value.sub)
    ensures ShowsPossession(env, c, events[k], events[k].result.value)
    ensures var claims := events[k].result.value;
      var slot := EchoSlot(claims.jti, events[k].request.answer.value.payload.nonceEcho);
      exists j, expiry :: IssuedAt(env, c, events, j, k, slot, expiry) && events[k].now <= expiry
        && ChallengedFor(env, c, events[j], claims.jti, events[k].request.answer.value.payload.nonceEcho)
  {
    hide IsAid, Decoded;
    var e := events[k];
    assert Step(env, c, stores[k], e, stores[k + 1]);
    hide VerifyOwnTct, Genuine, ConsumeStep, SlotInput;
    var claims := VerifyOwnTct(env.keys, e.request.tct, c.aid, e.now).value;
    OwnTctAccepted(env.keys, e.request.tct, c.aid, e.now, claims);
    OwnClaimsDecoded(env.keys, e.request.tct, c.aid, e.now);
    assert e.result == Ok(claims);
    var slot := EchoSlot(claims.jti, e.request.answer.value.payload.nonceEcho);
    assert Succeeds(env, c, e, slot);
    hide Step, Succeeds, Judge, PopHolds;
    RunStep(env, c, stores, events, k, slot);
    StepSlot(env, c, stores[k], e, stores[k + 1], slot);
    SlotsAreIssued(env, c, stores, events, k, slot);
    var j :| IssuedAt(env, c, events, j, k, slot, stores[k][slot].expiresAt);
    SlotNamesTheChallenge(env, c, events[j], claims.jti, e.request.answer.value.payload.nonceEcho);
  }

  /** The event issues a challenge for this token and with this nonce. */
  ghost predicate ChallengedFor(env: Env, c: PeerConfig, e: Event, jti: Uuid, nonce: Text)
    requires IsAid(c.aid) && Decoded(TokenOf(e))
  {
    e.Asked? && e.reply.Challenge? && e.nonce == nonce
    && var own := VerifyOwnTct(env.keys, e.tct, c.aid, e.now); own.Ok? && own.value.jti == jti
  }

  /** Only a challenge for the same token and nonce is issued in an answer's slot. */
  lemma {:induction false} SlotNamesTheChallenge(env: Env, c: PeerConfig, e: Event, jti: Uuid, nonce: Text)
    requires IsAid(c.aid) && Decoded(TokenOf(e)) && |jti.bytes| == 16
    requires Issues(env, c, e, EchoSlot(jti, nonce))
    ensures ChallengedFor(env, c, e, jti, nonce)
  {
    hide IsAid, Decoded, VerifyOwnTct, EchoSlot;
    OwnClaimsDecoded(env.keys, e.tct, c.aid, e.now);
    EchoSlotInjective(VerifyOwnTct(env.keys, e.tct, c.aid, e.now).value.jti, e.nonce, jti, nonce);
  }

  /** Successes in a slot, and the challenge still outstanding there, never exceed the challenges issued in it. */
  lemma {:induction false} SuccessesNeverExceedIssues(env: Env, c: PeerConfig, stores: seq<Records>, events: seq<Event>,
                                                      k: nat, slot: Nonce)
    requires IsRun(env, c, stores, events) && k <= |events|
    ensures CountSuccesses(env, c, events[..k], slot) + (if slot in stores[k] then 1 else 0)
            <= CountIssues(env, c, events[..k], slot)
  {
    hide IsAid, Decoded, Issues, Answers;
    if k > 0 {
      SuccessesNeverExceedIssues(env, c, stores, events, k - 1, slot);
      assert events[..k][..k - 1] == events[..k - 1];
      RunStep(env, c, stores, events, k - 1, slot);
      hide Step;
      StepSlot(env, c, stores[k - 1], events[k - 1], stores[k], slot);
      SuccessIsNoIssue(env, c, events[k - 1], slot);
    }
  }

  lemma {:induction false} SuccessIsNoIssue(env: Env, c: PeerConfig, e: Event, slot: Nonce)
    requires IsAid(c.aid) && Decoded(TokenOf(e))
    ensures !(Succeeds(env, c, e, slot) && Issues(env, c, e, slot))
  {
  }

  // ---------------------------------------------------------------- the honest holder gets through

  lemma {:induction false} ChallengeStands(env: Env, c: PeerConfig, stores: seq<Records>, events: seq<Event>, j: nat,
                                           k: nat, slot: Nonce)
    requires IsRun(env, c, stores, events) && j < k <= |events|
    requires Issues(env, c, events[j], slot)
    requires forall m :: j < m < k ==>
      events[m].now <= SaturatingAdd(events[j].now, CHALLENGE_TTL) && !Answers(env, c, events[m], slot)
    ensures slot in stores[k] && stores[k][slot] == Record(c.aid, SaturatingAdd(events[j].now, CHALLENGE_TTL))
  {
    hide IsAid, Decoded, Issues, Answers, Step;
    RunStep(env, c, stores, events, k - 1, slot);
    StepSlot(env, c, stores[k - 1], events[k - 1], stores[k], slot);
    if k > j + 1 {
      ChallengeStands(env, c, stores, events, j, k - 1, slot);
    }
  }

  /**
   The two halves fit: the holder's answer to the peer's own challenge is
   accepted, whoever else asks and answers meanwhile, as long as nobody with a
   valid token answers in that slot first and the challenge, the token and its
   revocation status allow it.
   */
  lemma {:induction false} HonestAnswerAccepted(env: Env, c: PeerConfig, stores: seq<Records>, events: seq<Event>,
                                                j: nat, k: nat, claims: Claims)
    requires IsRun(env, c, stores, events) && j < k < |events|
    requires events[j].Asked? && events[j].reply.Challenge? && IsAid(claims.sub)
    requires VerifyOwnTct(env.keys, events[j].tct, c.aid, events[j].now) == Ok(claims)
    requires env.keys.usable(KeyOf(c.aid)) && env.decode(events[j].nonce).Some?
    requires events[k].Answered? && events[k].request.tct == events[j].tct
    requires var answer := Respond(env, claims.sub, c.aid, claims.jti, events[j].reply.envelope);
      answer.Ok? ==> events[k].request.answer == Some(answer.value)
    requires forall m :: j < m <= k ==> events[m].now <= SaturatingAdd(events[j].now, CHALLENGE_TTL)
    requires forall m :: j < m < k ==> !Answers(env, c, events[m], EchoSlot(claims.jti, events[j].nonce))
    requires events[j].now <= events[k].now <= claims.exp && claims.jti !in c.revoked
    ensures Respond(env, claims.sub, c.aid, claims.jti, events[j].reply.envelope).Ok?
    ensures events[k].result == Ok(claims)
  {
    var slot := EchoSlot(claims.jti, events[j].nonce);
    hide IsAid, Decoded, Genuine, SlotInput, PeekedSub, VerifyTct;
    AskedReply(env, c, stores, events, j, claims);
    OwnTctAccepted(env.keys, events[j].tct, c.aid, events[j].now, claims);
    OwnTctAccepted(env.keys, events[j].tct, c.aid, events[k].now, claims);
    hide VerifyOwnTct, Answers;
    assert Issues(env, c, events[j], slot);
    hide Step;
    ChallengeStands(env, c, stores, events, j, k, slot);
    RunStep(env, c, stores, events, k, slot);
    SubjectKeyBound(env.keys, events[j].tct, claims);
    AnswerJudged(env, c, stores[k], events[k], stores[k + 1], claims, events[j].nonce);
  }

  lemma {:induction false} SubjectKeyBound(keys: Keys, token: Token, c: Claims)
    requires Decoded(token) && Genuine(keys, token, c)
    ensures IsAid(c.sub) && keys.usable(KeyOf(c.sub)) && c.jkt == keys.thumbprint(KeyOf(c.sub))
  {
    hide IsAid;
  }

  lemma {:induction false} AskedReply(env: Env, c: PeerConfig, stores: seq<Records>, events: seq<Event>, j: nat,
                                      claims: Claims)
    requires IsRun(env, c, stores, events) && j < |events|
    requires events[j].Asked? && events[j].reply.Challenge?
    requires VerifyOwnTct(env.keys, events[j].tct, c.aid, events[j].now) == Ok(claims)
    ensures events[j].reply.envelope ==
      Envelope(PopChallengeMessage, c.aid, Some(ChallengePayload(claims.jti, events[j].nonce)), Some(KeyOf(c.aid)))
  {
    hide VerifyOwnTct, IsAid, Decoded, IssueStep;
    assert Step(env, c, stores[j], events[j], stores[j + 1]);
  }

  lemma {:induction false} AnswerJudged(env: Env, c: PeerConfig, before: Records, e: Event, after: Records,
                                        claims: Claims, nonce: Text)
    requires IsAid(c.aid) && IsAid(claims.sub) && Decoded(TokenOf(e)) && Step(env, c, before, e, after) && e.Answered?
    requires VerifyOwnTct(env.keys, e.request.tct, c.aid, e.now) == Ok(claims) && claims.jti !in c.revoked
    requires env.keys.usable(KeyOf(claims.sub)) && claims.jkt == env.keys.thumbprint(KeyOf(claims.sub))
    requires env.decode(nonce).Some?
    requires e.request.answer == Some(Envelope(PopResponseMessage, claims.sub,
      PopResponse(claims.jti, nonce, Some(Signed(KeyOf(claims.sub), Sha256(env.decode(nonce).value)))),
      Some(KeyOf(claims.sub))))
    requires var slot := EchoSlot(claims.jti, nonce); LiveAt(before, slot, e.now) && before[slot].verifier == c.aid
    ensures e.result == Ok(claims)
  {
    hide VerifyOwnTct, IsAid, Decoded, SlotInput;
  }
}
