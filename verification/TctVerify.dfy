/**
 Verification of a Trust Context Token, in the order the verifier checks it.

 A token is a text; what each decoder makes of that text is recorded beside it,
 so everything here is a function of the text alone. Nothing in this module
 trusts a claim before the step that checks it.
 */
module TctVerify {
  import opened Basics
  import opened Aids

  const PROTOCOL_VERSION := "aitp/0.3"
  const TYP_TCT := "aitp-tct+jwt"
  const ATTESTATION_GRANT := "aitp.attestation"

  datatype Uuid = Uuid(bytes: seq<byte>)

  datatype Claims = Claims(
    ver: string,
    jti: Uuid,
    iss: string,
    sub: string,
    aud: string,
    iat: Timestamp,
    exp: Timestamp,
    grants: seq<string>,
    jkt: string)

  datatype Header = Header(alg: string, typ: string)

  /** What the JSON decoders make of a payload's bytes. */
  datatype Payload =
    /** Whether the duplicate-key scan, which stops at the end of the first value, finds no fault. */
    | NotJson(scans: bool)
    | Json(
        isObject: bool,
        duplicateKey: bool,
        unknownMember: bool,
        /** The `jti` member is a string not in the strict v4 layout. */
        jtiNotV4: bool,
        /** The `sub` member, when it is a string. */
        sub: Option<string>,
        /** The typed claims; otherwise whether the failure was an unknown nested member. */
        claims: Result<Claims, bool>)

  /** What the compact-JWS parser makes of a token's text. */
  datatype Token =
    | NotThreeSegments(text: string)
    | Jws(
        text: string,
        /** The unverified peek at the header's `typ`. */
        peekTyp: Option<string>,
        /** The strict header, exactly `alg` and `typ`. */
        header: Option<Header>,
        payload: Option<Payload>,
        /** The keys under which the signature verifies over the exact bytes; none if it does not decode. */
        signers: Option<set<RawKey>>)

  /** The decoders agree: a strict header peeks as itself; typed claims come from an object and hold valid AIDs. */
  predicate Decoded(token: Token) {
    && (token.Jws? && token.header.Some? ==> token.peekTyp == Some(token.header.value.typ))
    && ClaimsDecoded(token)
  }

  predicate ClaimsDecoded(token: Token) {
    token.Jws? && token.payload.Some? && token.payload.value.Json? && token.payload.value.claims.Ok? ==>
      var p := token.payload.value;
      var c := p.claims.value;
      && p.isObject && p.sub == Some(c.sub)
      && IsAid(c.iss) && IsAid(c.sub) && IsAid(c.aud) && |c.jti.bytes| == 16
  }

  /** Which key texts are points of their curve, and each key's RFC 7638 thumbprint. */
  datatype Keys = Keys(usable: RawKey -> bool, thumbprint: RawKey -> string)

  datatype CryptoError = JwsMalformed | TypMismatch | AlgMismatch | BadKey | SignatureInvalid

  datatype TctError =
    | Crypto(error: CryptoError)
    | UnknownField | ClaimsMalformed | JtiNotV4 | VersionUnknown | IssuerMismatch | AudienceMismatch
    | SelfIssued | AttestationMarker | Expired | ExpiresAfterManifest | EmptyGrants | CnfMalformed
    | Revoked | RevocationUnavailable | SafeSubsetEmpty

  datatype RevocationStatus = Clear | IsRevoked | SafeSubset(grants: set<string>) | StatusUnavailable

  datatype RevocationSource = Check(lookup: (string, Uuid, Timestamp) -> RevocationStatus) | FailOpen | SelfAttestation

  datatype Context = Context(
    expectedAudience: string,
    issuer: string,
    now: Timestamp,
    manifestExpiresAt: Option<Timestamp>,
    clockSkew: nat,
    revocation: RevocationSource)

  datatype Verified = Verified(claims: Claims, effectiveGrants: seq<string>)

  function JoseAlg(a: Algorithm): string {
    match a
    case Ed25519 => "EdDSA"
    case P256 => "ES256"
  }

  function SaturatingSub(t: Timestamp, seconds: nat): Timestamp {
    if t - seconds < I64_MIN then I64_MIN else t - seconds
  }

  // ---------------------------------------------------------------- the verifier

  /** The checks on the unverified peek, made only when the peeked `typ` matches. */
  function PeekError(token: Token): Option<TctError>
    requires token.Jws? && token.peekTyp == Some(TYP_TCT)
  {
    match token.payload
    case None => Some(Crypto(JwsMalformed))
    case Some(NotJson(scans)) => if scans then None else Some(ClaimsMalformed)
    case Some(Json(_, duplicateKey, unknownMember, jtiNotV4, _, _)) =>
      if duplicateKey then Some(ClaimsMalformed)
      else if unknownMember then Some(UnknownField)
      else if jtiNotV4 then Some(JtiNotV4)
      else None
  }

  /** Strict parse, then `typ`, then the pinned `alg`, then the key, then the signature. */
  function VerifyCompact(keys: Keys, signer: string, token: Token): Result<Payload, CryptoError>
    requires IsAid(signer)
  {
    match token
    case NotThreeSegments(_) => Err(JwsMalformed)
    case Jws(_, _, header, payload, signers) =>
      if header.None? || payload.None? || signers.None? then Err(JwsMalformed)
      else if header.value.typ != TYP_TCT then Err(TypMismatch)
      else if header.value.alg != JoseAlg(AlgorithmOf(signer)) then Err(AlgMismatch)
      else if !keys.usable(KeyOf(signer)) then Err(BadKey)
      else if KeyOf(signer) !in signers.value then Err(SignatureInvalid)
      else if payload.value.NotJson? || !payload.value.isObject then Err(JwsMalformed)
      else Ok(payload.value)
  }

  /** The audience checks, and the two rules that keep attestations from conferring grants. */
  function AudienceError(c: Claims, expectedAudience: string): Option<TctError> {
    if c.aud != expectedAudience then Some(AudienceMismatch)
    else if c.aud != c.sub then Some(AudienceMismatch)
    else if c.iss == c.sub then Some(SelfIssued)
    else if ATTESTATION_GRANT in c.grants then Some(AttestationMarker)
    else None
  }

  function FreshnessError(c: Claims, ctx: Context): Option<TctError> {
    if c.exp < SaturatingSub(ctx.now, ctx.clockSkew) then Some(Expired)
    else if c.iat > SaturatingAdd(ctx.now, ctx.clockSkew) then Some(Expired)
    else if ctx.manifestExpiresAt.Some? && c.exp > ctx.manifestExpiresAt.value then Some(ExpiresAfterManifest)
    else None
  }

  function BindingError(keys: Keys, c: Claims): Option<TctError>
    requires IsAid(c.sub)
  {
    if c.grants == [] then Some(EmptyGrants)
    else if !keys.usable(KeyOf(c.sub)) then Some(Crypto(BadKey))
    else if c.jkt != keys.thumbprint(KeyOf(c.sub)) then Some(CnfMalformed)
    else None
  }

  function Or(a: Option<TctError>, b: Option<TctError>): Option<TctError> {
    if a.Some? then a else b
  }

  function VerifyBeforeRevocation(keys: Keys, token: Token, ctx: Context): Result<Claims, TctError>
    requires Decoded(token) && IsAid(ctx.issuer)
  {
    var peek := if token.Jws? && token.peekTyp == Some(TYP_TCT) then PeekError(token) else None;
    if peek.Some? then Err(peek.value)
    else match VerifyCompact(keys, ctx.issuer, token)
      case Err(e) => Err(Crypto(e))
      case Ok(payload) =>
        match payload.claims
        case Err(nested) => Err(if nested then UnknownField else ClaimsMalformed)
        case Ok(c) =>
          var e := ClaimsError(keys, c, ctx);
          if e.Some? then Err(e.value) else Ok(c)
  }

  function ClaimsError(keys: Keys, c: Claims, ctx: Context): Option<TctError>
    requires IsAid(c.sub)
  {
    if c.ver != PROTOCOL_VERSION then Some(VersionUnknown)
    else if c.iss != ctx.issuer then Some(IssuerMismatch)
    else Or(AudienceError(c, ctx.expectedAudience), Or(FreshnessError(c, ctx), BindingError(keys, c)))
  }

  predicate IsSelfAttestation(c: Claims) {
    c.sub == c.iss && c.aud == c.iss && c.grants == [ATTESTATION_GRANT]
  }

  function Narrowed(grants: seq<string>, safe: set<string>): seq<string> {
    if grants == [] then []
    else if grants[0] in safe then [grants[0]] + Narrowed(grants[1..], safe)
    else Narrowed(grants[1..], safe)
  }

  function CheckRevocation(source: RevocationSource, c: Claims, now: Timestamp): Result<seq<string>, TctError> {
    match source
    case FailOpen => Ok(c.grants)
    case SelfAttestation => if IsSelfAttestation(c) then Ok(c.grants) else Err(RevocationUnavailable)
    case Check(lookup) =>
      match lookup(c.iss, c.jti, now)
      case Clear => Ok(c.grants)
      case IsRevoked => Err(Revoked)
      case StatusUnavailable => Err(RevocationUnavailable)
      case SafeSubset(safe) =>
        var kept := Narrowed(c.grants, safe);
        if kept == [] then Err(SafeSubsetEmpty) else Ok(kept)
  }

  function VerifyTct(keys: Keys, token: Token, ctx: Context): Result<Verified, TctError>
    requires Decoded(token) && IsAid(ctx.issuer)
  {
    match VerifyBeforeRevocation(keys, token, ctx)
    case Err(e) => Err(e)
    case Ok(c) =>
      match CheckRevocation(ctx.revocation, c, ctx.now)
      case Err(e) => Err(e)
      case Ok(grants) => Ok(Verified(c, grants))
  }

  // ---------------------------------------------------------------- what acceptance means

  /** Everything that can be said of a token from its text: it is a well-formed TCT its issuer signed. */
  predicate Genuine(keys: Keys, token: Token, c: Claims)
    requires Decoded(token)
  {
    && token.Jws? && token.header.Some? && token.payload.Some? && token.signers.Some?
    && token.header.value.typ == TYP_TCT
    && token.payload.value.Json? && token.payload.value.claims == Ok(c)
    && !token.payload.value.duplicateKey && !token.payload.value.unknownMember && !token.payload.value.jtiNotV4
    && token.header.value.alg == JoseAlg(AlgorithmOf(c.iss))
    && keys.usable(KeyOf(c.iss)) && KeyOf(c.iss) in token.signers.value
    && c.ver == PROTOCOL_VERSION
    && c.aud == c.sub && c.iss != c.sub
    && ATTESTATION_GRANT !in c.grants && c.grants != []
    && keys.usable(KeyOf(c.sub)) && c.jkt == keys.thumbprint(KeyOf(c.sub))
  }

  /** In date at `now`, both ends inclusive, give or take the skew. */
  predicate InDate(c: Claims, ctx: Context) {
    && SaturatingSub(ctx.now, ctx.clockSkew) <= c.exp
    && c.iat <= SaturatingAdd(ctx.now, ctx.clockSkew)
    && (ctx.manifestExpiresAt.Some? ==> c.exp <= ctx.manifestExpiresAt.value)
  }

  predicate NotRevoked(source: RevocationSource, c: Claims, now: Timestamp, effective: seq<string>) {
    match source
    case FailOpen => effective == c.grants
    case SelfAttestation => false
    case Check(lookup) =>
      match lookup(c.iss, c.jti, now)
      case Clear => effective == c.grants
      case SafeSubset(safe) => effective == Narrowed(c.grants, safe) && effective != []
      case _ => false
  }

  /**
   A token is accepted exactly when it is genuine, from the expected issuer,
   for the expected audience, in date and not revoked.
   */
  lemma {:induction false} AcceptsExactly(keys: Keys, token: Token, ctx: Context, c: Claims, effective: seq<string>)
    requires Decoded(token) && IsAid(ctx.issuer)
    ensures VerifyTct(keys, token, ctx) == Ok(Verified(c, effective)) <==>
      && Genuine(keys, token, c)
      && c.iss == ctx.issuer && c.aud == ctx.expectedAudience
      && InDate(c, ctx)
      && NotRevoked(ctx.revocation, c, ctx.now, effective)
  {
    hide IsAid, KeyOf;
  }

  /** Revocation is looked at last: a token that fails anything else reports that, whatever its status. */
  lemma {:induction false} RevocationIsLast(keys: Keys, token: Token, ctx: Context)
    requires Decoded(token) && IsAid(ctx.issuer)
    requires VerifyTct(keys, token, ctx.(revocation := FailOpen)).Err?
    ensures VerifyTct(keys, token, ctx) == VerifyTct(keys, token, ctx.(revocation := FailOpen))
  {
    hide IsAid, KeyOf;
  }

  // ---------------------------------------------------------------- what a refusal says

  /** The claims a token carries, signed or not. */
  ghost predicate Carries(token: Token, c: Claims) {
    token.Jws? && token.payload.Some? && token.payload.value.Json? && token.payload.value.claims == Ok(c)
  }

  /** What section 7.2 of RFC-AITP-0005 asks of a token before its signature is looked at. */
  ghost function PeekChecks(token: Token): seq<Rule<TctError>> {
    var peeked := token.Jws? && token.peekTyp == Some("aitp-tct+jwt");
    var json := peeked && token.payload.Some? && token.payload.value.Json?;
    [ Rule(peeked ==> token.payload.Some?, Crypto(JwsMalformed)),
      Rule(peeked && token.payload.Some? ==>
            if token.payload.value.NotJson? then token.payload.value.scans
            else !token.payload.value.duplicateKey, ClaimsMalformed),
      Rule(json ==> !token.payload.value.unknownMember, UnknownField),
      Rule(json ==> !token.payload.value.jtiNotV4, JtiNotV4) ]
  }

  ghost function SignatureChecks(keys: Keys, issuer: string, token: Token): seq<Rule<CryptoError>>
    requires IsAid(issuer)
  {
    var parsed := token.Jws? && token.header.Some? && token.payload.Some? && token.signers.Some?;
    var alg := if AlgorithmOf(issuer) == Ed25519 then "EdDSA" else "ES256";
    [ Rule(parsed, JwsMalformed),
      Rule(parsed ==> token.header.value.typ == "aitp-tct+jwt", TypMismatch),
      Rule(parsed ==> token.header.value.alg == alg, AlgMismatch),
      Rule(keys.usable(KeyOf(issuer)), BadKey),
      Rule(parsed ==> KeyOf(issuer) in token.signers.value, SignatureInvalid),
      Rule(parsed ==> token.payload.value.Json? && token.payload.value.isObject, JwsMalformed) ]
  }

  ghost function ClaimChecks(keys: Keys, c: Claims, ctx: Context): seq<Rule<TctError>>
    requires IsAid(c.sub)
  {
    [ Rule(c.ver == "aitp/0.3", VersionUnknown),
      Rule(c.iss == ctx.issuer, IssuerMismatch),
      Rule(c.aud == ctx.expectedAudience && c.aud == c.sub, AudienceMismatch),
      Rule(c.iss != c.sub, SelfIssued),
      Rule("aitp.attestation" !in c.grants, AttestationMarker),
      Rule(ctx.now - ctx.clockSkew <= c.exp && c.iat <= ctx.now + ctx.clockSkew, Expired),
      Rule(ctx.manifestExpiresAt.Some? ==> c.exp <= ctx.manifestExpiresAt.value, ExpiresAfterManifest),
      Rule(|c.grants| > 0, EmptyGrants),
      Rule(keys.usable(KeyOf(c.sub)), Crypto(BadKey)),
      Rule(c.jkt == keys.thumbprint(KeyOf(c.sub)), CnfMalformed) ]
  }

  /** A self-attestation is never a grant: by then the issuer is not the subject. */
  ghost function RevocationChecks(source: RevocationSource, c: Claims, now: Timestamp): seq<Rule<TctError>> {
    var status := if source.Check? then source.lookup(c.iss, c.jti, now)
                  else if source.FailOpen? then Clear else StatusUnavailable;
    [ Rule(status != IsRevoked, Revoked),
      Rule(status != StatusUnavailable, RevocationUnavailable),
      Rule(status.SafeSubset? ==> exists g :: g in c.grants && g in status.grants, SafeSubsetEmpty) ]
  }

  /** The grants an accepted token may exercise: its own, or those of them the source calls safe. */
  ghost predicate Exercises(source: RevocationSource, c: Claims, now: Timestamp, effective: seq<string>) {
    if source.Check? && source.lookup(c.iss, c.jti, now).SafeSubset? then
      var safe := source.lookup(c.iss, c.jti, now).grants;
      forall g :: multiset(effective)[g] == if g in safe then multiset(c.grants)[g] else 0
    else effective == c.grants
  }

  ghost predicate SignatureHolds(token: Token) {
    token.Jws? && token.payload.Some? && token.payload.value.Json?
  }

  /** A compact JWS is refused for the first of these rules it breaks. */
  lemma {:induction false} SignatureReports(keys: Keys, issuer: string, token: Token)
    requires IsAid(issuer)
    ensures Reports(SignatureChecks(keys, issuer, token), VerifyCompact(keys, issuer, token))
  {
    hide IsAid, KeyOf, AlgorithmOf, FailsFirst, AllHold;
    var checks, r := SignatureChecks(keys, issuer, token), VerifyCompact(keys, issuer, token);
    if r.Ok? {
      NoFault(checks);
    } else {
      var i := if !checks[0].holds then 0 else if !checks[1].holds then 1 else if !checks[2].holds then 2
               else if !checks[3].holds then 3 else if !checks[4].holds then 4 else 5;
      FirstFault(checks, i);
    }
  }

  lemma {:induction false} PeekReports(token: Token)
    ensures var checks := PeekChecks(token);
      var e := if token.Jws? && token.peekTyp == Some(TYP_TCT) then PeekError(token) else None;
      if AllHold(checks) then e.None? else e.Some? && FailsFirst(checks, e.value)
  {
    hide FailsFirst, AllHold;
    var checks := PeekChecks(token);
    var e := if token.Jws? && token.peekTyp == Some(TYP_TCT) then PeekError(token) else None;
    if e.None? {
      NoFault(checks);
    } else {
      FirstFault(checks, if !checks[0].holds then 0 else if !checks[1].holds then 1
                         else if !checks[2].holds then 2 else 3);
    }
  }

  lemma {:induction false} ClaimsReport(keys: Keys, c: Claims, ctx: Context)
    requires IsAid(c.sub)
    ensures var checks := ClaimChecks(keys, c, ctx);
      var e := ClaimsError(keys, c, ctx);
      if AllHold(checks) then e.None? else e.Some? && FailsFirst(checks, e.value)
  {
    hide IsAid, KeyOf, FailsFirst, AllHold;
    var checks := ClaimChecks(keys, c, ctx);
    if ClaimsError(keys, c, ctx).None? {
      NoFault(checks);
    } else {
      FirstFault(checks,
        if !checks[0].holds then 0 else if !checks[1].holds then 1 else if !checks[2].holds then 2
        else if !checks[3].holds then 3 else if !checks[4].holds then 4 else if !checks[5].holds then 5
        else if !checks[6].holds then 6 else if !checks[7].holds then 7 else if !checks[8].holds then 8 else 9);
    }
  }

  lemma {:induction false} RevocationReports(source: RevocationSource, c: Claims, now: Timestamp)
    requires c.grants != [] && c.iss != c.sub
    ensures Reports(RevocationChecks(source, c, now), CheckRevocation(source, c, now))
  {
    hide FailsFirst, AllHold;
    var checks := RevocationChecks(source, c, now);
    if source.Check? && source.lookup(c.iss, c.jti, now).SafeSubset? {
      NarrowedKeeps(c.grants, source.lookup(c.iss, c.jti, now).grants);
    }
    if CheckRevocation(source, c, now).Ok? {
      NoFault(checks);
    } else {
      FirstFault(checks, if !checks[0].holds then 0 else if !checks[1].holds then 1 else 2);
    }
  }

  /** Narrowing keeps the safe grants, as often as they are granted. */
  lemma {:induction false} NarrowedKeeps(grants: seq<string>, safe: set<string>)
    ensures forall g :: multiset(Narrowed(grants, safe))[g] == if g in safe then multiset(grants)[g] else 0
    ensures Narrowed(grants, safe) == [] <==> forall g :: g in grants ==> g !in safe
  {
    if grants != [] {
      NarrowedKeeps(grants[1..], safe);
      assert grants == [grants[0]] + grants[1..];
    }
  }

  /** And in order: each part of the list is narrowed by itself. */
  lemma {:induction false} NarrowedKeepsOrder(a: seq<string>, b: seq<string>, safe: set<string>)
    ensures Narrowed(a + b, safe) == Narrowed(a, safe) + Narrowed(b, safe)
  {
    if a == [] {
      assert a + b == b;
    } else {
      NarrowedKeepsOrder(a[1..], b, safe);
      assert (a + b)[1..] == a[1..] + b;
    }
  }

  lemma {:induction false} VerifySteps(keys: Keys, token: Token, ctx: Context)
    requires Decoded(token) && IsAid(ctx.issuer)
    ensures var peek := if token.Jws? && token.peekTyp == Some(TYP_TCT) then PeekError(token) else None;
      var sig, r := VerifyCompact(keys, ctx.issuer, token), VerifyTct(keys, token, ctx);
      if peek.Some? then r == Err(peek.value)
      else if sig.Err? then r == Err(Crypto(sig.error))
      else
        SignatureHolds(token) && sig.value == token.payload.value
        && match sig.value.claims
           case Err(nested) => r == Err(if nested then UnknownField else ClaimsMalformed)
           case Ok(c) =>
             var e := ClaimsError(keys, c, ctx);
             if e.Some? then r == Err(e.value)
             else
               var grants := CheckRevocation(ctx.revocation, c, ctx.now);
               r == if grants.Err? then Err(grants.error) else Ok(Verified(c, grants.value))
  {
    hide IsAid, KeyOf, PeekError, CheckRevocation, ClaimsError;
  }

  lemma {:induction false} GrantReports(keys: Keys, c: Claims, ctx: Context)
    requires IsAid(c.sub)
    ensures var checks := ClaimChecks(keys, c, ctx) + RevocationChecks(ctx.revocation, c, ctx.now);
      var e, grants := ClaimsError(keys, c, ctx), CheckRevocation(ctx.revocation, c, ctx.now);
      if e.Some? then Reports(checks, Result<seq<string>, TctError>.Err(e.value))
      else Reports(checks, grants) && (grants.Ok? ==> Exercises(ctx.revocation, c, ctx.now, grants.value))
  {
    hide IsAid, KeyOf, AllHold, FailsFirst, ClaimsError;
    var first, last := ClaimChecks(keys, c, ctx), RevocationChecks(ctx.revocation, c, ctx.now);
    ClaimsReport(keys, c, ctx);
    ChecksInTurn(first, last);
    if AllHold(first) {
      HoldsAt(first, 3);
      HoldsAt(first, 7);
      RevocationReports(ctx.revocation, c, ctx.now);
      if ctx.revocation.Check? && ctx.revocation.lookup(c.iss, c.jti, ctx.now).SafeSubset? {
        NarrowedKeeps(c.grants, ctx.revocation.lookup(c.iss, c.jti, ctx.now).grants);
      }
    }
  }

  lemma {:induction false} HoldsAt<E>(checks: seq<Rule<E>>, i: nat)
    requires AllHold(checks) && i < |checks|
    ensures checks[i].holds
  {
  }

  /** Once its signature stands, the rules on a token's claims come in turn, revocation last. */
  lemma {:induction false} TctReports(keys: Keys, token: Token, ctx: Context)
    requires Decoded(token) && IsAid(ctx.issuer)
    ensures var r := VerifyTct(keys, token, ctx);
      if !AllHold(PeekChecks(token)) then
        r.Err? && FailsFirst(PeekChecks(token), r.error)
      else if !AllHold(SignatureChecks(keys, ctx.issuer, token)) then
        r.Err? && r.error.Crypto? && FailsFirst(SignatureChecks(keys, ctx.issuer, token), r.error.error)
      else
        SignatureHolds(token)
        && match token.payload.value.claims
           case Err(nested) => r == Err(if nested then UnknownField else ClaimsMalformed)
           case Ok(c) =>
             Reports(ClaimChecks(keys, c, ctx) + RevocationChecks(ctx.revocation, c, ctx.now), r)
             && (r.Ok? ==> r.value.claims == c && Exercises(ctx.revocation, c, ctx.now, r.value.effectiveGrants))
  {
    hide IsAid, KeyOf, AllHold, FailsFirst, VerifyTct, VerifyCompact, PeekError, PeekChecks, SignatureChecks,
      ClaimChecks,
      RevocationChecks, ClaimsError, CheckRevocation, Exercises;
    PeekReports(token);
    SignatureReports(keys, ctx.issuer, token);
    VerifySteps(keys, token, ctx);
    if SignatureHolds(token) && token.payload.value.claims.Ok? {
      GrantReports(keys, token.payload.value.claims.value, ctx);
    }
  }

}
