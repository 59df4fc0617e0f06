/**
 The bounded cache of successful TCT verifications, and the promise that goes
 with it: a caller cannot tell a cached verification from a plain one.
 */
module TctCache {
  import opened Basics
  import opened Aids
  import opened TctVerify

  // ---------------------------------------------------------------- plain verification

  /** How a binding call sources revocation status. */
  datatype BindingRevocation = DenyList(jtis: set<Uuid>) | Unavailable | ExplicitFailOpen

  datatype BindingError =
    | BadRevocationMode | BadDenyListEntry
    | MalformedJws | BadClaims | BadAudienceAid
    | Rejected(error: TctError) | MissingGrant
    | AudienceAndPop | BadChallenge | BadResponse | PopFailed

  datatype Identity = Identity(peerAid: string, grants: seq<string>, expiresAt: Timestamp, jti: Uuid)

  /** Deny-list entries, each parsed as a UUID in any text form, or not one at all. */
  function ParseEntries(entries: seq<Option<Uuid>>): Result<set<Uuid>, BindingError> {
    if entries == [] then Ok({})
    else if entries[0].None? then Err(BadDenyListEntry)
    else
      match ParseEntries(entries[1..])
      case Err(e) => Err(e)
      case Ok(rest) => Ok({entries[0].value} + rest)
  }

  function ParseRevoked(entries: Option<seq<Option<Uuid>>>,
                        mode: Option<string>): Result<BindingRevocation, BindingError> {
    var m := if mode.None? then "fail_closed" else mode.value;
    if m != "fail_closed" && m != "fail_open" then Err(BadRevocationMode)
    else match entries
      case None => Ok(if m == "fail_open" then ExplicitFailOpen else Unavailable)
      case Some(es) =>
        match ParseEntries(es)
        case Err(e) => Err(e)
        case Ok(jtis) => Ok(DenyList(jtis))
  }

  function JtiStatus(r: BindingRevocation, jti: Uuid): RevocationStatus {
    match r
    case DenyList(jtis) => if jti in jtis then IsRevoked else Clear
    case ExplicitFailOpen => Clear
    case Unavailable => StatusUnavailable
  }

  function Source(r: BindingRevocation): RevocationSource {
    if r.ExplicitFailOpen? then FailOpen
    else Check((iss: string, jti: Uuid, now: Timestamp) => JtiStatus(r, jti))
  }

  function UnverifiedClaims(token: Token): (r: Result<Claims, BindingError>)
    requires Decoded(token)
    ensures r.Ok? ==> IsAid(r.value.iss) && IsAid(r.value.sub) && IsAid(r.value.aud)
  {
    if token.NotThreeSegments? || token.payload.None? then Err(MalformedJws)
    else match token.payload.value
      case NotJson(_) => Err(BadClaims)
      case Json(_, _, _, _, _, claims) => if claims.Ok? then Ok(claims.value) else Err(BadClaims)
  }

  function VerifyContext(issuer: string, audience: string, revocation: BindingRevocation, now: Timestamp): Context {
    Context(audience, issuer, now, None, 0, Source(revocation))
  }

  /** `verify_tct_parsed`: the whole check, signature included. */
  function VerifyParsed(keys: Keys, ourAid: string, token: Token, grant: string, audience: Option<string>,
                        revocation: BindingRevocation, now: Timestamp): Result<Identity, BindingError>
    requires Decoded(token)
  {
    match UnverifiedClaims(token)
    case Err(e) => Err(e)
    case Ok(unverified) =>
      if audience.Some? && !IsAid(audience.value) then Err(BadAudienceAid)
      else
        var aud := if audience.Some? then audience.value else ourAid;
        match VerifyTct(keys, token, VerifyContext(unverified.iss, aud, revocation, now))
        case Err(e) => Err(Rejected(e))
        case Ok(v) =>
          if grant !in v.claims.grants then Err(MissingGrant)
          else Ok(IdentityOf(v.claims))
  }

  function IdentityOf(c: Claims): Identity {
    Identity(c.iss, c.grants, c.exp, c.jti)
  }

  // ---------------------------------------------------------------- the cache

  /** The cache key: SHA-256 of the exact token text, which does not collide. */
  datatype TokenKey = Sha256(text: string)

  function KeyFor(token: Token): TokenKey {
    Sha256(token.text)
  }

  datatype Cached = Cached(identity: Identity, audience: string)

  datatype Cache = Cache(entries: map<TokenKey, Cached>, order: seq<TokenKey>)

  const EMPTY := Cache(map[], [])

  ghost predicate WellKept(maxEntries: nat, st: Cache) {
    Distinct(st.order) && (set k | k in st.order) == st.entries.Keys && |st.entries| <= maxEntries
  }

  /** First in, first out: a refreshed key keeps its place, a new one goes to the end and the oldest makes room. */
  function Stored(maxEntries: nat, st: Cache, key: TokenKey, v: Cached): Cache {
    if key in st.entries then st.(entries := st.entries[key := v])
    else if |st.entries| < maxEntries then Cache(st.entries[key := v], st.order + [key])
    else
      var grown := st.order + [key];
      Cache(st.entries[key := v] - {grown[0]}, grown[1..])
  }

  lemma {:induction false} OrderSize(maxEntries: nat, st: Cache)
    requires WellKept(maxEntries, st)
    ensures |st.order| == |st.entries|
  {
    DistinctSize(st.order);
  }

  lemma {:induction false} DistinctSize(s: seq<TokenKey>)
    requires Distinct(s)
    ensures |set k | k in s| == |s|
  {
    if s != [] {
      assert Distinct(s[1..]);
      DistinctSize(s[1..]);
      assert (set k | k in s) == {s[0]} + (set k | k in s[1..]);
      assert s[0] !in s[1..];
    }
  }

  /** Storing keeps the order free of repeats, with exactly the keys held, and within the bound. */
  lemma {:induction false} StoredWellKept(maxEntries: nat, st: Cache, key: TokenKey, v: Cached)
    requires WellKept(maxEntries, st) && 1 <= maxEntries
    ensures var after := Stored(maxEntries, st, key, v);
      && WellKept(maxEntries, after)
      && after.order == (if key in st.entries then st.order else LastN(st.order + [key], maxEntries))
      && key in after.entries && after.entries[key] == v
      && (forall k :: k in after.entries && k != key ==> k in st.entries && after.entries[k] == st.entries[k])
  {
    hide WellKept, Stored, LastN;
    if key in st.entries {
      StoredInPlace(maxEntries, st, key, v);
    } else {
      StoredAtEnd(maxEntries, st, key, v);
    }
  }

  lemma {:induction false} StoredInPlace(maxEntries: nat, st: Cache, key: TokenKey, v: Cached)
    requires WellKept(maxEntries, st) && key in st.entries
    ensures var after := Stored(maxEntries, st, key, v);
      && WellKept(maxEntries, after) && after == st.(entries := st.entries[key := v])
  {
    assert st.entries[key := v].Keys == st.entries.Keys;
    EntriesCount(st.entries);
    EntriesCount(st.entries[key := v]);
  }

  lemma {:induction false} EntriesCount(m: map<TokenKey, Cached>)
    ensures |m| == |m.Keys|
  {
  }

  lemma {:induction false} StoredAtEnd(maxEntries: nat, st: Cache, key: TokenKey, v: Cached)
    requires WellKept(maxEntries, st) && 1 <= maxEntries && key !in st.entries
    ensures var after := Stored(maxEntries, st, key, v);
      && WellKept(maxEntries, after) && after.order == LastN(st.order + [key], maxEntries)
      && key in after.entries && after.entries[key] == v
      && (forall k :: k in after.entries && k != key ==> k in st.entries && after.entries[k] == st.entries[k])
  {
    OrderSize(maxEntries, st);
    var grown := Cache(st.entries[key := v], st.order + [key]);
    assert WellKept(|st.entries|, st);
    AppendedWellKept(st, key, v);
    if |st.entries| < maxEntries {
      assert WellKept(maxEntries, grown);
    } else {
      HeadDropped(grown);
      assert grown.order[0] == st.order[0];
    }
  }

  lemma {:induction false} AppendedWellKept(st: Cache, key: TokenKey, v: Cached)
    requires WellKept(|st.entries|, st) && key !in st.entries
    ensures WellKept(|st.entries| + 1, Cache(st.entries[key := v], st.order + [key]))
    ensures |st.entries[key := v]| == |st.entries| + 1
  {
    assert key !in st.order;
    DistinctSnoc(st.order, key);
    assert (set k | k in st.order + [key]) == (set k | k in st.order) + {key};
    assert st.entries[key := v].Keys == st.entries.Keys + {key};
  }

  lemma {:induction false} HeadDropped(st: Cache)
    requires WellKept(|st.entries|, st) && st.order != [] && |st.entries| > 0
    ensures WellKept(|st.entries| - 1, Cache(st.entries - {st.order[0]}, st.order[1..]))
    ensures st.order[0] in st.entries && |st.entries - {st.order[0]}| == |st.entries| - 1
  {
    TailKeys(st.order);
    assert (st.entries - {st.order[0]}).Keys == st.entries.Keys - {st.order[0]};
  }

  lemma {:induction false} TailKeys(s: seq<TokenKey>)
    requires Distinct(s) && s != []
    ensures Distinct(s[1..]) && s[0] in (set k | k in s)
    ensures (set k | k in s[1..]) == (set k | k in s) - {s[0]}
  {
    assert s[0] !in s[1..];
    assert s == [s[0]] + s[1..];
  }

  class TctStore {
    const maxEntries: nat
    var entries: map<TokenKey, Cached>
    var order: seq<TokenKey>

    ghost predicate Valid()
      reads this
    {
      1 <= maxEntries && WellKept(maxEntries, State())
    }

    ghost function State(): Cache
      reads this
    {
      Cache(entries, order)
    }

    constructor (maxEntries: nat)
      requires maxEntries != 0
      ensures Valid() && State() == EMPTY && this.maxEntries == maxEntries
    {
      this.maxEntries := maxEntries;
      entries, order := map[], [];
    }

    method Len() returns (n: nat)
      requires Valid()
      ensures n == |State().entries| <= maxEntries
    {
      n := |entries|;
    }

    method Clear()
      modifies this
      ensures State() == EMPTY
      ensures 1 <= maxEntries ==> Valid()
    {
      entries, order := map[], [];
    }

    method Get(key: TokenKey) returns (v: Option<Cached>)
      ensures v == if key in State().entries then Some(State().entries[key]) else None
    {
      v := if key in entries then Some(entries[key]) else None;
    }

    method Insert(key: TokenKey, v: Cached)
      requires Valid()
      modifies this
      ensures Valid() && State() == Stored(maxEntries, old(State()), key, v)
    {
      var present := key in entries;
      StoredWellKept(maxEntries, State(), key, v);
      OrderSize(maxEntries, State());
      ghost var before := State();
      entries := entries[key := v];
      if present {
        return;
      }
      AppendedWellKept(before, key, v);
      order := order + [key];
      hide WellKept;
      while |entries| > maxEntries
        invariant |entries| > maxEntries ==>
          State() == Cache(before.entries[key := v], before.order + [key]) && |entries| == |before.entries| + 1
        invariant |entries| <= maxEntries ==> State() == Stored(maxEntries, before, key, v)
        decreases |order|
      {
        // There is always an oldest key, so the queue never runs out here.
        var oldest := order[0];
        HeadDropped(State());
        order := order[1..];
        entries := entries - {oldest};
      }
    }

    /** `verify_tct_cached_inner`: a hit re-runs every check but the signature's; anything else is verified in full. */
    method VerifyCached(keys: Keys, ourAid: string, token: Token, grant: string, audience: Option<string>,
                        revoked: Option<seq<Option<Uuid>>>, mode: Option<string>, now: Timestamp, slowNow: Timestamp)
      returns (result: Result<Identity, BindingError>)
      requires Valid() && Decoded(token)
      modifies this
      ensures Valid()
      ensures (State(), result) ==
        CachedVerify(keys, maxEntries, old(State()), Call(ourAid, token, grant, audience, revoked, mode, now, slowNow))
    {
      var effectiveAudience := if audience.Some? then audience.value else ourAid;
      var parsed := ParseRevoked(revoked, mode);
      if parsed.Err? {
        return Err(parsed.error);
      }
      var c := Get(KeyFor(token));
      if c.Some? {
        if StillGood(c.value, effectiveAudience, grant, parsed.value, now) {
          return Ok(c.value.identity);
        }
      }
      var identity := VerifyParsed(keys, ourAid, token, grant, audience, parsed.value, slowNow);
      if identity.Err? {
        return identity;
      }
      // The claims decoded once already, so they decode again.
      var claims := UnverifiedClaims(token).value;
      Insert(KeyFor(token), Cached(identity.value, claims.aud));
      return identity;
    }
  }

  // ---------------------------------------------------------------- cached verification

  datatype Call = Call(
    ourAid: string,
    token: Token,
    grant: string,
    audience: Option<string>,
    revoked: Option<seq<Option<Uuid>>>,
    mode: Option<string>,
    /** The clock when a cached entry is looked at, and when a token is verified in full. */
    now: Timestamp,
    slowNow: Timestamp)

  function EffectiveAudience(call: Call): string {
    if call.audience.Some? then call.audience.value else call.ourAid
  }

  /** The checks a cached entry must still pass. */
  predicate StillGood(c: Cached, audience: string, grant: string, revocation: BindingRevocation, now: Timestamp) {
    && JtiStatus(revocation, c.identity.jti) == Clear
    && c.audience == audience
    && c.identity.expiresAt > now
    && grant in c.identity.grants
  }

  function CachedVerify(keys: Keys, maxEntries: nat, st: Cache, call: Call): (Cache, Result<Identity, BindingError>)
    requires Decoded(call.token)
  {
    match ParseRevoked(call.revoked, call.mode)
    case Err(e) => (st, Err(e))
    case Ok(revocation) =>
      if IsHit(st, call, revocation) then
        (st, Ok(st.entries[KeyFor(call.token)].identity))
      else
        match VerifyParsed(keys, call.ourAid, call.token, call.grant, call.audience, revocation, call.slowNow)
        case Err(e) => (st, Err(e))
        case Ok(identity) =>
          var claims := UnverifiedClaims(call.token).value;
          (Stored(maxEntries, st, KeyFor(call.token), Cached(identity, claims.aud)), Ok(identity))
  }

  predicate IsHit(st: Cache, call: Call, revocation: BindingRevocation) {
    KeyFor(call.token) in st.entries &&
    StillGood(st.entries[KeyFor(call.token)], EffectiveAudience(call), call.grant, revocation, call.now)
  }

  /** The same call with no cache, its clock reading `now`. */
  function PlainVerify(keys: Keys, call: Call, now: Timestamp): Result<Identity, BindingError>
    requires Decoded(call.token)
  {
    match ParseRevoked(call.revoked, call.mode)
    case Err(e) => Err(e)
    case Ok(revocation) =>
      VerifyParsed(keys, call.ourAid, call.token, call.grant, call.audience, revocation, now)
  }

  /** The call is answered from the cache. */
  predicate Hits(st: Cache, call: Call) {
    var r := ParseRevoked(call.revoked, call.mode);
    r.Ok? && IsHit(st, call, r.value)
  }

  /** The clock reading that counts for a call. */
  function MomentOf(st: Cache, call: Call): Timestamp {
    if Hits(st, call) then call.now else call.slowNow
  }

  // ---------------------------------------------------------------- one call

  /** The token's entry, if there is one, was made by verifying this very token. */
  ghost predicate Faithful(keys: Keys, st: Cache, token: Token)
    requires Decoded(token)
  {
    KeyFor(token) in st.entries ==>
      var c := UnverifiedClaims(token);
      && c.Ok? && Genuine(keys, token, c.value)
      && st.entries[KeyFor(token)] == Cached(IdentityOf(c.value), c.value.aud)
  }

  // ---------------------------------------------------------------- what a caller's arguments mean

  ghost predicate ReadableMode(mode: Option<string>) {
    mode == None || mode == Some("fail_closed") || mode == Some("fail_open")
  }

  /** The mode is one of the two, and every entry of the list, if there is one, is a UUID. */
  ghost predicate ReadableArguments(revoked: Option<seq<Option<Uuid>>>, mode: Option<string>) {
    ReadableMode(mode) && (revoked.Some? ==> None !in revoked.value)
  }

  /** A list decides by what it holds; without one only an explicit `fail_open` clears a token. */
  ghost predicate Clears(revoked: Option<seq<Option<Uuid>>>, mode: Option<string>, jti: Uuid) {
    match revoked
    case Some(entries) => ReadableArguments(revoked, mode) && Some(jti) !in entries
    case None => mode == Some("fail_open")
  }

  /** The deny list as parsed holds exactly the entries supplied. */
  lemma {:induction false} EntriesAreSupplied(entries: seq<Option<Uuid>>)
    ensures var r := ParseEntries(entries);
      if None in entries then r == Err(BadDenyListEntry)
      else r.Ok? && forall jti :: jti in r.value <==> Some(jti) in entries
  {
    if entries != [] {
      EntriesAreSupplied(entries[1..]);
      assert entries == [entries[0]] + entries[1..];
    }
  }

  /** What the arguments give: an error for a bad mode, then for a bad entry, and otherwise each token's status. */
  lemma {:induction false} StatusIsAsSupplied(revoked: Option<seq<Option<Uuid>>>, mode: Option<string>, jti: Uuid)
    ensures var r := ParseRevoked(revoked, mode);
      if !ReadableMode(mode) then r == Err(BadRevocationMode)
      else if !ReadableArguments(revoked, mode) then r == Err(BadDenyListEntry)
      else
        && r.Ok?
        && (JtiStatus(r.value, jti) == Clear <==> Clears(revoked, mode, jti))
        && (JtiStatus(r.value, jti) == IsRevoked <==> revoked.Some? && Some(jti) in revoked.value)
        && (JtiStatus(r.value, jti) == StatusUnavailable <==> revoked == None && mode != Some("fail_open"))
  {
    if revoked.Some? {
      EntriesAreSupplied(revoked.value);
    }
  }

  /** The identity reported for a token, member by member. */
  ghost predicate IsIdentityOf(id: Identity, c: Claims) {
    id.peerAid == c.iss && id.grants == c.grants && id.expiresAt == c.exp && id.jti == c.jti
  }

  /** Plain verification succeeds exactly when these hold of the claims the token carries, and reports those. */
  lemma {:induction false} PlainAcceptsExactly(keys: Keys, call: Call, now: Timestamp, c: Claims)
    requires Decoded(call.token) && IsAid(call.ourAid) && Carries(call.token, c)
    ensures PlainVerify(keys, call, now).Ok? <==>
      && Genuine(keys, call.token, c)
      && c.aud == (if call.audience.Some? then call.audience.value else call.ourAid)
      && c.iat <= now <= c.exp && Clears(call.revoked, call.mode, c.jti) && call.grant in c.grants
    ensures PlainVerify(keys, call, now).Ok? ==> IsIdentityOf(PlainVerify(keys, call, now).value, c)
  {
    hide Genuine, IsAid;
    StatusIsAsSupplied(call.revoked, call.mode, c.jti);
    var r := ParseRevoked(call.revoked, call.mode);
    hide ParseRevoked;
    if r.Ok? {
      ParsedAcceptsExactly(keys, call, r.value, now, c);
    }
  }

  lemma {:induction false} ParsedAcceptsExactly(keys: Keys, call: Call, revocation: BindingRevocation, now: Timestamp,
                                                c: Claims)
    requires Decoded(call.token) && IsAid(call.ourAid) && Carries(call.token, c)
    requires ParseRevoked(call.revoked, call.mode) == Ok(revocation)
    ensures PlainVerify(keys, call, now).Ok? <==>
      && Genuine(keys, call.token, c) && c.aud == EffectiveAudience(call)
      && c.iat <= now <= c.exp && JtiStatus(revocation, c.jti) == Clear && call.grant in c.grants
    ensures PlainVerify(keys, call, now).Ok? ==> PlainVerify(keys, call, now) == Ok(IdentityOf(c))
  {
    hide Genuine, IsAid;
    var ctx := VerifyContext(c.iss, EffectiveAudience(call), revocation, now);
    if !(call.audience.Some? && !IsAid(call.audience.value)) {
      AcceptsExactly(keys, call.token, ctx, c, c.grants);
      hide VerifyTct;
      var v := VerifyTct(keys, call.token, ctx);
      if v.Ok? {
        AcceptsExactly(keys, call.token, ctx, v.value.claims, v.value.effectiveGrants);
        GenuineClaims(keys, call.token, v.value.claims, c);
      }
    }
  }

  lemma {:induction false} GenuineClaims(keys: Keys, token: Token, v: Claims, c: Claims)
    requires Decoded(token) && Genuine(keys, token, v) && UnverifiedClaims(token) == Ok(c)
    ensures v == c
  {
  }

  /**
   One call, exactly: the cached answer is the plain answer unless it is a hit
   on a token whose `iat` is still ahead of the clock, which can only be if the
   clock went back since the token was first verified.
   */
  lemma {:induction false} CachedIsPlainExactlyWhen(keys: Keys, maxEntries: nat, st: Cache, call: Call)
    requires Decoded(call.token) && IsAid(call.ourAid) && Faithful(keys, st, call.token)
    ensures CachedVerify(keys, maxEntries, st, call).1 == PlainVerify(keys, call, MomentOf(st, call))
            <==> !(Hits(st, call) && UnverifiedClaims(call.token).value.iat > call.now)
  {
    var r := ParseRevoked(call.revoked, call.mode);
    hide Genuine, IsAid, ParseRevoked, VerifyParsed;
    if r.Ok? && IsHit(st, call, r.value) {
      ParsedAcceptsExactly(keys, call, r.value, call.now, UnverifiedClaims(call.token).value);
    }
  }

  /**
   A cached call succeeds exactly when these hold. A warm entry never overrides what the caller's
   own list and mode say of the token, and spares it no check but those on its signature and `iat`.
   */
  lemma {:induction false} CachedAcceptsExactly(keys: Keys, maxEntries: nat, st: Cache, call: Call, c: Claims)
    requires Decoded(call.token) && IsAid(call.ourAid) && Faithful(keys, st, call.token) && Carries(call.token, c)
    ensures var r := CachedVerify(keys, maxEntries, st, call).1;
      && (r.Ok? <==>
            && Genuine(keys, call.token, c)
            && c.aud == (if call.audience.Some? then call.audience.value else call.ourAid)
            && MomentOf(st, call) <= c.exp && (Hits(st, call) || c.iat <= MomentOf(st, call))
            && Clears(call.revoked, call.mode, c.jti) && call.grant in c.grants)
      && (r.Ok? ==> IsIdentityOf(r.value, c))
  {
    hide Genuine, IsAid;
    StatusIsAsSupplied(call.revoked, call.mode, c.jti);
    PlainAcceptsExactly(keys, call, call.slowNow, c);
    hide VerifyParsed, ParseRevoked;
  }

  /** A warm entry never overrides what the caller's list and mode say of the token, whatever the clock does. */
  lemma {:induction false} RevokedIsNeverAccepted(keys: Keys, maxEntries: nat, st: Cache, call: Call, c: Claims)
    requires Decoded(call.token) && IsAid(call.ourAid) && Faithful(keys, st, call.token) && Carries(call.token, c)
    requires !Clears(call.revoked, call.mode, c.jti)
    ensures CachedVerify(keys, maxEntries, st, call).1.Err?
  {
    hide IsAid, Decoded, CachedVerify, Clears;
    CachedAcceptsExactly(keys, maxEntries, st, call, c);
  }

  /** What a plain call asks before it verifies anything, in order; the token's own errors come after all of these. */
  ghost function ArgumentChecks(call: Call): seq<Rule<BindingError>> {
    var t := call.token;
    [ Rule(ReadableMode(call.mode), BadRevocationMode),
      Rule(call.revoked.Some? ==> None !in call.revoked.value, BadDenyListEntry),
      Rule(t.Jws? && t.payload.Some?, MalformedJws),
      Rule(t.Jws? && t.payload.Some? ==> t.payload.value.Json? && t.payload.value.claims.Ok?, BadClaims),
      Rule(call.audience.Some? ==> IsAid(call.audience.value), BadAudienceAid) ]
  }

  /** Bad arguments are reported as such, whatever the token; a token's own error is passed on; a grant comes last. */
  lemma {:induction false} PlainReports(keys: Keys, call: Call, now: Timestamp)
    requires Decoded(call.token)
    ensures var checks, r := ArgumentChecks(call), PlainVerify(keys, call, now);
      if !AllHold(checks) then r.Err? && FailsFirst(checks, r.error)
      else r.Err? ==> r.error.Rejected? || r.error.MissingGrant?
  {
    var checks := ArgumentChecks(call);
    StatusIsAsSupplied(call.revoked, call.mode, Uuid([]));
    hide ParseRevoked, IsAid, VerifyTct, AllHold, FailsFirst;
    if checks[0].holds && checks[1].holds && checks[2].holds && checks[3].holds && checks[4].holds {
      NoFault(checks);
    } else {
      FirstFault(checks, if !checks[0].holds then 0 else if !checks[1].holds then 1 else if !checks[2].holds then 2
                         else if !checks[3].holds then 3 else 4);
    }
  }

  /** An entry answers a call when it is this token's, clear, for this audience, granted and before its last second. */
  lemma {:induction false} HitsExactlyWhen(st: Cache, call: Call)
    ensures Hits(st, call) <==>
      && ReadableArguments(call.revoked, call.mode) && KeyFor(call.token) in st.entries
      && var e := st.entries[KeyFor(call.token)];
         && Clears(call.revoked, call.mode, e.identity.jti)
         && e.audience == (if call.audience.Some? then call.audience.value else call.ourAid)
         && call.now < e.identity.expiresAt && call.grant in e.identity.grants
  {
    if KeyFor(call.token) in st.entries {
      StatusIsAsSupplied(call.revoked, call.mode, st.entries[KeyFor(call.token)].identity.jti);
    }
    hide ParseRevoked;
  }

  /** A genuine token in date is refused for its status alone, with the error that names it. */
  lemma {:induction false} StatusIsReported(keys: Keys, call: Call, now: Timestamp, c: Claims)
    requires Decoded(call.token) && IsAid(call.ourAid) && Carries(call.token, c) && Genuine(keys, call.token, c)
    requires c.aud == EffectiveAudience(call) && c.iat <= now <= c.exp && ReadableArguments(call.revoked, call.mode)
    ensures PlainVerify(keys, call, now) == Err(Rejected(Revoked)) <==>
              call.revoked.Some? && Some(c.jti) in call.revoked.value
    ensures PlainVerify(keys, call, now) == Err(Rejected(RevocationUnavailable)) <==>
              call.revoked.None? && call.mode != Some("fail_open")
    ensures PlainVerify(keys, call, now) == Err(MissingGrant) <==>
              Clears(call.revoked, call.mode, c.jti) && call.grant !in c.grants
  {
    hide Genuine, IsAid;
    StatusIsAsSupplied(call.revoked, call.mode, c.jti);
    var r := ParseRevoked(call.revoked, call.mode).value;
    hide ParseRevoked;
    var ctx := VerifyContext(c.iss, EffectiveAudience(call), r, now);
    GenuineAud(keys, call.token, c);
    BeforeRevocation(keys, call.token, ctx, c);
    hide VerifyBeforeRevocation;
  }

  lemma {:induction false} GenuineAud(keys: Keys, token: Token, c: Claims)
    requires Decoded(token) && Genuine(keys, token, c)
    ensures IsAid(c.aud) && UnverifiedClaims(token) == Ok(c)
  {
    hide IsAid;
  }

  lemma {:induction false} BeforeRevocation(keys: Keys, token: Token, ctx: Context, c: Claims)
    requires Decoded(token) && IsAid(ctx.issuer) && Genuine(keys, token, c)
    requires c.iss == ctx.issuer && c.aud == ctx.expectedAudience && InDate(c, ctx)
    ensures VerifyBeforeRevocation(keys, token, ctx) == Ok(c)
  {
    hide IsAid, KeyOf;
  }

  // ---------------------------------------------------------------- whole runs

  datatype Op = Verify(call: Call) | ClearAll

  function Step(keys: Keys, maxEntries: nat, st: Cache, op: Op): Cache
    requires op.Verify? ==> Decoded(op.call.token)
  {
    match op
    case Verify(call) => CachedVerify(keys, maxEntries, st, call).0
    case ClearAll => EMPTY
  }

  predicate SameText(a: Op, b: Op) {
    a.Verify? && b.Verify? && a.call.token.text == b.call.token.text
  }

  /** Calls carry well-decoded tokens, and a token's text decides what it decodes to. */
  predicate WellFormed(ops: seq<Op>) {
    && (forall i :: 0 <= i < |ops| && ops[i].Verify? ==> Decoded(ops[i].call.token) && IsAid(ops[i].call.ourAid))
    && (forall i, j ::
          0 <= i < |ops| && 0 <= j < |ops| && SameText(ops[i], ops[j]) ==> ops[i].call.token == ops[j].call.token)
  }

  /** The cache after the first `k` operations. */
  function After(keys: Keys, maxEntries: nat, ops: seq<Op>, k: nat): Cache
    requires WellFormed(ops) && k <= |ops|
  {
    if k == 0 then EMPTY else Step(keys, maxEntries, After(keys, maxEntries, ops, k - 1), ops[k - 1])
  }

  /** No call's clock reads earlier than a call before it. */
  predicate ClockForward(ops: seq<Op>) {
    && (forall i :: 0 <= i < |ops| && ops[i].Verify? ==> ops[i].call.now <= ops[i].call.slowNow)
    && (forall i, j :: 0 <= i < j < |ops| && ops[i].Verify? && ops[j].Verify? ==>
          ops[i].call.slowNow <= ops[j].call.now)
  }

  /** What a call can add to the cache: its own token, verified just now. */
  lemma {:induction false} StepEntries(keys: Keys, maxEntries: nat, st: Cache, call: Call, k: TokenKey)
    requires WellKept(maxEntries, st) && 1 <= maxEntries
    requires Decoded(call.token) && IsAid(call.ourAid)
    requires k in CachedVerify(keys, maxEntries, st, call).0.entries
    ensures WellKept(maxEntries, CachedVerify(keys, maxEntries, st, call).0)
    ensures var after := CachedVerify(keys, maxEntries, st, call).0;
      || (k in st.entries && after.entries[k] == st.entries[k])
      || (k == KeyFor(call.token) && Faithful(keys, after, call.token)
          && UnverifiedClaims(call.token).value.iat <= call.slowNow)
  {
    var r := ParseRevoked(call.revoked, call.mode);
    hide Genuine, IsAid, ParseRevoked;
    if r.Ok? && !IsHit(st, call, r.value) {
      var plain := VerifyParsed(keys, call.ourAid, call.token, call.grant, call.audience, r.value, call.slowNow);
      if plain.Ok? {
        var c := UnverifiedClaims(call.token).value;
        ParsedAcceptsExactly(keys, call, r.value, call.slowNow, c);
        hide VerifyParsed, WellKept, UnverifiedClaims;
        StoredWellKept(maxEntries, st, KeyFor(call.token), Cached(plain.value, c.aud));
      }
    }
  }

  lemma {:induction false} StepKeepsWellKept(keys: Keys, maxEntries: nat, st: Cache, op: Op)
    requires WellKept(maxEntries, st) && 1 <= maxEntries
    requires op.Verify? ==> Decoded(op.call.token) && IsAid(op.call.ourAid)
    ensures WellKept(maxEntries, Step(keys, maxEntries, st, op))
  {
    if op.Verify? {
      hide VerifyParsed, ParseRevoked, IsAid, Decoded;
      var call := op.call;
      var plain := PlainVerify(keys, call, call.slowNow);
      if plain.Ok? {
        StoredWellKept(maxEntries, st, KeyFor(call.token), Cached(plain.value, UnverifiedClaims(call.token).value.aud));
      }
      hide WellKept;
    }
  }

  /** In every run, every entry for a token the run mentions was made by verifying that token, before or now. */
  lemma {:induction false} EntriesAreFaithful(keys: Keys, maxEntries: nat, ops: seq<Op>, k: nat, i: nat)
    requires WellFormed(ops) && 1 <= maxEntries && k <= |ops| && i < |ops| && ops[i].Verify?
    ensures var st := After(keys, maxEntries, ops, k);
      && WellKept(maxEntries, st) && Faithful(keys, st, ops[i].call.token)
      && (KeyFor(ops[i].call.token) in st.entries ==>
            exists m :: 0 <= m < k && ops[m].Verify?
              && UnverifiedClaims(ops[i].call.token).value.iat <= ops[m].call.slowNow)
  {
    hide Genuine, IsAid, CachedVerify, Decoded;
    if k > 0 {
      EntriesAreFaithful(keys, maxEntries, ops, k - 1, i);
      var st, token := After(keys, maxEntries, ops, k - 1), ops[i].call.token;
      StepKeepsWellKept(keys, maxEntries, st, ops[k - 1]);
      hide WellKept;
      if ops[k - 1].Verify? && KeyFor(token) in After(keys, maxEntries, ops, k).entries {
        var call := ops[k - 1].call;
        StepEntries(keys, maxEntries, st, call, KeyFor(token));
        if !(KeyFor(token) in st.entries
             && After(keys, maxEntries, ops, k).entries[KeyFor(token)] == st.entries[KeyFor(token)]) {
          assert SameText(ops[k - 1], ops[i]);
          assert UnverifiedClaims(token).value.iat <= ops[k - 1].call.slowNow;
        } else {
          var m :| 0 <= m < k - 1 && ops[m].Verify? && UnverifiedClaims(token).value.iat <= ops[m].call.slowNow;
          assert 0 <= m < k;
        }
      }
    }
  }

  /** At most `n` keys, this one included, are as new as `k`. */
  ghost predicate IsAmongLast(st: Cache, k: TokenKey, n: nat) {
    k in st.entries && exists p :: 0 <= p < |st.order| && st.order[p] == k && |st.order| - p <= n
  }

  lemma {:induction false} StaysAmongLast(maxEntries: nat, st: Cache, k: TokenKey, n: nat, key: TokenKey, v: Cached)
    requires WellKept(maxEntries, st) && 1 <= maxEntries && IsAmongLast(st, k, n) && n < maxEntries
    ensures IsAmongLast(Stored(maxEntries, st, key, v), k, n + 1)
  {
    var p :| 0 <= p < |st.order| && st.order[p] == k && |st.order| - p <= n;
    var after := Stored(maxEntries, st, key, v);
    OrderSize(maxEntries, st);
    assert p > 0 ==> st.order[0] != k;
    hide WellKept;
    if key in st.entries {
      assert after.order[p] == k;
    } else if |st.entries| < maxEntries {
      assert after.order[p] == k;
    } else {
      assert (st.order + [key])[p] == k && p > 0;
      assert after.order[p - 1] == k;
    }
  }

  /**
   A token new to the cache stays there, once verified, while fewer than `maxEntries` calls follow and
   nothing clears it: whatever those calls verify, others leave first.
   */
  lemma {:induction false} VerifiedStaysCached(keys: Keys, maxEntries: nat, ops: seq<Op>, j: nat, k: nat)
    requires WellFormed(ops) && 1 <= maxEntries && j < k <= |ops| && k - j <= maxEntries
    requires forall i :: j <= i < k ==> ops[i].Verify?
    requires KeyFor(ops[j].call.token) !in After(keys, maxEntries, ops, j).entries
    requires CachedVerify(keys, maxEntries, After(keys, maxEntries, ops, j), ops[j].call).1.Ok?
    ensures IsAmongLast(After(keys, maxEntries, ops, k), KeyFor(ops[j].call.token), k - j)
  {
    hide IsAid, Decoded, CachedVerify, UnverifiedClaims, Genuine, WellKept, IsAmongLast, Faithful;
    var st, call, key := After(keys, maxEntries, ops, k - 1), ops[k - 1].call, KeyFor(ops[j].call.token);
    EntriesAreFaithful(keys, maxEntries, ops, k - 1, j);
    if k - 1 == j {
      FirstStored(keys, maxEntries, st, call);
    } else {
      VerifiedStaysCached(keys, maxEntries, ops, j, k - 1);
      StepStaysAmongLast(keys, maxEntries, st, call, key, k - 1 - j);
    }
  }

  lemma {:induction false} FirstStored(keys: Keys, maxEntries: nat, st: Cache, call: Call)
    requires Decoded(call.token) && WellKept(maxEntries, st) && 1 <= maxEntries && KeyFor(call.token) !in st.entries
    requires CachedVerify(keys, maxEntries, st, call).1.Ok?
    ensures IsAmongLast(CachedVerify(keys, maxEntries, st, call).0, KeyFor(call.token), 1)
  {
    hide VerifyTct, ParseRevoked, IsAid, Decoded;
    var claims := UnverifiedClaims(call.token);
    var after := CachedVerify(keys, maxEntries, st, call);
    StoredWellKept(maxEntries, st, KeyFor(call.token), Cached(after.1.value, claims.value.aud));
    hide WellKept, Stored, LastN;
    LastIsKept(st.order, KeyFor(call.token), maxEntries);
  }

  lemma {:induction false} LastIsKept(order: seq<TokenKey>, key: TokenKey, n: nat)
    requires 1 <= n
    ensures var r := LastN(order + [key], n); |r| > 0 && r[|r| - 1] == key
  {
  }

  lemma {:induction false} StepStaysAmongLast(keys: Keys, maxEntries: nat, st: Cache, call: Call, k: TokenKey, n: nat)
    requires Decoded(call.token) && WellKept(maxEntries, st) && 1 <= maxEntries && n < maxEntries
    requires IsAmongLast(st, k, n)
    ensures IsAmongLast(CachedVerify(keys, maxEntries, st, call).0, k, n + 1)
  {
    hide VerifyTct, ParseRevoked, IsAid, Decoded;
    var plain := PlainVerify(keys, call, call.slowNow);
    if plain.Ok? {
      StaysAmongLast(maxEntries, st, k, n, KeyFor(call.token),
                     Cached(plain.value, UnverifiedClaims(call.token).value.aud));
    }
    hide WellKept, Stored;
  }

  /**
   Over every run of cached verifications and `clear` calls, with any tokens,
   audiences, grants and deny lists and a clock that does not go back, each
   call returns the very identity or error plain verification would.
   */
  lemma {:induction false} CacheIsInvisible(keys: Keys, maxEntries: nat, ops: seq<Op>, k: nat)
    requires WellFormed(ops) && 1 <= maxEntries && ClockForward(ops)
    requires k < |ops| && ops[k].Verify?
    ensures var st := After(keys, maxEntries, ops, k);
      CachedVerify(keys, maxEntries, st, ops[k].call).1 == PlainVerify(keys, ops[k].call, MomentOf(st, ops[k].call))
  {
    var st, call := After(keys, maxEntries, ops, k), ops[k].call;
    EntriesAreFaithful(keys, maxEntries, ops, k, k);
    CachedIsPlainExactlyWhen(keys, maxEntries, st, call);
    hide Genuine, IsAid, CachedVerify, PlainVerify, Decoded;
  }

  /**
   With the clock set back it is not invisible: a genuine token verified at its
   `iat` is still accepted, from the cache, at a time before it.
   */
  lemma {:induction false} ClockSetBackShows(keys: Keys, maxEntries: nat, call: Call, c: Claims, earlier: Timestamp)
    requires Decoded(call.token) && IsAid(call.ourAid) && 1 <= maxEntries
    requires UnverifiedClaims(call.token) == Ok(c) && Genuine(keys, call.token, c)
    requires c.aud == EffectiveAudience(call) && call.grant in c.grants
    requires call.revoked == Some([]) && call.mode == None
    requires call.now == call.slowNow == c.iat <= c.exp && earlier < c.iat
    ensures var st := CachedVerify(keys, maxEntries, EMPTY, call).0;
      var again := call.(now := earlier, slowNow := earlier);
      && CachedVerify(keys, maxEntries, st, again).1 == Ok(IdentityOf(c))
      && PlainVerify(keys, again, earlier).Err?
  {
    assert ParseRevoked(call.revoked, call.mode) == Ok(DenyList({}));
    var again := call.(now := earlier, slowNow := earlier);
    ParsedAcceptsExactly(keys, call, DenyList({}), c.iat, c);
    ParsedAcceptsExactly(keys, again, DenyList({}), earlier, c);
    hide Genuine, IsAid, VerifyParsed, ParseRevoked;
  }

  // ---------------------------------------------------------------- with proof of possession

  /** A caller's challenge and response, each parsed or not, and the verdict on them for given claims. */
  datatype Pop = Pop(challengeParses: bool, responseParses: bool, holds: Claims -> bool)

  /** With PoP the audience is the token's `sub`, and the caller may not name another. */
  function PopAudience(call: Call, pop: Option<Pop>): Result<Call, BindingError>
    requires Decoded(call.token)
  {
    match pop
    case None => Ok(call)
    case Some(p) =>
      if call.audience.Some? then Err(AudienceAndPop)
      else if !p.challengeParses then Err(BadChallenge)
      else if !p.responseParses then Err(BadResponse)
      else match UnverifiedClaims(call.token)
        case Err(e) => Err(e)
        case Ok(c) => Ok(call.(audience := Some(c.sub)))
  }

  function FinishPop(call: Call, pop: Option<Pop>, r: Result<Identity, BindingError>): Result<Identity, BindingError>
    requires Decoded(call.token)
  {
    if r.Err? || pop.None? then r
    else match UnverifiedClaims(call.token)
      case Err(e) => Err(e)
      case Ok(c) => if pop.value.holds(c) then r else Err(PopFailed)
  }

  /** `verify_tct`: revocation arguments first, then the PoP arguments. */
  function VerifyWithPop(keys: Keys, call: Call, pop: Option<Pop>, now: Timestamp): Result<Identity, BindingError>
    requires Decoded(call.token)
  {
    match ParseRevoked(call.revoked, call.mode)
    case Err(e) => Err(e)
    case Ok(_) =>
      match PopAudience(call, pop)
      case Err(e) => Err(e)
      case Ok(c) => FinishPop(c, pop, PlainVerify(keys, c, now))
  }

  /** `verify_tct_cached`: the PoP arguments first, then the revocation arguments. */
  function CachedWithPop(keys: Keys, maxEntries: nat, st: Cache, call: Call,
                         pop: Option<Pop>): Result<Identity, BindingError>
    requires Decoded(call.token)
  {
    match PopAudience(call, pop)
    case Err(e) => Err(e)
    case Ok(c) => FinishPop(c, pop, CachedVerify(keys, maxEntries, st, c).1)
  }

  /**
   The two entry points read their arguments in a different order, so with both
   kinds of argument bad they report different errors; and only then, where the
   inner verifications agree.
   */
  lemma {:induction false} EntryPointsAgreeExactlyWhen(keys: Keys, maxEntries: nat, st: Cache, call: Call,
                                                       pop: Option<Pop>, now: Timestamp)
    requires Decoded(call.token)
    requires var c := PopAudience(call, pop);
      c.Ok? ==> CachedVerify(keys, maxEntries, st, c.value).1 == PlainVerify(keys, c.value, now)
    ensures CachedWithPop(keys, maxEntries, st, call, pop) == VerifyWithPop(keys, call, pop, now)
            <==> ReadableArguments(call.revoked, call.mode) || PopAudience(call, pop).Ok?
  {
    hide VerifyParsed, CachedVerify;
    StatusIsAsSupplied(call.revoked, call.mode, Uuid([]));
  }

  /**
   With proof of possession a token is accepted exactly when it is genuine, in date, clear and
   granted, names its subject as its audience, and the response proves that subject's key.
   */
  lemma {:induction false} PopAcceptsExactly(keys: Keys, call: Call, p: Pop, now: Timestamp, c: Claims)
    requires Decoded(call.token) && IsAid(call.ourAid) && Carries(call.token, c)
    ensures VerifyWithPop(keys, call, Some(p), now).Ok? <==>
      && call.audience.None? && p.challengeParses && p.responseParses && p.holds(c)
      && Genuine(keys, call.token, c) && c.aud == c.sub
      && c.iat <= now <= c.exp && Clears(call.revoked, call.mode, c.jti) && call.grant in c.grants
    ensures VerifyWithPop(keys, call, Some(p), now).Ok? ==>
      IsIdentityOf(VerifyWithPop(keys, call, Some(p), now).value, c)
  {
    hide Genuine, IsAid;
    StatusIsAsSupplied(call.revoked, call.mode, c.jti);
    PlainAcceptsExactly(keys, call.(audience := Some(c.sub)), now, c);
    hide PlainVerify, ParseRevoked;
  }

  /** With proof of possession the revocation arguments are read first, then these. */
  ghost function PopChecks(call: Call, p: Pop): seq<Rule<BindingError>> {
    var t := call.token;
    [ Rule(ReadableMode(call.mode), BadRevocationMode),
      Rule(call.revoked.Some? ==> None !in call.revoked.value, BadDenyListEntry),
      Rule(call.audience.None?, AudienceAndPop),
      Rule(p.challengeParses, BadChallenge),
      Rule(p.responseParses, BadResponse),
      Rule(t.Jws? && t.payload.Some?, MalformedJws),
      Rule(t.Jws? && t.payload.Some? ==> t.payload.value.Json? && t.payload.value.claims.Ok?, BadClaims) ]
  }

  /** The first argument at fault is reported; then the token's own error; and a failed proof only for a good token. */
  lemma {:induction false} PopReports(keys: Keys, call: Call, p: Pop, now: Timestamp)
    requires Decoded(call.token)
    ensures var checks, r := PopChecks(call, p), VerifyWithPop(keys, call, Some(p), now);
      if !AllHold(checks) then r.Err? && FailsFirst(checks, r.error)
      else forall c :: Carries(call.token, c) ==>
        var plain := PlainVerify(keys, call.(audience := Some(c.sub)), now);
        r == if plain.Ok? && !p.holds(c) then Err(PopFailed) else plain
  {
    var checks := PopChecks(call, p);
    StatusIsAsSupplied(call.revoked, call.mode, Uuid([]));
    hide ParseRevoked, IsAid, PlainVerify, AllHold, FailsFirst;
    if checks[0].holds && checks[1].holds && checks[2].holds && checks[3].holds && checks[4].holds && checks[5].holds
       && checks[6].holds {
      NoFault(checks);
    } else {
      FirstFault(checks, if !checks[0].holds then 0 else if !checks[1].holds then 1 else if !checks[2].holds then 2
                         else if !checks[3].holds then 3 else if !checks[4].holds then 4
                         else if !checks[5].holds then 5 else 6);
    }
  }
}
