/** Binding an A2A Agent Card: the Card only points to a Manifest, and the Manifest has to confirm the Card's key. */
module AgentCard {
  import opened Basics
  import opened Aids

  const AITP_A2A_EXTENSION_URI := "https://agentidentitytrustprotocol.io/ext/a2a/v1"
  const AITP_TCT_HEADER := "x-aitp-tct"

  /** Whether a text is a plain `https://` URL to the client. */
  type Https = string -> bool

  // ---------------------------------------------------------------- finding the extension

  datatype Params = Params(aid: Option<string>, manifestUrl: Option<string>, securityScheme: Option<string>)

  /** An entry of `capabilities.extensions`; no params when they are missing or not an object. */
  datatype Extension = Extension(uri: Option<string>, params: Option<Params>)

  datatype ApiKey = ApiKey(location: Option<string>, name: Option<string>)

  /** A security scheme: how many variants it holds, and its API key variant. */
  datatype Scheme = Scheme(variants: nat, apiKey: Option<ApiKey>)

  datatype SchemeName = SchemeName(text: string)

  datatype Card = Card(extensions: seq<Extension>, schemes: map<SchemeName, Scheme>)

  datatype Pointer = Pointer(aid: string, manifestUrl: string)

  datatype ManifestError = Expired | MalformedEndpoint | OtherFault(code: nat)

  datatype BindingError =
    | ExtensionMissing
    | ExtensionNotUnique
    | ParamsMalformed(member: string)
    | SecuritySchemeInvalid
    | ManifestNotFound
    | ManifestRejected(cause: ManifestError)
    | AidMismatch
    | PinnedAidMismatch
    | InterfacesKeyInvalid
    | InterfaceNotListed

  predicate IsAitp(e: Extension) {
    e.uri == Some(AITP_A2A_EXTENSION_URI)
  }

  /** The one place the Card names the AITP extension. */
  ghost predicate IsOnly(extensions: seq<Extension>, i: nat) {
    i < |extensions| && NamesAitp(extensions[i])
    && forall j :: 0 <= j < |extensions| && NamesAitp(extensions[j]) ==> j == i
  }

  /** An entry is the AITP one by its URI alone. */
  ghost predicate NamesAitp(e: Extension) {
    e.uri == Some("https://agentidentitytrustprotocol.io/ext/a2a/v1")
  }

  /** The one scheme section 3.2 of RFC-AITP-0014 allows: a single variant, an API key in the header of this name. */
  ghost const TCT_HEADER_SCHEME := Scheme(1, Some(ApiKey(Some("header"), Some("x-aitp-tct"))))

  predicate IsTctHeader(s: Scheme) {
    s.variants == 1 && s.apiKey == Some(ApiKey(Some("header"), Some(AITP_TCT_HEADER)))
  }

  /** What one entry's params give, checked in the order of section 3.2 of RFC-AITP-0014. */
  function PointerOf(e: Extension, schemes: map<SchemeName, Scheme>, https: Https): Result<Pointer, BindingError> {
    if e.params.None? then Err(ParamsMalformed("params"))
    else
      var p := e.params.value;
      if p.aid.None? || !IsAid(p.aid.value) then Err(ParamsMalformed("aid"))
      else if p.manifestUrl.None? || !https(p.manifestUrl.value) then Err(ParamsMalformed("manifestUrl"))
      else if p.securityScheme.None? then Err(ParamsMalformed("securityScheme"))
      else if SchemeName(p.securityScheme.value) !in schemes
        || !IsTctHeader(schemes[SchemeName(p.securityScheme.value)])
      then Err(SecuritySchemeInvalid)
      else Ok(Pointer(p.aid.value, p.manifestUrl.value))
  }

  /** What the entry must hold, in the order it is looked at. */
  ghost function EntryChecks(e: Extension, schemes: map<SchemeName, Scheme>, https: Https): seq<Rule<BindingError>> {
    var p := if e.params.Some? then e.params.value else Params(None, None, None);
    [ Rule(e.params.Some?, ParamsMalformed("params")),
      Rule(p.aid.Some? && IsAid(p.aid.value), ParamsMalformed("aid")),
      Rule(p.manifestUrl.Some? && https(p.manifestUrl.value), ParamsMalformed("manifestUrl")),
      Rule(p.securityScheme.Some?, ParamsMalformed("securityScheme")),
      Rule(p.securityScheme.Some? && SchemeName(p.securityScheme.value) in schemes
            && schemes[SchemeName(p.securityScheme.value)] == TCT_HEADER_SCHEME, SecuritySchemeInvalid) ]
  }

  /** The entry's AID and URL when all of it holds, otherwise the first thing at fault. */
  lemma {:induction false} PointsExactlyWhen(e: Extension, schemes: map<SchemeName, Scheme>, https: Https)
    ensures var checks := EntryChecks(e, schemes, https);
            var r := PointerOf(e, schemes, https);
            if AllHold(checks) then
              e.params.Some? && r.Ok? && Some(r.value.aid) == e.params.value.aid
                && Some(r.value.manifestUrl) == e.params.value.manifestUrl
            else r.Err? && FailsFirst(checks, r.error)
  {
    hide IsAid;
    var checks := EntryChecks(e, schemes, https);
    if AllHold(checks) {
      assert checks[0].holds && checks[1].holds && checks[2].holds && checks[3].holds && checks[4].holds;
    } else {
      var i := if !checks[0].holds then 0 else if !checks[1].holds then 1 else if !checks[2].holds then 2
               else if !checks[3].holds then 3 else 4;
      assert !checks[i].holds && forall j :: 0 <= j < i ==> checks[j].holds;
      assert FailsFirst(checks, checks[i].error);
    }
  }

  /** The Card's pointer; other extensions, wherever they stand, make no difference. */
  method Locate(card: Card, https: Https) returns (r: Result<Pointer, BindingError>)
    ensures r == Err(ExtensionMissing) <==> forall e :: e in card.extensions ==> !NamesAitp(e)
    ensures r == Err(ExtensionNotUnique) <==>
            exists i, j :: 0 <= i < j < |card.extensions| && NamesAitp(card.extensions[i])
                           && NamesAitp(card.extensions[j])
    ensures forall i: nat :: IsOnly(card.extensions, i) ==> r == PointerOf(card.extensions[i], card.schemes, https)
    ensures r.Ok? ==> IsAid(r.value.aid)
  {
    hide IsAid, IsTctHeader;
    var extensions := card.extensions;
    var n := Next(extensions, 0);
    if n == |extensions| {
      return Err(ExtensionMissing);
    }
    var more := Next(extensions, n + 1);
    if more < |extensions| {
      assert NamesAitp(extensions[n]) && NamesAitp(extensions[more]);
      return Err(ExtensionNotUnique);
    }
    assert IsOnly(extensions, n);
    r := PointerOf(extensions[n], card.schemes, https);
  }

  /** The next entry with the AITP URI, or the end. */
  method Next(extensions: seq<Extension>, from: nat) returns (n: nat)
    requires from <= |extensions|
    ensures from <= n <= |extensions| && (n < |extensions| ==> IsAitp(extensions[n]))
    ensures forall j :: from <= j < n ==> !IsAitp(extensions[j])
  {
    n := from;
    while n < |extensions| && !IsAitp(extensions[n])
      invariant from <= n <= |extensions|
      invariant forall j :: from <= j < n ==> !IsAitp(extensions[j])
    {
      n := n + 1;
    }
  }

  // ---------------------------------------------------------------- binding the manifest

  /** The members of a verified Manifest the binding reads. An interface entry that is not a string is none. */
  datatype Manifest = Manifest(aid: string, endpoint: string, expiresAt: Timestamp,
                               interfaces: Option<seq<Option<string>>>)

  datatype Fetch =
    | Unreachable
    | Fetched(verified: Result<Manifest, ManifestError>)
    | Held(manifest: Manifest)

  datatype Context = Context(now: Timestamp, expectedAid: Option<string>)

  datatype Bound = Bound(manifest: Manifest, interfaceUrl: string)

  ghost predicate IsInput(pointer: Pointer, fetch: Fetch, ctx: Context) {
    && IsAid(pointer.aid) && (ctx.expectedAid.Some? ==> IsAid(ctx.expectedAid.value))
    && (fetch.Fetched? && fetch.verified.Ok? ==> IsAid(fetch.verified.value.aid))
    && (fetch.Held? ==> IsAid(fetch.manifest.aid))
  }

  /** Step 3: the Manifest, verified and in date. */
  function ManifestOf(fetch: Fetch, now: Timestamp): Result<Manifest, BindingError> {
    match fetch
    case Unreachable => Err(ManifestNotFound)
    case Fetched(Err(e)) => Err(ManifestRejected(e))
    case Fetched(Ok(m)) => Ok(m)
    case Held(m) => if InThePast(m.expiresAt, now) then Err(ManifestRejected(Expired)) else Ok(m)
  }

  /** The Manifest there is to check: a verified one just fetched, or one held whose last second is not over. */
  ghost predicate Obtains(fetch: Fetch, now: Timestamp, m: Manifest) {
    fetch == Fetched(Ok(m)) || (fetch == Held(m) && now <= m.expiresAt)
  }

  /** Steps 3 to 5 on a Manifest, in order. */
  ghost function Checks(pointer: Pointer, m: Manifest, selected: string, pinned: Option<string>,
                        https: Https): seq<Rule<BindingError>>
    requires IsAid(pointer.aid) && IsAid(m.aid) && (pinned.Some? ==> IsAid(pinned.value))
  {
    [ Rule(https(m.endpoint), ManifestRejected(MalformedEndpoint)),
      Rule(SameKey(m.aid, pointer.aid), AidMismatch),
      Rule(pinned.Some? ==> SameKey(m.aid, pinned.value), PinnedAidMismatch),
      Rule(m.interfaces.Some? && None !in m.interfaces.value, InterfacesKeyInvalid),
      Rule(m.interfaces.Some? && Some(selected) in m.interfaces.value, InterfaceNotListed),
      Rule(https(selected), InterfacesKeyInvalid) ]
  }

  /** Whether a list of strings holds `selected`; none when an entry, wherever it stands, is not a string. */
  method Lists(interfaces: seq<Option<string>>, selected: string) returns (listed: Option<bool>)
    ensures listed == if None in interfaces then None else Some(Some(selected) in interfaces)
  {
    var found := false;
    for i := 0 to |interfaces|
      invariant None !in interfaces[..i] && (found <==> Some(selected) in interfaces[..i])
    {
      assert interfaces[..i + 1] == interfaces[..i] + [interfaces[i]];
      if interfaces[i].None? {
        return None;
      }
      found := found || interfaces[i].value == selected;
    }
    assert interfaces[..|interfaces|] == interfaces;
    return Some(found);
  }

  lemma {:induction false} InOrder(pointer: Pointer, m: Manifest, selected: string, pinned: Option<string>,
                                   https: Https)
    requires IsAid(pointer.aid) && IsAid(m.aid) && (pinned.Some? ==> IsAid(pinned.value))
    ensures var checks := Checks(pointer, m, selected, pinned, https);
      && |checks| == 6
      && checks[0] == Rule(https(m.endpoint), ManifestRejected(MalformedEndpoint))
      && checks[1] == Rule(SameKey(m.aid, pointer.aid), AidMismatch)
      && checks[2] == Rule(pinned.Some? ==> SameKey(m.aid, pinned.value), PinnedAidMismatch)
      && checks[3] == Rule(m.interfaces.Some? && None !in m.interfaces.value, InterfacesKeyInvalid)
      && checks[4] == Rule(m.interfaces.Some? && Some(selected) in m.interfaces.value, InterfaceNotListed)
      && checks[5] == Rule(https(selected), InterfacesKeyInvalid)
  {
    hide IsAid, SameKey;
  }

  /** Bound exactly when every check holds; otherwise the error is that of the first that does not. */
  method BindManifest(pointer: Pointer, fetch: Fetch, selected: string, ctx: Context, https: Https)
    returns (r: Result<Bound, BindingError>)
    requires IsInput(pointer, fetch, ctx)
    ensures fetch == Unreachable ==> r == Err(ManifestNotFound)
    ensures forall e :: fetch == Fetched(Err(e)) ==> r == Err(ManifestRejected(e))
    ensures fetch.Held? && fetch.manifest.expiresAt < ctx.now ==> r == Err(ManifestRejected(Expired))
    ensures forall m :: Obtains(fetch, ctx.now, m) ==>
              var checks := Checks(pointer, m, selected, ctx.expectedAid, https);
              if AllHold(checks) then r == Ok(Bound(m, selected)) else r.Err? && FailsFirst(checks, r.error)
    ensures r.Ok? ==> Obtains(fetch, ctx.now, r.value.manifest) && r.value.interfaceUrl == selected
  {
    hide IsAid, SameKey, AllHold, FailsFirst;
    var found := ManifestOf(fetch, ctx.now);
    if found.Err? {
      return Err(found.error);
    }
    var m := found.value;
    assert forall other :: Obtains(fetch, ctx.now, other) ==> other == m;
    hide Obtains, Checks;
    InOrder(pointer, m, selected, ctx.expectedAid, https);
    ghost var checks := Checks(pointer, m, selected, ctx.expectedAid, https);
    if !https(m.endpoint) {
      FirstFault(checks, 0);
      return Err(ManifestRejected(MalformedEndpoint));
    }
    if !SameKey(m.aid, pointer.aid) {
      FirstFault(checks, 1);
      return Err(AidMismatch);
    }
    if ctx.expectedAid.Some? && !SameKey(m.aid, ctx.expectedAid.value) {
      FirstFault(checks, 2);
      return Err(PinnedAidMismatch);
    }
    if m.interfaces.None? {
      FirstFault(checks, 3);
      return Err(InterfacesKeyInvalid);
    }
    var listed := Lists(m.interfaces.value, selected);
    if listed.None? {
      FirstFault(checks, 3);
      return Err(InterfacesKeyInvalid);
    }
    if !listed.value {
      FirstFault(checks, 4);
      return Err(InterfaceNotListed);
    }
    if !https(selected) {
      FirstFault(checks, 5);
      return Err(InterfacesKeyInvalid);
    }
    NoFault(checks);
    r := Ok(Bound(m, selected));
  }

  /** Whether and why a Card binds depends on its AID only through the key that AID denotes. */
  lemma {:induction false} OnlyTheKeyCounts(a: Pointer, b: Pointer, m: Manifest, selected: string,
                                            pinned: Option<string>, https: Https)
    requires IsAid(a.aid) && IsAid(b.aid) && IsAid(m.aid)
      && (pinned.Some? ==> IsAid(pinned.value)) && SameKey(a.aid, b.aid)
    ensures Checks(a, m, selected, pinned, https) == Checks(b, m, selected, pinned, https)
  {
    hide IsAid;
  }

  /** Cards that bind to one Manifest name one key: the Manifest's, and the pinned one. */
  lemma {:induction false} BoundCardsShareTheKey(a: Pointer, b: Pointer, m: Manifest, s: string, t: string,
                                                 pinned: Option<string>, https: Https)
    requires IsAid(a.aid) && IsAid(b.aid) && IsAid(m.aid) && (pinned.Some? ==> IsAid(pinned.value))
    requires AllHold(Checks(a, m, s, pinned, https)) && AllHold(Checks(b, m, t, pinned, https))
    ensures SameKey(a.aid, b.aid) && KeyOf(a.aid) == KeyOf(m.aid)
      && (pinned.Some? ==> KeyOf(pinned.value) == KeyOf(m.aid))
    ensures ToAid(KeyOf(a.aid)) == ToAid(KeyOf(b.aid))
  {
    assert Checks(a, m, s, pinned, https)[1].holds && Checks(b, m, t, pinned, https)[1].holds;
    assert Checks(a, m, s, pinned, https)[2].holds;
    SameKeyIsCanonicalEquality(a.aid, b.aid);
  }

  /** One entry that is not a string spoils the list, even after the selected interface has been met. */
  lemma {:induction false} OneBadEntrySpoilsTheList(pointer: Pointer, m: Manifest, selected: string,
                                                    pinned: Option<string>, https: Https,
                                 before: seq<Option<string>>, after: seq<Option<string>>)
    requires IsAid(pointer.aid) && IsAid(m.aid) && (pinned.Some? ==> IsAid(pinned.value))
    requires m.interfaces == Some(before + [None] + after) && Some(selected) in before
    requires https(m.endpoint) && SameKey(m.aid, pointer.aid) && (pinned.Some? ==> SameKey(m.aid, pinned.value))
    ensures var checks := Checks(pointer, m, selected, pinned, https);
            !AllHold(checks) && forall e :: FailsFirst(checks, e) ==> e == InterfacesKeyInvalid
  {
    hide IsAid, SameKey;
    var checks := Checks(pointer, m, selected, pinned, https);
    assert (before + [None] + after)[|before|] == None;
    assert !checks[3].holds;
    forall e | FailsFirst(checks, e)
      ensures e == InterfacesKeyInvalid
    {
      var i :| 0 <= i < |checks| && !checks[i].holds && checks[i].error == e
        && forall j :: 0 <= j < i ==> checks[j].holds;
      assert checks[0].holds && checks[1].holds && checks[2].holds;
      assert i == 3;
    }
  }
}
