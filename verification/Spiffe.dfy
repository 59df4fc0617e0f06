/**
 SPIFFE identities: the canonical SPIFFE ID and the verifier's own bundles. Text is its UTF-8
 bytes, one character each.
 */
module Spiffe {
  import opened Basics
  import opened Ordering

  // ---------------------------------------------------------------- the SPIFFE ID

  const MAX_SPIFFE_ID_LEN: nat := 2048
  const MAX_TRUST_DOMAIN_LEN: nat := 255
  const SCHEME := "spiffe://"

  datatype IdError = TooLong | NotSpiffe | NoPath | BadTrustDomain | BadPath

  predicate IsMark(c: char) {
    c == '.' || c == '-' || c == '_'
  }

  predicate IsTrustDomain(td: string) {
    0 < |td| <= MAX_TRUST_DOMAIN_LEN
      && forall i :: 0 <= i < |td| ==> 'a' <= td[i] <= 'z' || '0' <= td[i] <= '9' || IsMark(td[i])
  }

  predicate IsSegment(s: string) {
    && s != "" && s != "." && s != ".."
    && forall i :: 0 <= i < |s| ==> 'a' <= s[i] <= 'z' || 'A' <= s[i] <= 'Z' || '0' <= s[i] <= '9' || IsMark(s[i])
  }

  predicate StartsWith(s: string, prefix: string) {
    |prefix| <= |s| && s[..|prefix|] == prefix
  }

  function FirstSlash(s: string): (r: Option<nat>)
    ensures r.Some? ==> r.value < |s| && s[r.value] == '/' && '/' !in s[..r.value]
    ensures r.None? ==> '/' !in s
  {
    if s == "" then None
    else if s[0] == '/' then Some(0)
    else
      var r := FirstSlash(s[1..]);
      if r.None? then None
      else
        assert s[..r.value + 1] == [s[0]] + s[1..][..r.value];
        Some(r.value + 1)
  }

  /** The pieces between slashes: one more than there are slashes. */
  function Split(s: string): (pieces: seq<string>)
    ensures pieces != []
  {
    if s == "" then [""]
    else
      var rest := Split(s[1..]);
      if s[0] == '/' then [""] + rest else [[s[0]] + rest[0]] + rest[1..]
  }

  function TrustDomainOf(id: string): (r: Result<string, IdError>) {
    if |id| > MAX_SPIFFE_ID_LEN then Err(TooLong)
    else if !StartsWith(id, SCHEME) then Err(NotSpiffe)
    else
      var rest := id[|SCHEME|..];
      var slash := FirstSlash(rest);
      if slash.None? then Err(NoPath)
      else if !IsTrustDomain(rest[..slash.value]) then Err(BadTrustDomain)
      else if !(forall s :: s in Split(rest[slash.value + 1..]) ==> IsSegment(s)) then Err(BadPath)
      else Ok(rest[..slash.value])
  }

  function Joined(segments: seq<string>): string {
    if segments == [] then ""
    else if |segments| == 1 then segments[0]
    else segments[0] + "/" + Joined(segments[1..])
  }

  /** The ID of a workload: a trust domain and a path of at least one segment. */
  function Printed(td: string, path: seq<string>): string {
    SCHEME + (td + ("/" + Joined(path)))
  }

  /** Section 2.1 of the SPIFFE ID standard: lower-case letters, digits and three marks. */
  ghost predicate IsDomainChar(c: char) {
    ('a' <= c && c <= 'z') || ('0' <= c && c <= '9') || c == '.' || c == '-' || c == '_'
  }

  ghost predicate IsDomainText(td: string) {
    1 <= |td| <= 255 && forall i :: 0 <= i < |td| ==> IsDomainChar(td[i])
  }

  /** Section 2.2: a segment may also hold capitals, and is neither empty nor a relative one. */
  ghost predicate IsSegmentText(s: string) {
    && (forall i :: 0 <= i < |s| ==> IsDomainChar(s[i]) || ('A' <= s[i] && s[i] <= 'Z'))
    && s != [] && s != ['.'] && s != ['.', '.']
  }

  lemma {:induction false} TextsExactly(s: string)
    ensures IsTrustDomain(s) <==> IsDomainText(s)
    ensures IsSegment(s) <==> IsSegmentText(s)
  {
  }

  ghost predicate IsWorkload(td: string, path: seq<string>) {
    IsDomainText(td) && path != []
    && (forall i :: 0 <= i < |path| ==> IsSegmentText(path[i])) && |Printed(td, path)| <= 2048
  }

  lemma {:induction false} JoinedSplit(s: string)
    ensures Joined(Split(s)) == s
  {
    if s != "" {
      JoinedSplit(s[1..]);
      assert s == [s[0]] + s[1..];
      hide Joined;
      JoinedEmpty(Split(s[1..]));
      JoinedLonger(s[0], Split(s[1..]));
    }
  }

  lemma {:induction false} JoinedEmpty(pieces: seq<string>)
    requires pieces != []
    ensures Joined([""] + pieces) == "/" + Joined(pieces)
  {
    assert ([""] + pieces)[1..] == pieces;
  }

  lemma {:induction false} JoinedLonger(c: char, pieces: seq<string>)
    requires pieces != []
    ensures Joined([[c] + pieces[0]] + pieces[1..]) == [c] + Joined(pieces)
  {
    if |pieces| > 1 {
      var more := [[c] + pieces[0]] + pieces[1..];
      var p, rest := pieces[0], Joined(pieces[1..]);
      assert more[1..] == pieces[1..] && more[0] == [c] + p;
      assert Joined(more) == ([c] + p) + "/" + rest;
      assert Joined(pieces) == p + "/" + rest;
      hide *;
      Regroup([c], p, "/");
      Regroup([c], p + "/", rest);
    }
  }

  lemma {:induction false} SplitPiece(piece: string, rest: string)
    requires '/' !in piece
    ensures Split(piece) == [piece]
    ensures Split(piece + ("/" + rest)) == [piece] + Split(rest)
  {
    var all := piece + ("/" + rest);
    if piece == "" {
      assert all == "/" + rest && all[1..] == rest;
    } else {
      assert piece == [piece[0]] + piece[1..];
      assert all[1..] == piece[1..] + ("/" + rest) && all[0] == piece[0];
      SplitPiece(piece[1..], rest);
    }
  }

  lemma {:induction false} SplitJoined(path: seq<string>)
    requires path != [] && forall i :: 0 <= i < |path| ==> '/' !in path[i]
    ensures Split(Joined(path)) == path
  {
    if |path| == 1 {
      SplitPiece(path[0], "");
    } else {
      SplitJoined(path[1..]);
      SplitPiece(path[0], Joined(path[1..]));
      assert Joined(path) == path[0] + ("/" + Joined(path[1..]));
    }
  }

  lemma {:induction false} PartsHaveNoSlash(td: string, path: seq<string>)
    requires IsWorkload(td, path)
    ensures '/' !in td && forall i :: 0 <= i < |path| ==> '/' !in path[i]
  {
    forall i | 0 <= i < |path|
      ensures '/' !in path[i]
    {
      assert IsSegmentText(path[i]);
    }
  }

  lemma {:induction false} FirstSlashAfter(td: string, rest: string)
    requires '/' !in td
    ensures FirstSlash(td + ("/" + rest)) == Some(|td|)
  {
    if td != "" {
      var all := td + ("/" + rest);
      assert td == [td[0]] + td[1..];
      assert all[0] == td[0] && all[1..] == td[1..] + ("/" + rest);
      FirstSlashAfter(td[1..], rest);
    }
  }

  lemma {:induction false} PartsAreTexts(td: string, path: seq<string>)
    ensures IsTrustDomain(td) <==> IsDomainText(td)
    ensures (forall s :: s in path ==> IsSegment(s)) <==> forall i :: 0 <= i < |path| ==> IsSegmentText(path[i])
  {
    TextsExactly(td);
    forall i | 0 <= i < |path|
      ensures IsSegment(path[i]) <==> IsSegmentText(path[i])
    {
      TextsExactly(path[i]);
    }
    hide IsSegment, IsSegmentText;
  }

  /** Every workload's ID is read back to its trust domain. */
  lemma {:induction false} PrintedIsRead(td: string, path: seq<string>)
    requires IsWorkload(td, path)
    ensures TrustDomainOf(Printed(td, path)) == Ok(td) && Split(Printed(td, path)[|SCHEME| + |td| + 1..]) == path
  {
    PartsHaveNoSlash(td, path);
    PartsAreTexts(td, path);
    hide IsTrustDomain, IsSegment, IsSegmentText, Joined;
    var id := Printed(td, path);
    var rest := td + ("/" + Joined(path));
    assert id[..|SCHEME|] == SCHEME && id[|SCHEME|..] == rest;
    FirstSlashAfter(td, Joined(path));
    assert rest[..|td|] == td && rest[|td| + 1..] == Joined(path);
    assert id[|SCHEME| + |td| + 1..] == rest[|td| + 1..];
    SplitJoined(path);
  }

  /** The path the recogniser saw. */
  function PathOf(id: string): seq<string>
    requires TrustDomainOf(id).Ok?
  {
    Split(id[|SCHEME| + |TrustDomainOf(id).value| + 1..])
  }

  lemma {:induction false} ReadIsPrinted(id: string)
    requires TrustDomainOf(id).Ok?
    ensures IsWorkload(TrustDomainOf(id).value, PathOf(id)) && id == Printed(TrustDomainOf(id).value, PathOf(id))
  {
    hide IsTrustDomain, IsDomainText, IsSegment, IsSegmentText, Joined, Split, FirstSlash;
    var rest := id[|SCHEME|..];
    var n := FirstSlash(rest).value;
    var tail := rest[n + 1..];
    PartsAreTexts(rest[..n], Split(tail));
    assert id[|SCHEME| + n + 1..] == tail;
    JoinedSplit(tail);
    assert id == SCHEME + rest;
    CutAt(rest, n);
  }

  lemma {:induction false} CutAt(s: string, n: nat)
    requires n < |s| && s[n] == '/'
    ensures s == s[..n] + ("/" + s[n + 1..])
  {
  }

  /** The recogniser accepts exactly the printed IDs of workloads, each with its own trust domain. */
  lemma {:induction false} AcceptsExactly(id: string, td: string)
    ensures TrustDomainOf(id) == Ok(td) <==> exists path :: IsWorkload(td, path) && id == Printed(td, path)
  {
    if TrustDomainOf(id) == Ok(td) {
      ReadIsPrinted(id);
    }
    forall path | IsWorkload(td, path) && id == Printed(td, path)
      ensures TrustDomainOf(id) == Ok(td)
    {
      PrintedIsRead(td, path);
    }
  }

  /** No two workloads share an ID. */
  lemma {:induction false} PrintedOnce(td: string, path: seq<string>, td2: string, path2: seq<string>)
    requires IsWorkload(td, path) && IsWorkload(td2, path2) && Printed(td, path) == Printed(td2, path2)
    ensures td == td2 && path == path2
  {
    PrintedIsRead(td, path);
    PrintedIsRead(td2, path2);
  }

  /** What an ID is refused for, first of all its length, last of all a segment of its path. */
  lemma {:induction false} IdReports(id: string, td: string, path: seq<string>)
    ensures |id| > 2048 <==> TrustDomainOf(id) == Err(TooLong)
    ensures |id| <= 2048 ==>
      (TrustDomainOf(id) == Err(NotSpiffe) <==> !("spiffe://" <= id))
    ensures |id| <= 2048 && "spiffe://" <= id ==>
      (TrustDomainOf(id) == Err(NoPath) <==> '/' !in id[9..])
    ensures |id| <= 2048 && '/' !in td && path != [] && (forall i :: 0 <= i < |path| ==> '/' !in path[i])
            && id == "spiffe://" + (td + ("/" + Joined(path))) ==>
      TrustDomainOf(id) == if !IsDomainText(td) then Err(BadTrustDomain)
                           else if exists i :: 0 <= i < |path| && !IsSegmentText(path[i]) then Err(BadPath)
                           else Ok(td)
  {
    hide IsTrustDomain, IsDomainText, IsSegment, IsSegmentText, Joined, Split, FirstSlash;
    assert StartsWith(id, SCHEME) <==> "spiffe://" <= id;
    if '/' !in td && path != [] && (forall i :: 0 <= i < |path| ==> '/' !in path[i])
       && id == "spiffe://" + (td + ("/" + Joined(path))) {
      var rest := td + ("/" + Joined(path));
      assert id[9..] == rest;
      FirstSlashAfter(td, Joined(path));
      assert rest[..|td|] == td && rest[|td| + 1..] == Joined(path);
      SplitJoined(path);
      PartsAreTexts(td, path);
    }
  }

  // ---------------------------------------------------------------- one bundle

  /** A parsed public key, with the `kid` of the JWK it came from. */
  datatype JwtKey = JwtKey(kid: string, material: string)

  datatype KeyParse = Parsed(material: string) | Unsupported | BadKey(message: string)

  /** The certificates of a JWK's `x5c`, when it is an array. */
  datatype CertEntry = NotAString | Cert(der: Result<string, string>)

  /** A JWK as far as a bundle reads it. */
  datatype Jwk = Jwk(purpose: Option<string>, kid: Option<string>, parse: KeyParse, x5c: Option<seq<CertEntry>>)

  datatype Bundle = Bundle(jwtKeys: seq<JwtKey>, certificates: seq<string>)

  datatype Malformed =
    | NoKeys
    | NoKid
    | DuplicateKid(kid: string)
    | BadJwk(message: string)
    | NotOneCertificate
    | CertificateNotText
    | BadCertificate(message: string)

  predicate IsJwt(k: Jwk) {
    k.purpose == Some("jwt-svid")
  }

  predicate IsX509(k: Jwk) {
    k.purpose == Some("x509-svid")
  }

  predicate Holds(keys: seq<JwtKey>, kid: string) {
    exists i :: 0 <= i < |keys| && keys[i].kid == kid
  }

  /** What is wrong with one JWK, given the keys already taken. */
  function Fault(keys: seq<JwtKey>, k: Jwk): Option<Malformed> {
    if IsJwt(k) then
      if k.kid.None? || k.kid.value == "" then Some(NoKid)
      else if Holds(keys, k.kid.value) then Some(DuplicateKid(k.kid.value))
      else if k.parse.BadKey? then Some(BadJwk(k.parse.message))
      else None
    else if IsX509(k) then
      if k.x5c.None? || |k.x5c.value| != 1 then Some(NotOneCertificate)
      else if k.x5c.value[0].NotAString? then Some(CertificateNotText)
      else if k.x5c.value[0].der.Err? then Some(BadCertificate(k.x5c.value[0].der.error))
      else None
    else None
  }

  /** The JWT keys a list of JWKs puts into a bundle. */
  ghost function JwtKeys(jwks: seq<Jwk>): seq<JwtKey> {
    if jwks == [] then []
    else
      var k := jwks[|jwks| - 1];
      JwtKeys(jwks[..|jwks| - 1])
      + if IsJwt(k) && k.kid.Some? && k.parse.Parsed? then [JwtKey(k.kid.value, k.parse.material)] else []
  }

  ghost function Certificates(jwks: seq<Jwk>): seq<string> {
    if jwks == [] then []
    else
      var k := jwks[|jwks| - 1];
      Certificates(jwks[..|jwks| - 1]) + if IsX509(k) && HasCertificate(k) then [k.x5c.value[0].der.value] else []
  }

  predicate HasCertificate(k: Jwk) {
    k.x5c.Some? && |k.x5c.value| == 1 && k.x5c.value[0].Cert? && k.x5c.value[0].der.Ok?
  }

  /** Every JWK passes, in the order they stand. */
  ghost predicate IsFaultless(jwks: seq<Jwk>) {
    forall i :: 0 <= i < |jwks| ==> FaultAt(jwks, i).None?
  }

  ghost function FaultAt(jwks: seq<Jwk>, i: nat): Option<Malformed>
    requires i < |jwks|
  {
    Fault(JwtKeys(jwks[..i]), jwks[i])
  }

  ghost predicate IsFirstFault(jwks: seq<Jwk>, e: Malformed, i: nat) {
    i < |jwks| && FaultAt(jwks, i) == Some(e) && forall j :: 0 <= j < i ==> FaultAt(jwks, j).None?
  }

  /** A bundle's JWK set, if it has a `keys` array. */
  type JwkSet = Option<seq<Jwk>>

  ghost predicate Parses(keys: JwkSet) {
    keys.Some? && IsFaultless(keys.value)
  }

  ghost function BundleOf(keys: JwkSet): Bundle
    requires keys.Some?
  {
    Bundle(JwtKeys(keys.value), Certificates(keys.value))
  }

  ghost predicate Refuses(keys: JwkSet, e: Malformed) {
    if keys.None? then e == NoKeys else exists i: nat :: IsFirstFault(keys.value, e, i)
  }

  /** Every key of the set, or the first fault. */
  method FromJwkSet(keys: JwkSet) returns (r: Result<Bundle, Malformed>)
    ensures r.Ok? <==> Parses(keys)
    ensures r.Ok? ==> r.value == BundleOf(keys)
    ensures r.Err? ==> Refuses(keys, r.error)
  {
    if keys.None? {
      return Err(NoKeys);
    }
    var jwks := keys.value;
    var jwtKeys, certificates := [], [];
    var i := 0;
    while i < |jwks|
      invariant i <= |jwks| && jwtKeys == JwtKeys(jwks[..i]) && certificates == Certificates(jwks[..i])
      invariant forall j :: 0 <= j < i ==> FaultAt(jwks, j).None?
    {
      var k := jwks[i];
      assert jwks[..i + 1][..i] == jwks[..i];
      var fault := Fault(jwtKeys, k);
      if fault.Some? {
        assert IsFirstFault(jwks, fault.value, i);
        return Err(fault.value);
      }
      if IsJwt(k) {
        if k.parse.Parsed? {
          jwtKeys := jwtKeys + [JwtKey(k.kid.value, k.parse.material)];
        }
      } else if IsX509(k) {
        certificates := certificates + [k.x5c.value[0].der.value];
      }
      i := i + 1;
    }
    assert jwks[..i] == jwks;
    r := Ok(Bundle(jwtKeys, certificates));
  }

  /** In a bundle every key can be told from the others by its `kid`. */
  lemma {:induction false} KidsAreDistinct(jwks: seq<Jwk>)
    requires IsFaultless(jwks)
    ensures forall i, j :: 0 <= i < j < |JwtKeys(jwks)| ==> JwtKeys(jwks)[i].kid != JwtKeys(jwks)[j].kid
    ensures forall i :: 0 <= i < |JwtKeys(jwks)| ==> JwtKeys(jwks)[i].kid != ""
  {
    if jwks != [] {
      var front := jwks[..|jwks| - 1];
      FrontIsFaultless(jwks);
      KidsAreDistinct(front);
      assert FaultAt(jwks, |jwks| - 1).None?;
    }
  }

  lemma {:induction false} FrontIsFaultless(jwks: seq<Jwk>)
    requires jwks != [] && IsFaultless(jwks)
    ensures IsFaultless(jwks[..|jwks| - 1])
  {
    hide Fault, JwtKeys;
    var front := jwks[..|jwks| - 1];
    forall i | 0 <= i < |front|
      ensures FaultAt(front, i).None?
    {
      assert front[..i] == jwks[..i];
      assert FaultAt(jwks, i).None?;
    }
  }

  /** What one JWK needs by itself. */
  predicate IsSound(k: Jwk) {
    && (IsJwt(k) ==> k.kid.Some? && k.kid.value != "" && !k.parse.BadKey?)
    && (IsX509(k) ==> HasCertificate(k))
  }

  /** A key that is kept, and a later `jwt-svid` key of the same `kid`. */
  ghost predicate Repeats(jwks: seq<Jwk>, i: nat, j: nat) {
    && i < j < |jwks| && jwks[i].purpose == jwks[j].purpose == Some("jwt-svid")
    && jwks[i].parse.Parsed? && jwks[i].kid == jwks[j].kid
  }

  lemma {:induction false} HoldsExactly(jwks: seq<Jwk>, kid: string)
    ensures Holds(JwtKeys(jwks), kid) <==>
            exists i :: 0 <= i < |jwks| && IsJwt(jwks[i]) && jwks[i].parse.Parsed? && jwks[i].kid == Some(kid)
  {
    if jwks != [] {
      var front, k := jwks[..|jwks| - 1], jwks[|jwks| - 1];
      HoldsExactly(front, kid);
      var keys, before := JwtKeys(jwks), JwtKeys(front);
      if Holds(before, kid) {
        var i :| 0 <= i < |before| && before[i].kid == kid;
        assert keys[i] == before[i];
      }
      if IsJwt(k) && k.parse.Parsed? && k.kid == Some(kid) {
        assert keys[|before|].kid == kid;
      }
      if i :| 0 <= i < |jwks| && IsJwt(jwks[i]) && jwks[i].parse.Parsed? && jwks[i].kid == Some(kid) && i < |jwks| - 1 {
        assert front[i] == jwks[i];
      }
    }
  }

  /** What the JWK at `j` must hold, by what it is for, and the fault that reports it does not. */
  ghost function KeyRules(jwks: seq<Jwk>, j: nat): seq<Rule<Malformed>>
    requires j < |jwks|
  {
    var k := jwks[j];
    if k.purpose == Some("jwt-svid") then
      var kid := if k.kid.Some? then k.kid.value else "";
      [ Rule(kid != "", NoKid),
        Rule(forall i: nat :: !Repeats(jwks, i, j), DuplicateKid(kid)),
        Rule(!k.parse.BadKey?, BadJwk(if k.parse.BadKey? then k.parse.message else "")) ]
    else if k.purpose == Some("x509-svid") then
      var one := k.x5c.Some? && |k.x5c.value| == 1;
      var bad := one && k.x5c.value[0].Cert? && k.x5c.value[0].der.Err?;
      [ Rule(one, NotOneCertificate),
        Rule(one ==> k.x5c.value[0].Cert?, CertificateNotText),
        Rule(!bad, BadCertificate(if bad then k.x5c.value[0].der.error else "")) ]
    else []
  }

  /** A JWK is at fault for the first rule it breaks. */
  lemma {:induction false} FaultReports(jwks: seq<Jwk>, j: nat)
    requires j < |jwks|
    ensures var rules := KeyRules(jwks, j);
      if AllHold(rules) then FaultAt(jwks, j).None?
      else FaultAt(jwks, j).Some? && FailsFirst(rules, FaultAt(jwks, j).value)
  {
    var rules := KeyRules(jwks, j);
    RepeatsExactly(jwks, j);
    hide JwtKeys, Holds, Repeats, AllHold, FailsFirst;
    if FaultAt(jwks, j).None? {
      NoFault(rules);
    } else {
      FirstFault(rules, if !rules[0].holds then 0 else if !rules[1].holds then 1 else 2);
    }
  }

  lemma {:induction false} RepeatsExactly(jwks: seq<Jwk>, j: nat)
    requires j < |jwks|
    ensures IsJwt(jwks[j]) && jwks[j].kid.Some? ==>
      (Holds(JwtKeys(jwks[..j]), jwks[j].kid.value) <==> exists i: nat :: Repeats(jwks, i, j))
  {
    hide JwtKeys, Holds;
    var k := jwks[j];
    if IsJwt(k) && k.kid.Some? {
      HoldsExactly(jwks[..j], k.kid.value);
      if i: nat :| Repeats(jwks, i, j) {
        assert jwks[..j][i] == jwks[i];
      }
      if Holds(JwtKeys(jwks[..j]), k.kid.value) {
        var i: nat :| i < |jwks[..j]| && IsJwt(jwks[..j][i]) && jwks[..j][i].parse.Parsed?
          && jwks[..j][i].kid == Some(k.kid.value);
        assert Repeats(jwks, i, j);
      }
    }
  }

  /** What a bundle holds: each verifiable key with its own `kid` and material, and each certificate, in order. */
  lemma {:induction false} BundleHolds(jwks: seq<Jwk>)
    ensures forall key :: key in JwtKeys(jwks) <==> exists j :: 0 <= j < |jwks| && Gives(jwks[j], key)
    ensures forall der :: der in Certificates(jwks) <==> exists j :: 0 <= j < |jwks| && Certifies(jwks[j], der)
  {
    if jwks != [] {
      var n := |jwks| - 1;
      BundleHolds(jwks[..n]);
      forall key
        ensures key in JwtKeys(jwks) <==> key in JwtKeys(jwks[..n]) || Gives(jwks[n], key)
      {
      }
      forall der
        ensures der in Certificates(jwks) <==> der in Certificates(jwks[..n]) || Certifies(jwks[n], der)
      {
        var k := jwks[n];
        assert HasCertificate(k) ==>
          k.x5c.value == [k.x5c.value[0]] && k.x5c.value[0] == Cert(Ok(k.x5c.value[0].der.value));
      }
      hide JwtKeys, Certificates, Gives, Certifies;
      assert forall j :: 0 <= j < n ==> jwks[..n][j] == jwks[j];
    }
  }

  ghost predicate Gives(k: Jwk, key: JwtKey) {
    k.purpose == Some("jwt-svid") && k.kid == Some(key.kid) && k.parse == Parsed(key.material)
  }

  ghost predicate Certifies(k: Jwk, der: string) {
    k.purpose == Some("x509-svid") && k.x5c == Some([Cert(Ok(der))])
  }

  lemma {:induction false} BundleKeepsOrder(a: seq<Jwk>, b: seq<Jwk>)
    ensures JwtKeys(a + b) == JwtKeys(a) + JwtKeys(b) && Certificates(a + b) == Certificates(a) + Certificates(b)
  {
    if b == [] {
      assert a + b == a;
    } else {
      BundleKeepsOrder(a, b[..|b| - 1]);
      assert (a + b)[..|a + b| - 1] == a + b[..|b| - 1];
    }
  }

  /** A set parses exactly when each key is sound and none repeats the `kid` of an earlier key that was kept. */
  lemma {:induction false} ParsesExactlyWhen(jwks: seq<Jwk>)
    ensures IsFaultless(jwks)
      <==> (forall i :: 0 <= i < |jwks| ==> IsSound(jwks[i])) && forall i, j :: !Repeats(jwks, i, j)
  {
    forall j | 0 <= j < |jwks|
      ensures FaultAt(jwks, j).None? <==> IsSound(jwks[j]) && forall i :: !Repeats(jwks, i, j)
    {
      FaultExactlyWhen(jwks, j);
    }
    hide FaultAt, IsSound;
    if !IsFaultless(jwks) {
      var j :| 0 <= j < |jwks| && FaultAt(jwks, j).Some?;
    }
    forall i: nat, j: nat | IsFaultless(jwks)
      ensures !Repeats(jwks, i, j)
    {
      assert j < |jwks| ==> FaultAt(jwks, j).None?;
    }
  }

  lemma {:induction false} FaultExactlyWhen(jwks: seq<Jwk>, j: nat)
    requires j < |jwks|
    ensures FaultAt(jwks, j).None? <==> IsSound(jwks[j]) && forall i: nat :: !Repeats(jwks, i, j)
  {
    hide JwtKeys, Holds;
    var k := jwks[j];
    if IsJwt(k) && k.kid.Some? {
      HoldsExactly(jwks[..j], k.kid.value);
      if i: nat :| Repeats(jwks, i, j) {
        assert jwks[..j][i] == jwks[i];
      }
      if Holds(JwtKeys(jwks[..j]), k.kid.value) {
        var i :| 0 <= i < j && IsJwt(jwks[..j][i]) && jwks[..j][i].parse.Parsed? && jwks[..j][i].kid == k.kid;
        assert Repeats(jwks, i, j);
      }
    }
  }

  /** An unsupported key's `kid` may come up again after it, but not before it. */
  lemma {:induction false} RepeatedKidDependsOnOrder(kid: string, material: string)
    requires kid != ""
    ensures var kept := Jwk(Some("jwt-svid"), Some(kid), Parsed(material), None);
            var skipped := Jwk(Some("jwt-svid"), Some(kid), Unsupported, None);
            IsFaultless([skipped, kept]) && !IsFaultless([kept, skipped])
  {
    var kept := Jwk(Some("jwt-svid"), Some(kid), Parsed(material), None);
    var skipped := Jwk(Some("jwt-svid"), Some(kid), Unsupported, None);
    ParsesExactlyWhen([skipped, kept]);
    ParsesExactlyWhen([kept, skipped]);
    assert Repeats([kept, skipped], 0, 1);
    assert IsSound(kept) && IsSound(skipped);
    assert forall i, j :: !Repeats([skipped, kept], i, j);
  }

  // ---------------------------------------------------------------- when the order of keys decides

  predicate IsKept(k: Jwk) {
    IsJwt(k) && k.parse.Parsed?
  }

  predicate IsSkipped(k: Jwk) {
    IsJwt(k) && k.parse.Unsupported?
  }

  /** The `kid`s of the keys that are kept. */
  ghost function KeptKids(jwks: seq<Jwk>): seq<Option<string>> {
    if jwks == [] then [] else (if IsKept(jwks[0]) then [jwks[0].kid] else []) + KeptKids(jwks[1..])
  }

  /** A kept key and a skipped one share a `kid`. */
  ghost predicate SharesWithSkipped(jwks: seq<Jwk>) {
    exists x, y :: x in jwks && y in jwks && IsKept(x) && IsSkipped(y) && x.kid == y.kid
  }

  ghost predicate AllSound(jwks: seq<Jwk>) {
    forall k :: k in jwks ==> IsSound(k)
  }

  lemma {:induction false} KeptKidsAppend(a: seq<Jwk>, b: seq<Jwk>)
    ensures KeptKids(a + b) == KeptKids(a) + KeptKids(b)
  {
    if a == [] {
      assert a + b == b;
    } else {
      assert (a + b)[0] == a[0] && (a + b)[1..] == a[1..] + b;
      KeptKidsAppend(a[1..], b);
    }
  }

  lemma {:induction false} KeptKidsMember(jwks: seq<Jwk>, kid: Option<string>)
    ensures kid in KeptKids(jwks) <==> exists k :: k in jwks && IsKept(k) && k.kid == kid
  {
    if jwks != [] {
      KeptKidsMember(jwks[1..], kid);
      assert jwks == [jwks[0]] + jwks[1..];
    }
  }

  lemma {:induction false} KeptKidsBag(a: seq<Jwk>, b: seq<Jwk>)
    requires multiset(a) == multiset(b)
    ensures multiset(KeptKids(a)) == multiset(KeptKids(b))
  {
    assert |multiset(a)| == |a| && |multiset(b)| == |b|;
    if a != [] {
      SameMembers(a, b);
      assert a[0] in a;
      var i :| 0 <= i < |b| && b[i] == a[0];
      RemoveOne(a, 0);
      RemoveOne(b, i);
      KeptKidsBag(Without(a, 0), Without(b, i));
      KidsWithout(a, 0);
      KidsWithout(b, i);
    }
  }

  lemma {:induction false} KidsWithout(jwks: seq<Jwk>, i: nat)
    requires i < |jwks|
    ensures multiset(KeptKids(jwks))
         == multiset(KeptKids(Without(jwks, i))) + multiset(if IsKept(jwks[i]) then [jwks[i].kid] else [])
  {
    var a, k, b := jwks[..i], jwks[i], jwks[i + 1..];
    assert jwks == a + ([k] + b);
    KeptKidsAppend(a, [k] + b);
    KeptKidsAppend([k], b);
    KeptKidsAppend(a, b);
    assert [k][1..] == [];
  }

  /** Of sound keys, a set parses exactly when the kept ones differ and none comes before a skipped key of its `kid`. */
  lemma {:induction false} SoundParsesExactlyWhen(jwks: seq<Jwk>)
    requires AllSound(jwks)
    ensures IsFaultless(jwks) <==>
      && Distinct(KeptKids(jwks))
      && forall i, j :: 0 <= i < j < |jwks| && IsKept(jwks[i]) && IsSkipped(jwks[j]) ==> jwks[i].kid != jwks[j].kid
  {
    hide IsFaultless, IsSound;
    ParsesExactlyWhen(jwks);
    assert forall i :: 0 <= i < |jwks| ==> jwks[i] in jwks;
    KeptDiffer(jwks);
    if Distinct(KeptKids(jwks))
       && forall i, j :: 0 <= i < j < |jwks| && IsKept(jwks[i]) && IsSkipped(jwks[j]) ==> jwks[i].kid != jwks[j].kid {
      forall i: nat, j: nat
        ensures !Repeats(jwks, i, j)
      {
        if Repeats(jwks, i, j) {
          assert IsSound(jwks[j]);
          SoundIsKeptOrSkipped(jwks[j]);
        }
      }
    }
    if forall i, j :: !Repeats(jwks, i, j) {
      forall i, j | 0 <= i < j < |jwks| && IsKept(jwks[i]) && IsSkipped(jwks[j])
        ensures jwks[i].kid != jwks[j].kid
      {
        assert !Repeats(jwks, i, j);
      }
      forall i, j | 0 <= i < j < |jwks| && IsKept(jwks[i]) && IsKept(jwks[j])
        ensures jwks[i].kid != jwks[j].kid
      {
        assert !Repeats(jwks, i, j);
      }
    }
  }

  lemma {:induction false} SoundIsKeptOrSkipped(k: Jwk)
    ensures IsJwt(k) && IsSound(k) ==> IsKept(k) || IsSkipped(k)
  {
  }

  ghost predicate KeptOnesDiffer(jwks: seq<Jwk>) {
    forall i, j :: 0 <= i < j < |jwks| && IsKept(jwks[i]) && IsKept(jwks[j]) ==> jwks[i].kid != jwks[j].kid
  }

  lemma {:induction false} KeptDiffer(jwks: seq<Jwk>)
    ensures Distinct(KeptKids(jwks)) <==> KeptOnesDiffer(jwks)
  {
    hide IsKept, KeptOnesDiffer;
    if jwks == [] {
      NoneDiffer();
    } else {
      KeptDiffer(jwks[1..]);
      KeptKidsMember(jwks[1..], jwks[0].kid);
      OneMoreDiffers(jwks);
      DistinctCons(jwks[0].kid, KeptKids(jwks[1..]));
      assert [] + KeptKids(jwks[1..]) == KeptKids(jwks[1..]);
    }
  }

  lemma {:induction false} NoneDiffer()
    ensures KeptOnesDiffer([])
  {
  }

  lemma {:induction false} OneMoreDiffers(jwks: seq<Jwk>)
    requires jwks != []
    ensures KeptOnesDiffer(jwks) <==>
      && KeptOnesDiffer(jwks[1..])
      && (IsKept(jwks[0]) ==> forall x :: x in jwks[1..] && IsKept(x) ==> x.kid != jwks[0].kid)
  {
    hide IsKept;
    var rest := jwks[1..];
    assert forall i :: 0 <= i < |rest| ==> rest[i] == jwks[i + 1];
    assert forall i :: 1 <= i < |jwks| ==> jwks[i] == rest[i - 1];
    if KeptOnesDiffer(jwks) && IsKept(jwks[0]) {
      forall x | x in rest && IsKept(x)
        ensures x.kid != jwks[0].kid
      {
        var i :| 0 <= i < |rest| && rest[i] == x;
        assert jwks[i + 1] == x;
      }
    }
    if KeptOnesDiffer(jwks) {
      forall i, j | 0 <= i < j < |rest| && IsKept(rest[i]) && IsKept(rest[j])
        ensures rest[i].kid != rest[j].kid
      {
        assert jwks[i + 1].kid != jwks[j + 1].kid;
      }
    }
  }

  lemma {:induction false} DistinctCons<T>(x: T, s: seq<T>)
    ensures Distinct([x] + s) <==> x !in s && Distinct(s)
  {
    var all := [x] + s;
    assert forall i :: 1 <= i < |all| ==> all[i] == s[i - 1];
    if Distinct(all) {
      forall i, j | 0 <= i < j < |s|
        ensures s[i] != s[j]
      {
        assert all[i + 1] != all[j + 1];
      }
      forall i | 0 <= i < |s|
        ensures s[i] != x
      {
        assert all[0] != all[i + 1];
      }
    }
  }

  /** Every order of the keys parses, or none does. */
  ghost predicate OrderIsIrrelevant(jwks: seq<Jwk>) {
    forall other :: multiset(other) == multiset(jwks) ==> (IsFaultless(other) <==> IsFaultless(jwks))
  }

  /** The order of keys decides exactly when all is well with them but for a kept key and a skipped one of one `kid`. */
  lemma {:induction false} OrderDecidesExactlyWhen(jwks: seq<Jwk>)
    ensures !OrderIsIrrelevant(jwks) <==> AllSound(jwks) && Distinct(KeptKids(jwks)) && SharesWithSkipped(jwks)
  {
    hide IsFaultless, AllSound, KeptKids;
    if AllSound(jwks) && Distinct(KeptKids(jwks)) && SharesWithSkipped(jwks) {
      var good := GoodOrder(jwks);
      var bad := BadOrder(jwks);
      assert IsFaultless(good) != IsFaultless(bad);
    } else {
      forall other | multiset(other) == multiset(jwks)
        ensures IsFaultless(other) <==> IsFaultless(jwks)
      {
        NoOrderHelps(jwks, other);
      }
    }
  }

  lemma {:induction false} NoOrderHelps(a: seq<Jwk>, b: seq<Jwk>)
    requires multiset(a) == multiset(b) && !(AllSound(a) && Distinct(KeptKids(a)) && SharesWithSkipped(a))
    ensures IsFaultless(a) <==> IsFaultless(b)
  {
    hide IsFaultless, IsSound, KeptKids;
    SameMembers(a, b);
    assert AllSound(a) <==> AllSound(b);
    if AllSound(a) {
      KeptKidsBag(a, b);
      if Distinct(KeptKids(a)) {
        DistinctBag(KeptKids(a), KeptKids(b));
      }
      if Distinct(KeptKids(b)) {
        DistinctBag(KeptKids(b), KeptKids(a));
      }
      SoundParsesExactlyWhen(a);
      SoundParsesExactlyWhen(b);
      assert forall i :: 0 <= i < |a| ==> a[i] in a;
      assert forall i :: 0 <= i < |b| ==> b[i] in a;
    } else {
      UnsoundNeverParses(a);
      UnsoundNeverParses(b);
    }
  }

  lemma {:induction false} UnsoundNeverParses(jwks: seq<Jwk>)
    requires !AllSound(jwks)
    ensures !IsFaultless(jwks)
  {
    hide IsFaultless, IsSound;
    ParsesExactlyWhen(jwks);
    var k :| k in jwks && !IsSound(k);
    var i :| 0 <= i < |jwks| && jwks[i] == k;
  }

  /** Skipped keys first. */
  ghost function SkippedFirst(jwks: seq<Jwk>): seq<Jwk> {
    if jwks == [] then []
    else if IsSkipped(jwks[0]) then [jwks[0]] + SkippedFirst(jwks[1..])
    else SkippedFirst(jwks[1..]) + [jwks[0]]
  }

  lemma {:induction false} SkippedFirstIs(jwks: seq<Jwk>)
    ensures multiset(SkippedFirst(jwks)) == multiset(jwks)
    ensures forall i, j :: 0 <= i < j < |SkippedFirst(jwks)| && IsSkipped(SkippedFirst(jwks)[j]) ==>
      IsSkipped(SkippedFirst(jwks)[i])
  {
    hide IsSkipped;
    if jwks != [] {
      SkippedFirstIs(jwks[1..]);
      assert jwks == [jwks[0]] + jwks[1..];
    }
  }

  lemma {:induction false} GoodOrder(jwks: seq<Jwk>) returns (good: seq<Jwk>)
    requires AllSound(jwks) && Distinct(KeptKids(jwks))
    ensures multiset(good) == multiset(jwks) && IsFaultless(good)
  {
    hide IsFaultless, IsSound, KeptKids, SkippedFirst;
    good := SkippedFirst(jwks);
    SkippedFirstIs(jwks);
    SameMembers(good, jwks);
    KeptKidsBag(good, jwks);
    DistinctBag(KeptKids(jwks), KeptKids(good));
    SoundParsesExactlyWhen(good);
  }

  lemma {:induction false} BadOrder(jwks: seq<Jwk>) returns (bad: seq<Jwk>)
    requires AllSound(jwks) && SharesWithSkipped(jwks)
    ensures multiset(bad) == multiset(jwks) && !IsFaultless(bad)
  {
    hide IsFaultless, IsSound;
    var x, y :| x in jwks && y in jwks && IsKept(x) && IsSkipped(y) && x.kid == y.kid;
    var i :| 0 <= i < |jwks| && jwks[i] == x;
    RemoveOne(jwks, i);
    bad := [x] + Without(jwks, i);
    SameMembers(bad, jwks);
    assert y in bad;
    var j :| 0 <= j < |bad| && bad[j] == y;
    ParsesExactlyWhen(bad);
    assert Repeats(bad, 0, j);
  }

  // ---------------------------------------------------------------- the store

  datatype TrustDomain = TrustDomain(name: string)

  type Bundles = map<TrustDomain, Bundle>

  datatype ConfigError =
    | NotAnArray
    | NoTrustDomain
    | NoBundle
    | BadBundle(cause: Malformed)
    | InvalidTrustDomain(td: TrustDomain)
    | DuplicateTrustDomain(td: TrustDomain)

  datatype Entry = Entry(trustDomain: Option<TrustDomain>, bundle: Option<JwkSet>)

  /** An entry that could stand in a store by itself. */
  ghost predicate IsComplete(e: Entry) {
    && e.trustDomain.Some? && e.bundle.Some? && Parses(e.bundle.value)
    && IsDomainText(e.trustDomain.value.name)
  }

  ghost function DomainsOf(entries: seq<Entry>): (tds: seq<Option<TrustDomain>>)
    ensures |tds| == |entries| && forall i :: 0 <= i < |entries| ==> tds[i] == entries[i].trustDomain
  {
    seq(|entries|, i requires 0 <= i < |entries| => entries[i].trustDomain)
  }

  /** Every entry is complete, and no two are for one trust domain. */
  ghost predicate IsConfig(entries: seq<Entry>) {
    (forall e :: e in entries ==> IsComplete(e)) && Distinct(DomainsOf(entries))
  }

  /** The store holds each entry's bundle under its trust domain, and nothing else. */
  ghost predicate IsStoreOf(entries: seq<Entry>, bundles: Bundles) {
    && (forall td :: td in bundles <==> Some(td) in DomainsOf(entries))
    && (forall e :: e in entries ==>
        IsComplete(e) && e.trustDomain.value in bundles && bundles[e.trustDomain.value] == BundleOf(e.bundle.value))
  }

  /** What is wrong with an entry, given the trust domains before it. */
  ghost predicate EntryFails(before: seq<Entry>, e: Entry, error: ConfigError) {
    if e.trustDomain.None? then error == NoTrustDomain
    else if e.bundle.None? then error == NoBundle
    else if !Parses(e.bundle.value) then error.BadBundle? && Refuses(e.bundle.value, error.cause)
    else if !IsDomainText(e.trustDomain.value.name) then error == InvalidTrustDomain(e.trustDomain.value)
    else e.trustDomain in DomainsOf(before) && error == DuplicateTrustDomain(e.trustDomain.value)
  }

  ghost predicate IsFirstFailure(entries: seq<Entry>, error: ConfigError, i: nat) {
    i < |entries| && EntryFails(entries[..i], entries[i], error) && IsConfig(entries[..i])
  }

  class SpiffeBundleStore {
    var bundles: Bundles

    constructor ()
      ensures bundles == map[]
    {
      bundles := map[];
    }

    method Insert(td: TrustDomain, bundle: Bundle) returns (r: Option<ConfigError>)
      modifies this
      ensures r.None? <==> IsDomainText(td.name) && td !in old(bundles)
      ensures bundles == if r.None? then old(bundles)[td := bundle] else old(bundles)
      ensures r.Some? ==> r.value == if IsDomainText(td.name) then DuplicateTrustDomain(td) else InvalidTrustDomain(td)
    {
      TextsExactly(td.name);
      hide IsTrustDomain, IsDomainText;
      if !IsTrustDomain(td.name) {
        return Some(InvalidTrustDomain(td));
      }
      if td in bundles {
        return Some(DuplicateTrustDomain(td));
      }
      bundles := bundles[td := bundle];
      r := None;
    }

    method Get(td: TrustDomain) returns (r: Option<Bundle>)
      ensures r == if td in bundles then Some(bundles[td]) else None
    {
      r := if td in bundles then Some(bundles[td]) else None;
    }
  }

  /** The store of a configuration, or the first thing wrong with it. */
  method FromConfig(config: Option<seq<Entry>>) returns (r: Result<SpiffeBundleStore, ConfigError>)
    ensures r.Ok? ==> fresh(r.value) && config.Some? && IsStoreOf(config.value, r.value.bundles)
    ensures r.Ok? <==> config.Some? && IsConfig(config.value)
    ensures r.Err? ==> if config.None? then r.error == NotAnArray
      else exists i: nat :: IsFirstFailure(config.value, r.error, i)
  {
    hide Parses, Refuses, BundleOf, IsDomainText, IsConfig, IsStoreOf, EntryFails;
    if config.None? {
      return Err(NotAnArray);
    }
    var entries := config.value;
    var store := new SpiffeBundleStore();
    EmptyConfig();
    var i := 0;
    assert entries[..i] == [];
    while i < |entries|
      invariant i <= |entries| && IsConfig(entries[..i]) && IsStoreOf(entries[..i], store.bundles)
      invariant fresh(store)
    {
      var e := entries[i];
      ghost var before := store.bundles;
      if e.trustDomain.None? {
        FirstFailure(entries, before, i, NoTrustDomain);
        return Err(NoTrustDomain);
      }
      if e.bundle.None? {
        FirstFailure(entries, before, i, NoBundle);
        return Err(NoBundle);
      }
      var bundle := FromJwkSet(e.bundle.value);
      if bundle.Err? {
        FirstFailure(entries, before, i, BadBundle(bundle.error));
        return Err(BadBundle(bundle.error));
      }
      var error := store.Insert(e.trustDomain.value, bundle.value);
      if error.Some? {
        FirstFailure(entries, before, i, error.value);
        return Err(error.value);
      }
      OneMoreEntry(entries, before, i);
      i := i + 1;
    }
    assert entries[..i] == entries;
    r := Ok(store);
  }

  lemma {:induction false} EmptyConfig()
    ensures IsConfig([]) && IsStoreOf([], map[])
  {
  }

  lemma {:induction false} FirstFailure(entries: seq<Entry>, bundles: Bundles, i: nat, error: ConfigError)
    requires i < |entries| && IsConfig(entries[..i]) && IsStoreOf(entries[..i], bundles)
    requires var e := entries[i];
             if e.trustDomain.None? then error == NoTrustDomain
             else if e.bundle.None? then error == NoBundle
             else if !Parses(e.bundle.value) then error.BadBundle? && Refuses(e.bundle.value, error.cause)
             else if !IsDomainText(e.trustDomain.value.name) then error == InvalidTrustDomain(e.trustDomain.value)
             else e.trustDomain.value in bundles && error == DuplicateTrustDomain(e.trustDomain.value)
    ensures IsFirstFailure(entries, error, i) && !IsConfig(entries)
  {
    hide Parses, Refuses, BundleOf, IsDomainText;
    var e := entries[i];
    assert e in entries;
    if e.trustDomain.Some? && e.trustDomain.value in bundles {
      var tds := DomainsOf(entries[..i]);
      var j :| 0 <= j < i && tds[j] == e.trustDomain;
      assert DomainsOf(entries)[j] == DomainsOf(entries)[i];
    }
  }

  lemma {:induction false} OneMoreEntry(entries: seq<Entry>, bundles: Bundles, i: nat)
    requires i < |entries| && IsConfig(entries[..i]) && IsStoreOf(entries[..i], bundles)
    requires var e := entries[i]; IsComplete(e) && e.trustDomain.value !in bundles
    ensures IsConfig(entries[..i + 1])
    ensures IsStoreOf(entries[..i + 1], bundles[entries[i].trustDomain.value := BundleOf(entries[i].bundle.value)])
  {
    assert entries[i].trustDomain.Some?;
    hide IsComplete, BundleOf;
    var e := entries[i];
    assert entries[..i + 1] == entries[..i] + [e];
    assert DomainsOf(entries[..i + 1]) == DomainsOf(entries[..i]) + [e.trustDomain];
    DistinctSnoc(DomainsOf(entries[..i]), e.trustDomain);
  }

  /** The order of a configuration's entries decides neither whether it is accepted nor what the store holds. */
  lemma {:induction false} ConfigIgnoresOrder(a: seq<Entry>, b: seq<Entry>)
    requires multiset(a) == multiset(b)
    ensures IsConfig(a) <==> IsConfig(b)
    ensures forall m, n :: IsStoreOf(a, m) && IsStoreOf(b, n) ==> m == n
  {
    hide IsComplete, BundleOf;
    SameMembers(a, b);
    DomainsBag(a, b);
    SameMembers(DomainsOf(a), DomainsOf(b));
    if Distinct(DomainsOf(a)) {
      DistinctBag(DomainsOf(a), DomainsOf(b));
    }
    if Distinct(DomainsOf(b)) {
      DistinctBag(DomainsOf(b), DomainsOf(a));
    }
    forall m, n | IsStoreOf(a, m) && IsStoreOf(b, n)
      ensures m == n
    {
      forall td | td in m
        ensures td in n && m[td] == n[td]
      {
        var i :| 0 <= i < |a| && DomainsOf(a)[i] == Some(td);
        assert a[i] in a && a[i] in b;
      }
      assert m.Keys == n.Keys;
    }
  }

  lemma {:induction false} DomainsBag(a: seq<Entry>, b: seq<Entry>)
    requires multiset(a) == multiset(b)
    ensures multiset(DomainsOf(a)) == multiset(DomainsOf(b))
  {
    assert |multiset(a)| == |a| && |multiset(b)| == |b|;
    if a != [] {
      SameMembers(a, b);
      assert a[0] in a;
      var i :| 0 <= i < |b| && b[i] == a[0];
      RemoveOne(a, 0);
      RemoveOne(b, i);
      DomainsBag(Without(a, 0), Without(b, i));
      DomainsWithout(a, 0);
      DomainsWithout(b, i);
      RemoveOne(DomainsOf(a), 0);
      RemoveOne(DomainsOf(b), i);
    }
  }

  lemma {:induction false} DomainsWithout(entries: seq<Entry>, i: nat)
    requires i < |entries|
    ensures DomainsOf(Without(entries, i)) == Without(DomainsOf(entries), i)
  {
  }
}
