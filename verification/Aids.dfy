/**
 AITP agent identifiers: the three text forms an AID may take, what each one
 denotes, and the verifying keys behind them.

 An identifier is the unpadded base64url text of the public key, so a key is
 represented here by its algorithm and that text. Canonical encoding (RFC 4648,
 section 3.5) makes the text and the key bytes correspond one to one.
 */
module Aids {
  import opened Basics

  const ED25519_IDENTIFIER_LEN := 43
  const P256_IDENTIFIER_LEN := 44

  const PUBKEY_PREFIX := "aid:pubkey:"
  const ED25519_PREFIX := "aid:pubkey:ed25519:"
  const P256_PREFIX := "aid:pubkey:p256:"

  datatype Algorithm = Ed25519 | P256

  datatype ParseError = MissingScheme | UnsupportedMethod(scheme: string) | WrongLength(length: nat) | InvalidChars

  predicate IsBase64UrlChar(c: char) {
    'A' <= c <= 'Z' || 'a' <= c <= 'z' || '0' <= c <= '9' || c == '-' || c == '_'
  }

  /** The six bits a base64url character stands for. */
  function Base64Value(c: char): (v: nat)
    requires IsBase64UrlChar(c)
    ensures v < 64
  {
    if 'A' <= c <= 'Z' then (c - 'A') as nat
    else if 'a' <= c <= 'z' then 26 + (c - 'a') as nat
    else if '0' <= c <= '9' then 52 + (c - '0') as nat
    else if c == '-' then 62 else 63
  }

  predicate AllBase64Url(s: string) {
    forall i :: 0 <= i < |s| ==> IsBase64UrlChar(s[i])
  }

  /** 43 characters carry 258 bits, so the last two of the 32-byte key's text are zero. */
  predicate IsEd25519Identifier(id: string) {
    |id| == ED25519_IDENTIFIER_LEN && AllBase64Url(id) && Base64Value(id[42]) % 4 == 0
  }

  /** 44 characters carry 33 bytes exactly; the first byte is 0x02 or 0x03. */
  predicate IsP256Identifier(id: string) {
    |id| == P256_IDENTIFIER_LEN && AllBase64Url(id) && Base64Value(id[0]) == 0 && Base64Value(id[1]) >= 32
  }

  function CheckEd25519(id: string): Option<ParseError> {
    if |id| != ED25519_IDENTIFIER_LEN then Some(WrongLength(|id|))
    else if !AllBase64Url(id) || Base64Value(id[42]) % 4 != 0 then Some(InvalidChars)
    else None
  }

  function CheckP256(id: string): Option<ParseError> {
    if |id| != P256_IDENTIFIER_LEN then Some(WrongLength(|id|))
    else if !AllBase64Url(id) || Base64Value(id[0]) != 0 || Base64Value(id[1]) < 32 then Some(InvalidChars)
    else None
  }

  /** The text before the first `:`, or all of it. */
  function UpToColon(s: string): string {
    if s == [] || s[0] == ':' then [] else [s[0]] + UpToColon(s[1..])
  }

  /** `Aid::parse`: the accepted text itself, or why it is refused. */
  function Parse(s: string): Result<string, ParseError> {
    if ED25519_PREFIX <= s then
      match CheckEd25519(s[|ED25519_PREFIX|..])
      case Some(e) => Err(e)
      case None => Ok(s)
    else if P256_PREFIX <= s then
      match CheckP256(s[|P256_PREFIX|..])
      case Some(e) => Err(e)
      case None => Ok(s)
    else if PUBKEY_PREFIX <= s then
      var id := s[|PUBKEY_PREFIX|..];
      if ':' in id then Err(UnsupportedMethod("pubkey:" + UpToColon(id)))
      else match CheckEd25519(id)
        case Some(e) => Err(e)
        case None => Ok(s)
    else if "aid:" <= s then
      Err(UnsupportedMethod(UpToColon(s[4..])))
    else
      Err(MissingScheme)
  }

  predicate IsAid(s: string) {
    Parse(s).Ok?
  }

  function AlgorithmOf(aid: string): Algorithm {
    if P256_PREFIX <= aid then P256 else Ed25519
  }

  function IdentifierOf(aid: string): string
    requires IsAid(aid)
  {
    if ED25519_PREFIX <= aid then aid[|ED25519_PREFIX|..]
    else if P256_PREFIX <= aid then aid[|P256_PREFIX|..]
    else aid[|PUBKEY_PREFIX|..]
  }

  datatype RawKey = VerifyingKey(algorithm: Algorithm, identifier: string)

  predicate IsKey(k: RawKey) {
    match k.algorithm
    case Ed25519 => IsEd25519Identifier(k.identifier)
    case P256 => IsP256Identifier(k.identifier)
  }

  /** The key an AID denotes. */
  function KeyOf(aid: string): RawKey
    requires IsAid(aid)
  {
    VerifyingKey(AlgorithmOf(aid), IdentifierOf(aid))
  }

  /** A key's canonical AID: the untagged form for Ed25519, the tagged one for P-256. */
  function ToAid(k: RawKey): string {
    match k.algorithm
    case Ed25519 => PUBKEY_PREFIX + k.identifier
    case P256 => P256_PREFIX + k.identifier
  }

  /** Whether two AIDs denote one key, by algorithm and identifier. */
  predicate SameKey(a: string, b: string)
    requires IsAid(a) && IsAid(b)
  {
    AlgorithmOf(a) == AlgorithmOf(b) && IdentifierOf(a) == IdentifierOf(b)
  }

  lemma {:induction false} ColonFree(id: string)
    requires AllBase64Url(id)
    ensures ':' !in id && '\0' !in id
  {
  }

  /** The accepted texts are exactly the three printed forms of a key. */
  lemma {:induction false} AcceptedForms(s: string)
    ensures IsAid(s) <==>
      || (exists id :: IsEd25519Identifier(id) && s == PUBKEY_PREFIX + id)
      || (exists id :: IsEd25519Identifier(id) && s == ED25519_PREFIX + id)
      || (exists id :: IsP256Identifier(id) && s == P256_PREFIX + id)
  {
    if IsAid(s) {
      if ED25519_PREFIX <= s {
        assert s == ED25519_PREFIX + s[|ED25519_PREFIX|..];
      } else if P256_PREFIX <= s {
        assert s == P256_PREFIX + s[|P256_PREFIX|..];
      } else {
        assert s == PUBKEY_PREFIX + s[|PUBKEY_PREFIX|..];
      }
    }
    if id :| IsEd25519Identifier(id) && s == PUBKEY_PREFIX + id {
      UntaggedIsAid(id);
    }
    if id :| IsEd25519Identifier(id) && s == ED25519_PREFIX + id {
      assert s[|ED25519_PREFIX|..] == id;
    }
    if id :| IsP256Identifier(id) && s == P256_PREFIX + id {
      P256IsAid(id);
    }
  }

  lemma {:induction false} UntaggedIsAid(id: string)
    requires IsEd25519Identifier(id)
    ensures IsAid(PUBKEY_PREFIX + id)
    ensures AlgorithmOf(PUBKEY_PREFIX + id) == Ed25519 && IdentifierOf(PUBKEY_PREFIX + id) == id
  {
    var s := PUBKEY_PREFIX + id;
    ColonFree(id);
    assert s[|PUBKEY_PREFIX|..] == id;
    assert s[18] == id[7] && s[15] == id[4];
    assert ED25519_PREFIX[18] == ':' && P256_PREFIX[15] == ':';
    assert !(ED25519_PREFIX <= s) && !(P256_PREFIX <= s);
  }

  lemma {:induction false} P256IsAid(id: string)
    requires IsP256Identifier(id)
    ensures IsAid(P256_PREFIX + id)
    ensures AlgorithmOf(P256_PREFIX + id) == P256 && IdentifierOf(P256_PREFIX + id) == id
  {
    var s := P256_PREFIX + id;
    assert s[|P256_PREFIX|..] == id;
    assert s[11] == 'p' && ED25519_PREFIX[11] == 'e';
    assert !(ED25519_PREFIX <= s);
  }

  /** Printing a key canonically and reading it back gives the key; so the canonical AID is injective. */
  lemma {:induction false} CanonicalRoundTrip(k: RawKey)
    requires IsKey(k)
    ensures IsAid(ToAid(k)) && KeyOf(ToAid(k)) == k
  {
    match k.algorithm
    case Ed25519 => UntaggedIsAid(k.identifier);
    case P256 => P256IsAid(k.identifier);
  }

  lemma {:induction false} KeyOfIsKey(aid: string)
    requires IsAid(aid)
    ensures IsKey(KeyOf(aid))
  {
    assert ED25519_PREFIX <= aid ==> !(P256_PREFIX <= aid) by {
      if ED25519_PREFIX <= aid {
        assert aid[11] == ED25519_PREFIX[11] && P256_PREFIX[11] != ED25519_PREFIX[11];
      }
    }
  }

  /** Two AIDs denote one key exactly when their canonical spellings are the same text. */
  lemma {:induction false} SameKeyIsCanonicalEquality(a: string, b: string)
    requires IsAid(a) && IsAid(b)
    ensures SameKey(a, b) <==> ToAid(KeyOf(a)) == ToAid(KeyOf(b))
  {
    KeyOfIsKey(a);
    KeyOfIsKey(b);
    CanonicalRoundTrip(KeyOf(a));
    CanonicalRoundTrip(KeyOf(b));
  }

  /** No AID contains a NUL byte, nor any character outside ASCII. */
  lemma {:induction false} AidsAreNulFree(aid: string)
    requires IsAid(aid)
    ensures forall i :: 0 <= i < |aid| ==> '\0' < aid[i] < 128 as char
  {
    if ED25519_PREFIX <= aid {
      PlainText(ED25519_PREFIX, aid[|ED25519_PREFIX|..]);
      assert aid == ED25519_PREFIX + aid[|ED25519_PREFIX|..];
    } else if P256_PREFIX <= aid {
      PlainText(P256_PREFIX, aid[|P256_PREFIX|..]);
      assert aid == P256_PREFIX + aid[|P256_PREFIX|..];
    } else {
      PlainText(PUBKEY_PREFIX, aid[|PUBKEY_PREFIX|..]);
      assert aid == PUBKEY_PREFIX + aid[|PUBKEY_PREFIX|..];
    }
  }

  lemma {:induction false} PlainText(prefix: string, id: string)
    requires AllBase64Url(id) && forall i :: 0 <= i < |prefix| ==> '\0' < prefix[i] < 128 as char
    ensures forall i :: 0 <= i < |prefix + id| ==> '\0' < (prefix + id)[i] < 128 as char
  {
    forall i | 0 <= i < |prefix + id|
      ensures '\0' < (prefix + id)[i] < 128 as char
    {
      if i >= |prefix| {
        assert IsBase64UrlChar(id[i - |prefix|]);
      }
    }
  }
}
