/**
 What an identifier's text stands for: unpadded base64url (section 5 of RFC 4648) of a public key's
 bytes, 32 for Ed25519 and 33 for P-256; and what a text that is no identifier is refused for.
 */
module KeyTexts {
  import opened Basics
  import opened Aids

  // ---------------------------------------------------------------- base64url

  /** The alphabet: capitals, small letters, digits, then two marks. */
  ghost function Letter(v: int): char
    requires 0 <= v < 64
  {
    if v < 26 then 'A' + v as char
    else if v < 52 then 'a' + (v - 26) as char
    else if v < 62 then '0' + (v - 52) as char
    else if v == 62 then '-' else '_'
  }

  /** Three bytes are four letters; one or two bytes at the end leave the low bits of the last letter zero. */
  ghost function Encoded(b: seq<byte>): string {
    if b == [] then ""
    else if |b| == 1 then [Letter(b[0] / 4), Letter(b[0] % 4 * 16)]
    else if |b| == 2 then [Letter(b[0] / 4), Letter(b[0] % 4 * 16 + b[1] / 16), Letter(b[1] % 16 * 4)]
    else
      [Letter(b[0] / 4), Letter(b[0] % 4 * 16 + b[1] / 16), Letter(b[1] % 16 * 4 + b[2] / 64), Letter(b[2] % 64)]
      + Encoded(b[3..])
  }

  lemma {:induction false} LetterValue(v: int)
    requires 0 <= v < 64
    ensures IsBase64UrlChar(Letter(v)) && Base64Value(Letter(v)) == v
  {
  }

  lemma {:induction false} ValueLetter(c: char)
    requires IsBase64UrlChar(c)
    ensures Letter(Base64Value(c)) == c
  {
  }

  /** The bytes a text of whole groups, or of groups and three letters, carries. */
  ghost function Decoded(s: string): seq<byte>
    requires AllBase64Url(s)
  {
    if |s| < 3 then []
    else
      var v0, v1, v2 := Base64Value(s[0]), Base64Value(s[1]), Base64Value(s[2]);
      if |s| == 3 then [v0 * 4 + v1 / 16, v1 % 16 * 16 + v2 / 4]
      else
        [v0 * 4 + v1 / 16, v1 % 16 * 16 + v2 / 4, v2 % 4 * 64 + Base64Value(s[3])] + Decoded(s[4..])
  }

  lemma {:induction false} EncodedText(b: seq<byte>)
    ensures AllBase64Url(Encoded(b))
    ensures |b| % 3 == 0 ==> |Encoded(b)| == |b| / 3 * 4
    ensures |b| % 3 == 2 ==> |Encoded(b)| == |b| / 3 * 4 + 3 && Base64Value(Encoded(b)[|Encoded(b)| - 1]) % 4 == 0
  {
    hide Letter, Base64Value, IsBase64UrlChar, Encoded, AllBase64Url;
    if |b| >= 3 {
      var more := Encoded(b[3..]);
      assert |b[3..]| / 3 == |b| / 3 - 1 && |b[3..]| % 3 == |b| % 3;
      EncodedText(b[3..]);
      GroupText(b);
      TogetherBase64(Encoded(b), 4);
      assert more != "" ==> Encoded(b)[|Encoded(b)| - 1] == more[|more| - 1];
    } else {
      ShortText(b);
    }
  }

  lemma {:induction false} TogetherBase64(s: string, k: nat)
    requires k <= |s| && AllBase64Url(s[..k]) && AllBase64Url(s[k..])
    ensures AllBase64Url(s)
  {
    hide IsBase64UrlChar;
    assert s == s[..k] + s[k..];
  }

  lemma {:induction false} ShortText(b: seq<byte>)
    requires |b| < 3
    ensures AllBase64Url(Encoded(b))
    ensures b == [] ==> Encoded(b) == ""
    ensures |b| == 2 ==> |Encoded(b)| == 3 && Base64Value(Encoded(b)[2]) % 4 == 0
  {
    hide Letter, Base64Value, IsBase64UrlChar;
    if |b| > 0 {
      LetterValue(b[0] / 4);
      LetterValue(b[0] % 4 * 16 + if |b| == 2 then b[1] / 16 else 0);
      LetterValue(if |b| == 2 then b[1] % 16 * 4 else 0);
    }
  }

  lemma {:induction false} GroupText(b: seq<byte>)
    requires |b| >= 3
    ensures |Encoded(b)| == 4 + |Encoded(b[3..])| && Encoded(b)[4..] == Encoded(b[3..])
    ensures AllBase64Url(Encoded(b)[..4])
    ensures var v0, v1, v2, v3 :=
        Base64Value(Encoded(b)[0]), Base64Value(Encoded(b)[1]), Base64Value(Encoded(b)[2]), Base64Value(Encoded(b)[3]);
      v0 * 4 + v1 / 16 == b[0] && v1 % 16 * 16 + v2 / 4 == b[1] && v2 % 4 * 64 + v3 == b[2]
  {
    hide Letter, Base64Value, IsBase64UrlChar;
    LetterValue(b[0] / 4);
    LetterValue(b[0] % 4 * 16 + b[1] / 16);
    LetterValue(b[1] % 16 * 4 + b[2] / 64);
    LetterValue(b[2] % 64);
    var s := Encoded(b);
    assert s[0] == Letter(b[0] / 4) && s[1] == Letter(b[0] % 4 * 16 + b[1] / 16);
    assert s[2] == Letter(b[1] % 16 * 4 + b[2] / 64) && s[3] == Letter(b[2] % 64);
    BytesBack(b[0], b[1], b[2]);
  }

  lemma {:induction false} BytesBack(b0: byte, b1: byte, b2: byte)
    ensures var v0, v1, v2, v3 := b0 / 4, b0 % 4 * 16 + b1 / 16, b1 % 16 * 4 + b2 / 64, b2 % 64;
      v0 * 4 + v1 / 16 == b0 && v1 % 16 * 16 + v2 / 4 == b1 && v2 % 4 * 64 + v3 == b2
  {
  }

  /** Every text with no stray low bits is the encoding of the bytes it carries. */
  lemma {:induction false} DecodedText(s: string)
    requires AllBase64Url(s) && (|s| % 4 == 0 || (|s| % 4 == 3 && Base64Value(s[|s| - 1]) % 4 == 0))
    ensures Encoded(Decoded(s)) == s
    ensures |Decoded(s)| == |s| / 4 * 3 + if |s| % 4 == 3 then 2 else 0
  {
    hide Base64Value, IsBase64UrlChar, Decoded, Encoded;
    if |s| >= 4 {
      assert s == s[..4] + s[4..];
      assert |s[4..]| % 4 == |s| % 4;
      DecodedText(s[4..]);
      DecodedGroup(s);
    } else if |s| == 3 {
      DecodedThree(s);
    } else {
      DecodedNothing(s);
    }
  }

  lemma {:induction false} DecodedNothing(s: string)
    requires s == ""
    ensures Decoded(s) == [] && Encoded([]) == ""
  {
  }

  lemma {:induction false} DecodedThree(s: string)
    requires |s| == 3 && AllBase64Url(s) && Base64Value(s[2]) % 4 == 0
    ensures Encoded(Decoded(s)) == s && |Decoded(s)| == 2
  {
    hide Letter, Base64Value, IsBase64UrlChar;
    GroupValues(Base64Value(s[0]), Base64Value(s[1]), Base64Value(s[2]), 0);
    ValueLetter(s[0]);
    ValueLetter(s[1]);
    ValueLetter(s[2]);
  }

  lemma {:induction false} DecodedGroup(s: string)
    requires AllBase64Url(s) && |s| >= 4
    ensures |Decoded(s)| == 3 + |Decoded(s[4..])|
    ensures Encoded(Decoded(s)) == s[..4] + Encoded(Decoded(s[4..]))
  {
    hide Letter, Base64Value, IsBase64UrlChar;
    var b := Decoded(s);
    var v0, v1, v2, v3 := Base64Value(s[0]), Base64Value(s[1]), Base64Value(s[2]), Base64Value(s[3]);
    GroupValues(v0, v1, v2, v3);
    assert b[3..] == Decoded(s[4..]);
    ValueLetter(s[0]);
    ValueLetter(s[1]);
    ValueLetter(s[2]);
    ValueLetter(s[3]);
  }

  lemma {:induction false} GroupValues(v0: nat, v1: nat, v2: nat, v3: nat)
    requires v0 < 64 && v1 < 64 && v2 < 64 && v3 < 64
    ensures var b0, b1, b2 := v0 * 4 + v1 / 16, v1 % 16 * 16 + v2 / 4, v2 % 4 * 64 + v3;
      b0 / 4 == v0 && b0 % 4 * 16 + b1 / 16 == v1 && b1 % 16 * 4 + b2 / 64 == v2 && b2 % 64 == v3
  {
  }

  // ---------------------------------------------------------------- identifiers

  ghost predicate IsEncodingOf(id: string, b: seq<byte>) {
    id == Encoded(b)
  }

  /** An Ed25519 identifier is the text of 32 bytes, any 32. */
  lemma {:induction false} Ed25519IdentifiersAreKeys(id: string)
    ensures IsEd25519Identifier(id) <==> exists b: seq<byte> :: |b| == 32 && IsEncodingOf(id, b)
  {
    hide Base64Value, IsBase64UrlChar;
    if IsEd25519Identifier(id) {
      DecodedText(id);
      assert IsEncodingOf(id, Decoded(id));
    }
    if b: seq<byte> :| |b| == 32 && IsEncodingOf(id, b) {
      EncodedText(b);
    }
  }

  /** A P-256 identifier is the text of 33 bytes of which the first is 2 or 3. */
  lemma {:induction false} P256IdentifiersAreKeys(id: string)
    ensures IsP256Identifier(id) <==>
            exists b: seq<byte> :: |b| == 33 && (b[0] == 2 || b[0] == 3) && IsEncodingOf(id, b)
  {
    hide Base64Value, IsBase64UrlChar;
    if IsP256Identifier(id) {
      DecodedText(id);
      assert IsEncodingOf(id, Decoded(id));
    }
    if b: seq<byte> :| |b| == 33 && (b[0] == 2 || b[0] == 3) && IsEncodingOf(id, b) {
      EncodedText(b);
      LetterValue(b[0] / 4);
      LetterValue(b[0] % 4 * 16 + b[1] / 16);
    }
  }

  /** And the text gives the bytes back, so keys with different bytes have different texts. */
  lemma {:induction false} EncodedIsDecoded(b: seq<byte>)
    requires |b| % 3 != 1
    ensures AllBase64Url(Encoded(b)) && Decoded(Encoded(b)) == b
  {
    hide Letter, Base64Value, IsBase64UrlChar, AllBase64Url, Decoded, Encoded;
    EncodedText(b);
    if |b| >= 3 {
      EncodedIsDecoded(b[3..]);
      DecodedLetters(b);
      assert b == b[..3] + b[3..];
    } else if |b| == 2 {
      DecodedTwo(b);
    } else {
      DecodedNothing("");
    }
  }

  lemma {:induction false} DecodedTwo(b: seq<byte>)
    requires |b| == 2 && AllBase64Url(Encoded(b))
    ensures Decoded(Encoded(b)) == b
  {
    hide Letter, Base64Value, IsBase64UrlChar;
    LetterValue(b[0] / 4);
    LetterValue(b[0] % 4 * 16 + b[1] / 16);
    LetterValue(b[1] % 16 * 4);
    BytesBack(b[0], b[1], 0);
  }

  lemma {:induction false} DecodedLetters(b: seq<byte>)
    requires |b| >= 3 && AllBase64Url(Encoded(b)) && AllBase64Url(Encoded(b[3..]))
    ensures Decoded(Encoded(b)) == b[..3] + Decoded(Encoded(b[3..]))
  {
    GroupText(b);
    hide Letter, Base64Value, IsBase64UrlChar, Encoded;
  }

  // ---------------------------------------------------------------- refusals

  /** What an identifier must be, in order: of the right length, and the text of a key. */
  ghost function IdentifierRules(id: string, length: nat, isKey: bool): seq<Rule<ParseError>> {
    [ Rule(|id| == length, WrongLength(|id|)), Rule(isKey, InvalidChars) ]
  }

  /** The whole text is returned, or the first rule its identifier breaks. */
  ghost predicate Accepts(s: string, id: string, length: nat, isKey: bool) {
    Reports(IdentifierRules(id, length, isKey), Parse(s)) && (Parse(s).Ok? ==> Parse(s).value == s)
  }

  lemma {:induction false} IdentifierReports(s: string, id: string, length: nat, isKey: bool, e: Option<ParseError>)
    requires e == if |id| != length then Some(WrongLength(|id|)) else if !isKey then Some(InvalidChars) else None
    requires Parse(s) == if e.Some? then Err(e.value) else Ok(s)
    ensures Accepts(s, id, length, isKey)
  {
    var rules := IdentifierRules(id, length, isKey);
    hide AllHold, FailsFirst, Parse;
    if e.None? {
      NoFault(rules);
    } else {
      FirstFault(rules, if |id| != length then 0 else 1);
    }
  }

  /** The two tagged forms. */
  lemma {:induction false} TaggedReports(id: string)
    ensures Accepts("aid:pubkey:ed25519:" + id, id, 43, IsEd25519Identifier(id))
    ensures Accepts("aid:pubkey:p256:" + id, id, 44, IsP256Identifier(id))
  {
    hide AllBase64Url, Base64Value, Accepts;
    var s, t := "aid:pubkey:ed25519:" + id, "aid:pubkey:p256:" + id;
    assert s[|ED25519_PREFIX|..] == id && t[|P256_PREFIX|..] == id;
    assert t[11] == 'p' && ED25519_PREFIX[11] == 'e';
    assert !(ED25519_PREFIX <= t);
    IdentifierReports(s, id, 43, IsEd25519Identifier(id), CheckEd25519(id));
    IdentifierReports(t, id, 44, IsP256Identifier(id), CheckP256(id));
  }

  /** The untagged form, which is Ed25519's. */
  lemma {:induction false} UntaggedReports(id: string)
    requires ':' !in id
    ensures Accepts("aid:pubkey:" + id, id, 43, IsEd25519Identifier(id))
  {
    hide AllBase64Url, Base64Value, Accepts;
    var s := "aid:pubkey:" + id;
    assert s[|PUBKEY_PREFIX|..] == id;
    NoColonNoTag(s, id);
    IdentifierReports(s, id, 43, IsEd25519Identifier(id), CheckEd25519(id));
  }

  lemma {:induction false} NoColonNoTag(s: string, id: string)
    requires s == "aid:pubkey:" + id && ':' !in id
    ensures !(ED25519_PREFIX <= s) && !(P256_PREFIX <= s)
  {
    assert ED25519_PREFIX[18] == ':' && P256_PREFIX[15] == ':';
    assert forall i :: 11 <= i < |s| ==> s[i] == id[i - 11] && s[i] != ':';
  }

  lemma {:induction false} UpToFirstColon(name: string, rest: string)
    requires ':' !in name
    ensures UpToColon(name) == name && UpToColon(name + (":" + rest)) == name
  {
    if name != "" {
      assert (name + (":" + rest))[1..] == name[1..] + (":" + rest);
      UpToFirstColon(name[1..], rest);
    } else {
      assert name + (":" + rest) == ":" + rest;
    }
  }

  /** A tag other than the two is named with the method. */
  lemma {:induction false} UnknownTagReports(tag: string, rest: string)
    requires ':' !in tag && tag != "ed25519" && tag != "p256"
    ensures Parse("aid:pubkey:" + (tag + (":" + rest))) == Err(UnsupportedMethod("pubkey:" + tag))
  {
    var id := tag + (":" + rest);
    var s := "aid:pubkey:" + id;
    assert s[|PUBKEY_PREFIX|..] == id;
    UpToFirstColon(tag, rest);
    assert id[|tag|] == ':';
    if ED25519_PREFIX <= s {
      TagIs(tag, rest, "ed25519");
      assert false;
    }
    if P256_PREFIX <= s {
      TagIs(tag, rest, "p256");
      assert false;
    }
  }

  lemma {:induction false} TagIs(tag: string, rest: string, known: string)
    requires ':' !in tag && ':' !in known && "aid:pubkey:" + (known + ":") <= "aid:pubkey:" + (tag + (":" + rest))
    ensures tag == known
  {
    var s, p := "aid:pubkey:" + (tag + (":" + rest)), "aid:pubkey:" + (known + ":");
    assert s == p + s[|p|..];
    assert s[11..] == tag + (":" + rest) && s[11..] == known + (":" + s[|p|..]);
    UpToFirstColon(tag, rest);
    UpToFirstColon(known, s[|p|..]);
  }

  /** A method other than `pubkey`, or `pubkey` and nothing more, is named; without the scheme nothing is. */
  lemma {:induction false} OtherMethodReports(s: string, name: string, rest: string)
    requires ':' !in name
    ensures s == "aid:" + name ==> Parse(s) == Err(UnsupportedMethod(name))
    ensures s == "aid:" + (name + (":" + rest)) && name != "pubkey" ==> Parse(s) == Err(UnsupportedMethod(name))
    ensures !("aid:" <= s) ==> Parse(s) == Err(MissingScheme)
  {
    UpToFirstColon(name, rest);
    assert PUBKEY_PREFIX <= s ==> s[4..] == "pubkey" + (":" + s[11..]) && s[10] == ':';
    TagsArePubkeys(s);
    if PUBKEY_PREFIX <= s {
      UpToFirstColon("pubkey", s[11..]);
    }
    if s == "aid:" + name {
      assert s[4..] == name;
      assert forall i :: 4 <= i < |s| ==> s[i] == name[i - 4] && s[i] != ':';
    }
    if s == "aid:" + (name + (":" + rest)) {
      assert s[4..] == name + (":" + rest);
    }
  }

  lemma {:induction false} TagsArePubkeys(s: string)
    ensures ED25519_PREFIX <= s || P256_PREFIX <= s ==> PUBKEY_PREFIX <= s
    ensures PUBKEY_PREFIX <= s ==> "aid:" <= s
  {
    assert ED25519_PREFIX[..11] == PUBKEY_PREFIX == P256_PREFIX[..11];
    assert PUBKEY_PREFIX[..4] == "aid:";
  }
}
