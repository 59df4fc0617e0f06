/**
 Hashes and signatures as the protocols rely on them: SHA-256 does not collide,
 and a signature verifies only under the key, and over the digest, it was made
 for. Who can make one is a matter of the runs that use them.
 */
module Signatures {
  import opened Basics
  import opened Aids

  datatype Digest = Sha256(input: seq<byte>)

  datatype Signature = Signed(key: RawKey, digest: Digest) | Junk(text: string)

  predicate Verifies(key: RawKey, digest: Digest, signature: Signature) {
    signature == Signed(key, digest)
  }

  /** The bytes of a text; every text hashed here is ASCII. */
  function Bytes(s: string): seq<byte> {
    seq(|s|, i requires 0 <= i < |s| => s[i] as int % 256)
  }

  ghost predicate NulFree(b: seq<byte>) {
    forall i :: 0 <= i < |b| ==> b[i] != 0
  }

  /** AIDs can be told apart by their bytes, none of which is NUL. */
  lemma {:induction false} AidBytes(a: string, b: string)
    requires IsAid(a) && IsAid(b)
    ensures NulFree(Bytes(a))
    ensures Bytes(a) == Bytes(b) ==> a == b
  {
    hide IsAid, Parse;
    AidsAreNulFree(a);
    AidsAreNulFree(b);
    if Bytes(a) == Bytes(b) {
      assert |Bytes(a)| == |a| && |Bytes(b)| == |b|;
      forall i | 0 <= i < |a|
        ensures a[i] == b[i]
      {
        assert Bytes(a)[i] == Bytes(b)[i];
      }
    }
  }

  /** A NUL ends a NUL-free field: what comes before it and after it can be read back. */
  lemma {:induction false} FieldEndsAtNul(a: seq<byte>, x: seq<byte>, b: seq<byte>, y: seq<byte>)
    requires NulFree(a) && NulFree(b) && a + [0] + x == b + [0] + y
    ensures a == b && x == y
  {
    var s := a + [0] + x;
    assert s[|a|] == 0 && s[|b|] == 0;
    assert |a| == |b|;
    assert a == s[..|a|] && b == s[..|b|];
    assert x == s[|a| + 1..] && y == s[|b| + 1..];
  }
}
