/** Reading a request body under a cap: an over-cap body is drained, up to a limit, and refused. */
module CappedBody {
  import opened Basics

  const BODY_LIMIT: nat := 64 * 1024
  const DRAIN_LIMIT: nat := 1024 * 1024

  /** What polling the body gives: some of its data, a frame of another kind, or a failure. */
  datatype Frame = Data(bytes: seq<byte>) | NotData | Failed

  ghost function Content(frames: seq<Frame>): seq<byte> {
    if frames == [] then []
    else Content(frames[..|frames| - 1]) + if frames[|frames| - 1].Data? then frames[|frames| - 1].bytes else []
  }

  ghost predicate IsWhole(frames: seq<Frame>) {
    forall i :: 0 <= i < |frames| ==> !frames[i].Failed?
  }

  /** Reading stopped after `n` frames without need: nothing had failed and the drain limit was not passed. */
  ghost predicate StopsEarly(frames: seq<Frame>, n: nat)
    requires n <= |frames|
  {
    n < |frames| && IsWhole(frames[..n]) && |Content(frames[..n])| <= DRAIN_LIMIT
  }

  /** The body, or none when a frame fails or there is too much of it; and how many frames were taken. */
  method ReadCapped(frames: seq<Frame>) returns (body: Option<seq<byte>>, read: nat)
    ensures body.Some? <==> IsWhole(frames) && |Content(frames)| <= BODY_LIMIT
    ensures body.Some? ==> body.value == Content(frames)
    ensures read <= |frames| && !StopsEarly(frames, read)
    ensures read > 0 ==> IsWhole(frames[..read - 1]) && |Content(frames[..read - 1])| <= DRAIN_LIMIT
  {
    var kept: seq<byte> := [];
    var seen: nat := 0;
    read := 0;
    while read < |frames|
      invariant read <= |frames| && IsWhole(frames[..read])
      invariant seen == |Content(frames[..read])| <= DRAIN_LIMIT
      invariant |kept| <= BODY_LIMIT && (seen <= BODY_LIMIT ==> kept == Content(frames[..read]))
    {
      var frame := frames[read];
      assert frames[..read + 1][..read] == frames[..read];
      ContentGrows(frames, read + 1);
      read := read + 1;
      if frame.Failed? {
        return None, read;
      }
      if frame.NotData? {
        continue;
      }
      seen := seen + |frame.bytes|;
      if seen > DRAIN_LIMIT {
        return None, read;
      }
      if seen <= BODY_LIMIT {
        kept := kept + frame.bytes;
      }
    }
    assert frames[..read] == frames;
    body := if seen <= BODY_LIMIT then Some(kept) else None;
  }

  lemma {:induction false} ContentGrows(frames: seq<Frame>, n: nat)
    requires n <= |frames|
    ensures |Content(frames[..n])| <= |Content(frames)|
  {
    if n < |frames| {
      ContentGrows(frames[..|frames| - 1], n);
      assert frames[..|frames| - 1][..n] == frames[..n];
    } else {
      assert frames[..n] == frames;
    }
  }

  /** A whole body within the drain limit is read to its end, whatever becomes of it. */
  lemma {:induction false} WholeBodyIsRead(frames: seq<Frame>, read: nat)
    requires IsWhole(frames) && |Content(frames)| <= DRAIN_LIMIT
    requires read <= |frames| && !StopsEarly(frames, read)
    ensures read == |frames|
  {
    ContentGrows(frames, read);
  }
}
