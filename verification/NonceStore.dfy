/**
 Single-use nonce storage: the sharded in-memory store, its lazily cleaned
 expiry heaps, and the map of outstanding records it stands for.
 */
module NonceStore {
  import opened Basics

  const NONCE_LEN := 16

  /** Sixteen random bytes, or an echo slot's sixteen bytes; the store only compares them. */
  datatype Nonce = Nonce(bytes: seq<byte>)

  /** A challenge to record. Who asked for it is never read back, so it is left out. */
  datatype IssuedNonce = IssuedNonce(nonce: Nonce, verifier: string, issuedAt: Timestamp, expiresAt: Timestamp)

  datatype Record = Record(verifier: string, expiresAt: Timestamp)

  datatype IssueOutcome = Issued | AtCapacity(retryAfter: Option<nat>) | Duplicate

  datatype ConsumeOutcome = Consumed | Unknown | Expired

  type Records = map<Nonce, Record>

  // ---------------------------------------------------------------- what the store promises

  predicate LiveAt(records: Records, nonce: Nonce, now: Timestamp) {
    nonce in records && !InThePast(records[nonce].expiresAt, now)
  }

  function Live(records: Records, now: Timestamp): Records {
    map n | n in records && !InThePast(records[n].expiresAt, now) :: records[n]
  }

  /** Only expired records may vanish, and nothing appears or changes. */
  ghost predicate OnlyExpiredGone(before: Records, after: Records, now: Timestamp) {
    && (forall n :: n in after ==> n in before && after[n] == before[n])
    && (forall n :: LiveAt(before, n, now) ==> n in after)
  }

  /** What issuing may do: record a nonce that is not live, or leave every live record alone. */
  ghost predicate IssueStep(before: Records, after: Records, rec: IssuedNonce, outcome: IssueOutcome) {
    match outcome
    case Issued =>
      && !LiveAt(before, rec.nonce, rec.issuedAt)
      && rec.nonce in after && after[rec.nonce] == Record(rec.verifier, rec.expiresAt)
      && OnlyExpiredGone(before - {rec.nonce}, after - {rec.nonce}, rec.issuedAt)
    case AtCapacity(_) => OnlyExpiredGone(before, after, rec.issuedAt)
    case Duplicate => LiveAt(before, rec.nonce, rec.issuedAt) && OnlyExpiredGone(before, after, rec.issuedAt)
  }

  /** What consuming does: a record held for this verifier goes, once, and says whether it was in time. */
  ghost predicate ConsumeStep(before: Records, after: Records, nonce: Nonce, verifier: string, now: Timestamp,
                              outcome: ConsumeOutcome)
  {
    if nonce in before && before[nonce].verifier == verifier then
      && after == before - {nonce}
      && outcome == if InThePast(before[nonce].expiresAt, now) then Expired else Consumed
    else
      outcome == Unknown && OnlyExpiredGone(before, after, now)
  }

  // ---------------------------------------------------------------- one shard

  /** A heap entry. Consumed records leave theirs behind. */
  datatype Due = Due(expiresAt: Timestamp, nonce: Nonce)

  datatype Shard = Shard(records: Records, expiry: multiset<Due>)

  /** Every record has its due date in the heap; the heap may hold more. */
  ghost predicate Covered(sh: Shard) {
    forall n :: n in sh.records ==> Due(sh.records[n].expiresAt, n) in sh.expiry
  }

  /** Every entry is the due date of a record, and is there once. */
  ghost predicate NoneStale(sh: Shard) {
    forall d :: d in sh.expiry ==>
      d.nonce in sh.records && sh.records[d.nonce].expiresAt == d.expiresAt && sh.expiry[d] == 1
  }

  ghost predicate IsEarliest(heap: multiset<Due>, d: Due) {
    d in heap && forall e :: e in heap ==> d.expiresAt <= e.expiresAt
  }

  lemma {:induction false} SomeEarliest(heap: multiset<Due>)
    requires |heap| > 0
    ensures exists d :: IsEarliest(heap, d)
    decreases |heap|
  {
    var x :| x in heap;
    var rest := heap - multiset{x};
    assert heap == rest + multiset{x};
    if |rest| == 0 {
      assert rest == multiset{};
      assert forall e :: e in heap ==> e == x;
      assert IsEarliest(heap, x);
    } else {
      SomeEarliest(rest);
      var d :| IsEarliest(rest, d);
      assert forall e :: e in heap ==> e == x || e in rest;
      if d.expiresAt <= x.expiresAt {
        assert IsEarliest(heap, d);
      } else {
        assert IsEarliest(heap, x);
      }
    }
  }

  /** The top of the heap: any entry that is due no later than the others. */
  method Peek(heap: multiset<Due>) returns (d: Due)
    requires |heap| > 0
    ensures IsEarliest(heap, d)
  {
    SomeEarliest(heap);
    d :| d in heap && forall e :: e in heap ==> d.expiresAt <= e.expiresAt;
  }

  /** The shard after its due entry `d` is popped: the record goes too, if `d` is its current due date. */
  function Popped(sh: Shard, d: Due): Shard {
    var rest := sh.expiry - multiset{d};
    if d.nonce in sh.records && sh.records[d.nonce].expiresAt == d.expiresAt
    then Shard(sh.records - {d.nonce}, rest)
    else Shard(sh.records, rest)
  }

  lemma {:induction false} PoppedFacts(sh: Shard, d: Due, now: Timestamp)
    requires Covered(sh) && d in sh.expiry && InThePast(d.expiresAt, now)
    ensures Covered(Popped(sh, d)) && Live(Popped(sh, d).records, now) == Live(sh.records, now)
    ensures |Popped(sh, d).expiry| == |sh.expiry| - 1
  {
    var after := Popped(sh, d);
    forall n | n in after.records
      ensures Due(after.records[n].expiresAt, n) in after.expiry
    {
      assert Due(after.records[n].expiresAt, n) != d;
    }
  }

  lemma {:induction false} NothingDue(sh: Shard, now: Timestamp)
    requires Covered(sh) && forall d :: d in sh.expiry ==> !InThePast(d.expiresAt, now)
    ensures Live(sh.records, now) == sh.records
  {
    forall n | n in sh.records
      ensures !InThePast(sh.records[n].expiresAt, now)
    {
      assert Due(sh.records[n].expiresAt, n) in sh.expiry;
    }
  }

  /** Pops every due entry; what is left is exactly the live records. */
  method Purge(sh: Shard, now: Timestamp) returns (after: Shard, removed: nat)
    requires Covered(sh)
    ensures Covered(after) && after.expiry <= sh.expiry
    ensures after.records == Live(sh.records, now)
    ensures removed + |after.records| == |sh.records|
    ensures forall d :: d in after.expiry ==> !InThePast(d.expiresAt, now)
  {
    after, removed := sh, 0;
    while |after.expiry| > 0
      invariant Covered(after) && after.expiry <= sh.expiry
      invariant Live(after.records, now) == Live(sh.records, now)
      invariant removed + |after.records| == |sh.records|
      decreases |after.expiry|
    {
      var d := Peek(after.expiry);
      if !InThePast(d.expiresAt, now) {
        NothingDue(after, now);
        return;
      }
      PoppedFacts(after, d, now);
      if d.nonce in after.records && after.records[d.nonce].expiresAt == d.expiresAt {
        RemoveRecord(after.records, d.nonce);
        removed := removed + 1;
      }
      after := Popped(after, d);
    }
    NothingDue(after, now);
  }

  lemma {:induction false} RemoveRecord(records: Records, n: Nonce)
    requires n in records
    ensures |records - {n}| == |records| - 1
  {
    assert (records - {n}).Keys == records.Keys - {n};
  }

  function DueDates(records: Records): set<Due> {
    set n | n in records :: Due(records[n].expiresAt, n)
  }

  lemma {:induction false} DueDatesSize(records: Records)
    ensures |DueDates(records)| == |records|
  {
    if records != map[] {
      var n :| n in records;
      var rest := records - {n};
      RemoveRecord(records, n);
      DueDatesSize(rest);
      forall d | d in DueDates(records)
        ensures d in DueDates(rest) + {Due(records[n].expiresAt, n)}
      {
        var m :| m in records && d == Due(records[m].expiresAt, m);
        if m != n {
          assert m in rest;
        }
      }
      assert DueDates(records) == DueDates(rest) + {Due(records[n].expiresAt, n)};
      assert Due(records[n].expiresAt, n) !in DueDates(rest);
    } else {
      assert DueDates(records) == {};
    }
  }

  /** Rebuilds the heap once stale entries outnumber live ones, with some slack. */
  function Compacted(sh: Shard): Shard {
    if |sh.expiry| > 2 * |sh.records| + 64 then sh.(expiry := multiset(DueDates(sh.records))) else sh
  }

  lemma {:induction false} CompactedFacts(sh: Shard)
    requires Covered(sh)
    ensures Covered(Compacted(sh)) && Compacted(sh).records == sh.records
    ensures |Compacted(sh).expiry| <= 2 * |sh.records| + 64 && Compacted(sh).expiry <= sh.expiry
    // It touches the heap only to drop the stale entries, all of them, and only past this size.
    ensures if |sh.expiry| <= 2 * |sh.records| + 64 then Compacted(sh) == sh else NoneStale(Compacted(sh))
  {
    hide DueDates;
    if |sh.expiry| > 2 * |sh.records| + 64 {
      RebuiltFacts(sh);
    }
  }

  lemma {:induction false} RebuiltFacts(sh: Shard)
    requires Covered(sh)
    ensures var rebuilt := sh.(expiry := multiset(DueDates(sh.records)));
      && Covered(rebuilt) && NoneStale(rebuilt) && rebuilt.expiry <= sh.expiry && |rebuilt.expiry| == |sh.records|
  {
    var dates := DueDates(sh.records);
    forall n | n in sh.records
      ensures Due(sh.records[n].expiresAt, n) in dates
    {
    }
    forall d | d in dates
      ensures d in sh.expiry && d.nonce in sh.records && sh.records[d.nonce].expiresAt == d.expiresAt
    {
    }
    DueDatesSize(sh.records);
    hide DueDates;
    BagOf(dates, sh.expiry);
  }

  lemma {:induction false} BagOf(dates: set<Due>, bag: multiset<Due>)
    requires forall d :: d in dates ==> d in bag
    ensures multiset(dates) <= bag && |multiset(dates)| == |dates|
    ensures forall d :: multiset(dates)[d] == if d in dates then 1 else 0
  {
  }

  lemma {:induction false} SubBag(a: multiset<Due>, b: multiset<Due>)
    requires a <= b
    ensures |a| <= |b|
  {
    assert b == a + (b - a);
  }

  /** A shard's earliest expiry, read off the top of its heap. A stale top can make this early, never late. */
  method Earliest(sh: Shard) returns (e: Option<Timestamp>)
    requires Covered(sh)
    ensures e.None? ==> sh.expiry == multiset{} && sh.records == map[]
    ensures e.Some? ==> exists d :: IsEarliest(sh.expiry, d) && d.expiresAt == e.value
    ensures e.Some? ==> forall n :: n in sh.records ==> e.value <= sh.records[n].expiresAt
  {
    if |sh.expiry| == 0 {
      return None;
    }
    var d := Peek(sh.expiry);
    return Some(d.expiresAt);
  }

  // ---------------------------------------------------------------- many shards

  /** The shards hold `records` between them, each record in the shard its nonce is sent to. */
  ghost predicate Represents(shards: seq<Shard>, where: Nonce -> nat, records: Records) {
    && (forall n :: n in records ==> where(n) < |shards| && Holds(shards[where(n)], n, records[n]))
    && (forall i, n :: 0 <= i < |shards| && n in shards[i].records ==> n in records && where(n) == i)
  }

  ghost predicate Holds(sh: Shard, n: Nonce, rec: Record) {
    n in sh.records && sh.records[n] == rec
  }

  /** `records` without the expired ones in shards `lo` up to `hi`. */
  ghost function Swept(records: Records, where: Nonce -> nat, lo: nat, hi: nat, now: Timestamp): Records {
    map n | n in records && (lo <= where(n) < hi ==> !InThePast(records[n].expiresAt, now)) :: records[n]
  }

  lemma {:induction false} PurgeOneShard(shards: seq<Shard>, where: Nonce -> nat, records: Records, i: nat, sh: Shard,
                                         now: Timestamp)
    requires Represents(shards, where, records) && i < |shards|
    requires sh.records == Live(shards[i].records, now)
    ensures Represents(shards[i := sh], where, Swept(records, where, i, i + 1, now))
    ensures |records| + |sh.records| == |Swept(records, where, i, i + 1, now)| + |shards[i].records|
  {
    var after := Swept(records, where, i, i + 1, now);
    PurgedNonces(shards, where, records, i, sh, now);
    SplitSize(records.Keys, after.Keys);
    SplitSize(shards[i].records.Keys, sh.records.Keys);
    PurgedShard(shards, where, records, i, sh, now);
  }

  lemma {:induction false} PurgedShard(shards: seq<Shard>, where: Nonce -> nat, records: Records, i: nat, sh: Shard,
                                       now: Timestamp)
    requires Represents(shards, where, records) && i < |shards|
    requires sh.records == Live(shards[i].records, now)
    ensures Represents(shards[i := sh], where, Swept(records, where, i, i + 1, now))
  {
    var after := Swept(records, where, i, i + 1, now);
    forall n | n in after && where(n) == i
      ensures Holds(sh, n, after[n])
    {
      assert Holds(shards[where(n)], n, records[n]);
    }
    forall n | n in sh.records
      ensures n in after && where(n) == i
    {
      assert n in shards[i].records;
      assert Holds(shards[where(n)], n, records[n]);
    }
    ReplaceShard(shards, where, records, i, sh, after);
  }

  /** Changing one shard, and the same nonces of the whole, keeps the representation. */
  lemma {:induction false} ReplaceShard(shards: seq<Shard>, where: Nonce -> nat, records: Records, i: nat, sh: Shard,
                                        after: Records)
    requires Represents(shards, where, records) && i < |shards|
    requires forall n :: n in after && where(n) != i ==> n in records && after[n] == records[n]
    requires forall n :: n in records && where(n) != i ==> n in after
    requires forall n :: n in after && where(n) == i ==> Holds(sh, n, after[n])
    requires forall n :: n in sh.records ==> n in after && where(n) == i
    ensures Represents(shards[i := sh], where, after)
  {
    var next := shards[i := sh];
    forall n | n in after
      ensures where(n) < |next| && Holds(next[where(n)], n, after[n])
    {
      if where(n) != i {
        assert Holds(shards[where(n)], n, records[n]);
      }
    }
    forall j, n | 0 <= j < |next| && n in next[j].records
      ensures n in after && where(n) == j
    {
      if j != i {
        assert n in shards[j].records;
      }
    }
  }

  lemma {:induction false} PurgedNonces(shards: seq<Shard>, where: Nonce -> nat, records: Records, i: nat, sh: Shard,
                                        now: Timestamp)
    requires Represents(shards, where, records) && i < |shards|
    requires sh.records == Live(shards[i].records, now)
    ensures records.Keys - Swept(records, where, i, i + 1, now).Keys == shards[i].records.Keys - sh.records.Keys
  {
    forall n | n in records
      ensures where(n) == i ==> Holds(shards[i], n, records[n])
    {
      assert Holds(shards[where(n)], n, records[n]);
    }
    forall n | n in shards[i].records
      ensures n in records && where(n) == i && Holds(shards[i], n, records[n])
    {
    }
  }

  lemma {:induction false} SplitSize(all: set<Nonce>, part: set<Nonce>)
    requires part <= all
    ensures |all| == |part| + |all - part|
  {
    assert all == part + (all - part);
  }

  /** Seconds until a slot is known to free up: `expires_at` is inclusive, so the second after it. */
  function RetryAfter(nextExpiry: Timestamp, now: Timestamp): Option<nat> {
    if nextExpiry == I64_MAX then None
    else
      var wait := SaturatingAdd(nextExpiry, 1) - now;
      Some(if wait < 1 then 1 else if wait > I64_MAX then I64_MAX else wait)
  }

  /** The hint is never later than the first moment an outstanding record stops counting. */
  ghost predicate SafeHint(records: Records, hint: Option<nat>, now: Timestamp) {
    hint.Some? ==> forall n :: n in records ==>
      now + hint.value <= (if InThePast(records[n].expiresAt, now) then now else records[n].expiresAt) + 1
  }

  /** The dates at which the shards' heap entries fall due. */
  ghost function DueAt(shards: seq<Shard>): set<Timestamp> {
    set i, d | 0 <= i < |shards| && d in shards[i].expiry :: d.expiresAt
  }

  ghost predicate IsEarliestOf(t: Timestamp, dates: set<Timestamp>) {
    if dates == {} then t == I64_MAX else t in dates && forall u :: u in dates ==> t <= u
  }

  /** The wait from `now` to the second after `t`, within what a hint can say. */
  ghost predicate IsWait(h: nat, t: Timestamp, now: Timestamp) {
    || now + h == t + 1
    || (h == 1 && t < now)
    || (h == I64_MAX && now + h < t + 1)
  }

  /** No hint when no date is held that ever comes; otherwise the wait until just after the earliest one. */
  ghost predicate IsHint(dates: set<Timestamp>, hint: Option<nat>, now: Timestamp) {
    match hint
    case None => forall t :: t in dates ==> t == I64_MAX
    case Some(h) =>
      1 <= h <= I64_MAX && exists t :: t in dates && t < I64_MAX && IsEarliestOf(t, dates) && IsWait(h, t, now)
  }

  lemma {:induction false} RetryAfterIsHint(dates: set<Timestamp>, nextExpiry: Timestamp, now: Timestamp)
    requires IsEarliestOf(nextExpiry, dates)
    ensures IsHint(dates, RetryAfter(nextExpiry, now), now)
  {
    if nextExpiry != I64_MAX {
      assert dates != {};
    }
  }

  lemma {:induction false} OneHint(dates: set<Timestamp>, a: Option<nat>, b: Option<nat>, now: Timestamp)
    requires IsHint(dates, a, now) && IsHint(dates, b, now)
    ensures a == b
  {
  }

  /**
   A hint is drawn from the dates noted, which may no longer all be held. It is what the dates held
   would give exactly when the earliest one noted is as early as the earliest one held, or both are
   over by now, or so far off that a hint cannot tell them apart.
   */
  lemma {:induction false} HintIsCurrentExactlyWhen(noted: set<Timestamp>, held: set<Timestamp>, hint: Option<nat>,
                                                    now: Timestamp, first: Timestamp, next: Timestamp)
    requires held <= noted && IsEarliestOf(first, noted) && IsEarliestOf(next, held) && IsHint(noted, hint, now)
    ensures IsHint(held, hint, now)
       <==> first == next || (next < I64_MAX && (next <= now || now + I64_MAX <= first + 1))
  {
    if hint.Some? {
      assert first in noted;
      if held == {} {
        assert first < I64_MAX;
      }
    }
  }

  /** An input: consuming the last record of a shard with more than 64 heap entries forgets every date in it. */
  lemma {:induction false} ConsumingForgetsDates(sh: Shard, n: Nonce, h: nat, now: Timestamp)
    requires Covered(sh) && sh.records.Keys == {n} && |sh.expiry| > 64
    requires IsHint(DueAt([sh]), Some(h), now)
    ensures var after := Compacted(sh.(records := sh.records - {n}));
      DueAt([after]) == {} && !IsHint(DueAt([after]), Some(h), now)
  {
    hide Compacted, IsHint;
    AllStaleIsDropped(sh, n);
    NoHint(h, now);
  }

  lemma {:induction false} NoHint(h: nat, now: Timestamp)
    ensures !IsHint({}, Some(h), now)
  {
  }

  lemma {:induction false} AllStaleIsDropped(sh: Shard, n: Nonce)
    requires Covered(sh) && sh.records.Keys == {n} && |sh.expiry| > 64
    ensures Compacted(sh.(records := sh.records - {n})).expiry == multiset{}
  {
    var cut := sh.(records := sh.records - {n});
    assert cut.records == map[];
    assert DueDates(cut.records) == {};
  }

  lemma {:induction false} DateIsOfRecord(shards: seq<Shard>, where: Nonce -> nat, records: Records, i: nat, d: Due)
    requires Represents(shards, where, records) && i < |shards| && NoneStale(shards[i]) && d in shards[i].expiry
    ensures d.nonce in records && records[d.nonce].expiresAt == d.expiresAt
  {
    assert d.nonce in shards[i].records;
    assert Holds(shards[where(d.nonce)], d.nonce, records[d.nonce]);
  }

  lemma {:induction false} RecordIsDue(shards: seq<Shard>, where: Nonce -> nat, records: Records, n: Nonce)
    requires Represents(shards, where, records) && n in records
    requires forall i :: 0 <= i < |shards| ==> Covered(shards[i])
    ensures records[n].expiresAt in DueAt(shards)
  {
    assert Holds(shards[where(n)], n, records[n]);
    assert Due(records[n].expiresAt, n) in shards[where(n)].expiry;
  }

  /** Where no heap entry is stale, a held record, the first to expire, frees its slot at the hinted second. */
  lemma {:induction false} HintFreesASlot(shards: seq<Shard>, where: Nonce -> nat, records: Records, h: nat,
                                          now: Timestamp)
    requires Represents(shards, where, records)
    requires forall i :: 0 <= i < |shards| ==> Covered(shards[i]) && NoneStale(shards[i])
    requires IsHint(DueAt(shards), Some(h), now)
    ensures exists n ::
      n in records && IsWait(h, records[n].expiresAt, now) && NoneBefore(records, records[n].expiresAt)
  {
    hide IsWait, Represents, Covered, NoneStale;
    var t :| t in DueAt(shards) && t < I64_MAX && IsEarliestOf(t, DueAt(shards)) && IsWait(h, t, now);
    var i: nat, d :| i < |shards| && d in shards[i].expiry && d.expiresAt == t;
    DateIsOfRecord(shards, where, records, i, d);
    forall n | n in records
      ensures t <= records[n].expiresAt
    {
      RecordIsDue(shards, where, records, n);
    }
    assert NoneBefore(records, records[d.nonce].expiresAt);
  }

  ghost predicate NoneBefore(records: Records, t: Timestamp) {
    forall n :: n in records ==> !InThePast(records[n].expiresAt, t)
  }

  lemma {:induction false} RetryAfterIsSafe(records: Records, nextExpiry: Timestamp, now: Timestamp)
    requires NoneBefore(records, nextExpiry)
    ensures SafeHint(records, RetryAfter(nextExpiry, now), now)
  {
  }

  lemma {:induction false} SweptFacts(records: Records, where: Nonce -> nat, lo: nat, mid: nat, hi: nat, now: Timestamp)
    requires lo <= mid <= hi
    ensures OnlyExpiredGone(records, Swept(records, where, lo, hi, now), now)
    ensures Swept(Swept(records, where, lo, mid, now), where, mid, hi, now) == Swept(records, where, lo, hi, now)
    ensures Swept(records, where, lo, lo, now) == records
  {
  }

  lemma {:induction false} SweptAll(records: Records, where: Nonce -> nat, hi: nat, now: Timestamp)
    requires forall n :: n in records ==> where(n) < hi
    ensures Swept(records, where, 0, hi, now) == Live(records, now)
  {
  }

  lemma {:induction false} ShardSize(shards: seq<Shard>, where: Nonce -> nat, records: Records, i: nat)
    requires Represents(shards, where, records) && i < |shards|
    ensures |shards[i].records| <= |records|
  {
    SplitSize(records.Keys, shards[i].records.Keys);
  }

  lemma {:induction false} LiveSize(before: Records, after: Records, now: Timestamp)
    requires OnlyExpiredGone(before, after, now)
    ensures |Live(before, now)| <= |after| <= |before|
    ensures Live(after, now) == Live(before, now)
  {
    SplitSize(before.Keys, after.Keys);
    SplitSize(after.Keys, Live(before, now).Keys);
  }

  lemma {:induction false} LiveTwice(records: Records, now: Timestamp)
    ensures Live(Live(records, now), now) == Live(records, now)
    ensures OnlyExpiredGone(records, Live(records, now), now)
    ensures OnlyExpiredGone(records, records, now)
  {
  }

  lemma {:induction false} GoneTwice(a: Records, b: Records, c: Records, now: Timestamp)
    requires OnlyExpiredGone(a, b, now) && OnlyExpiredGone(b, c, now)
    ensures OnlyExpiredGone(a, c, now)
  {
  }

  lemma {:induction false} WithAndWithout(records: Records, n: Nonce, rec: Record)
    requires n !in records
    ensures records[n := rec] - {n} == records && records - {n} == records
  {
  }

  lemma {:induction false} SameRecords(shards: seq<Shard>, where: Nonce -> nat, records: Records, i: nat, sh: Shard)
    requires Represents(shards, where, records) && i < |shards| && sh.records == shards[i].records
    ensures Represents(shards[i := sh], where, records)
  {
    forall n | n in records && where(n) == i
      ensures Holds(sh, n, records[n])
    {
      assert Holds(shards[where(n)], n, records[n]);
    }
    ReplaceShard(shards, where, records, i, sh, records);
  }

  /** A nonce is outstanding exactly when the shard it is sent to holds it. */
  lemma {:induction false} MemberOf(shards: seq<Shard>, where: Nonce -> nat, records: Records, n: Nonce)
    requires Represents(shards, where, records) && where(n) < |shards|
    ensures var own := shards[where(n)].records;
      (n in records <==> n in own) && (n in own ==> own[n] == records[n])
  {
    if n in records {
      assert Holds(shards[where(n)], n, records[n]);
    }
  }

  lemma {:induction false} EarliestOfShard(shards: seq<Shard>, where: Nonce -> nat, records: Records, i: nat,
                                           e: Option<Timestamp>)
    requires Represents(shards, where, records) && i < |shards|
    requires e.None? ==> shards[i].records == map[]
    requires e.Some? ==> forall n :: n in shards[i].records ==> e.value <= shards[i].records[n].expiresAt
    ensures forall n :: n in records && where(n) == i ==> e.Some? && e.value <= records[n].expiresAt
  {
    forall n | n in records && where(n) == i
      ensures e.Some? && e.value <= records[n].expiresAt
    {
      assert Holds(shards[where(n)], n, records[n]);
    }
  }

  function WithRecord(sh: Shard, rec: IssuedNonce): Shard {
    Shard(sh.records[rec.nonce := Record(rec.verifier, rec.expiresAt)],
          sh.expiry + multiset{Due(rec.expiresAt, rec.nonce)})
  }

  lemma {:induction false} InsertRecord(shards: seq<Shard>, where: Nonce -> nat, records: Records, i: nat,
                                        rec: IssuedNonce)
    requires Represents(shards, where, records) && i < |shards| && where(rec.nonce) == i
    requires Covered(shards[i]) && rec.nonce !in records
    ensures var sh := Compacted(WithRecord(shards[i], rec));
      var after := records[rec.nonce := Record(rec.verifier, rec.expiresAt)];
      && Represents(shards[i := sh], where, after) && |after| == |records| + 1
      && Covered(sh) && |sh.expiry| <= 2 * |after| + 64
  {
    hide *;
    var grown := WithRecord(shards[i], rec);
    var after := records[rec.nonce := Record(rec.verifier, rec.expiresAt)];
    GrownCovered(shards[i], rec);
    CompactedFacts(grown);
    GrownRecords(shards, where, records, i, rec);
    SameRecords(shards[i := grown], where, after, i, Compacted(grown));
    assert shards[i := grown][i := Compacted(grown)] == shards[i := Compacted(grown)];
    ShardSize(shards[i := grown], where, after, i);
    assert after.Keys == records.Keys + {rec.nonce};
  }

  lemma {:induction false} GrownCovered(sh: Shard, rec: IssuedNonce)
    requires Covered(sh)
    ensures Covered(WithRecord(sh, rec))
  {
  }

  lemma {:induction false} GrownRecords(shards: seq<Shard>, where: Nonce -> nat, records: Records, i: nat,
                                        rec: IssuedNonce)
    requires Represents(shards, where, records) && i < |shards| && where(rec.nonce) == i
    ensures Represents(shards[i := WithRecord(shards[i], rec)], where,
                       records[rec.nonce := Record(rec.verifier, rec.expiresAt)])
  {
    var grown := WithRecord(shards[i], rec);
    var after := records[rec.nonce := Record(rec.verifier, rec.expiresAt)];
    forall n | n in after && where(n) == i
      ensures Holds(grown, n, after[n])
    {
      if n != rec.nonce {
        assert Holds(shards[where(n)], n, records[n]);
      }
    }
    forall n | n in grown.records
      ensures n in after && where(n) == i
    {
      if n != rec.nonce {
        assert n in shards[i].records;
      }
    }
    ReplaceShard(shards, where, records, i, grown, after);
  }

  lemma {:induction false} RemoveFromShard(shards: seq<Shard>, where: Nonce -> nat, records: Records, i: nat,
                                           nonce: Nonce)
    requires Represents(shards, where, records) && i < |shards| && where(nonce) == i
    requires Covered(shards[i]) && nonce in records
    ensures var sh := Compacted(shards[i].(records := shards[i].records - {nonce}));
      && Represents(shards[i := sh], where, records - {nonce}) && |records - {nonce}| == |records| - 1
      && Covered(sh) && |sh.expiry| <= |shards[i].expiry|
  {
    hide *;
    var cut := shards[i].(records := shards[i].records - {nonce});
    CutCovered(shards[i], nonce);
    CompactedFacts(cut);
    CutRecords(shards, where, records, i, nonce);
    RemoveRecord(records, nonce);
    SameRecords(shards[i := cut], where, records - {nonce}, i, Compacted(cut));
    assert shards[i := cut][i := Compacted(cut)] == shards[i := Compacted(cut)];
  }

  lemma {:induction false} CutCovered(sh: Shard, nonce: Nonce)
    requires Covered(sh)
    ensures Covered(sh.(records := sh.records - {nonce}))
  {
  }

  lemma {:induction false} CutRecords(shards: seq<Shard>, where: Nonce -> nat, records: Records, i: nat, nonce: Nonce)
    requires Represents(shards, where, records) && i < |shards| && where(nonce) == i
    ensures Represents(shards[i := shards[i].(records := shards[i].records - {nonce})], where, records - {nonce})
  {
    var cut := shards[i].(records := shards[i].records - {nonce});
    forall n | n in records - {nonce} && where(n) == i
      ensures Holds(cut, n, records[n])
    {
      assert Holds(shards[where(n)], n, records[n]);
    }
    ReplaceShard(shards, where, records, i, cut, records - {nonce});
  }

  /**
   Reserving a slot: it fails exactly when live records alone fill the store,
   provided the last sweep is not ahead of the clock and nothing recorded had
   already expired when it ran.
   */
  lemma {:induction false} CapacityFacts(before: Records, after: Records, sweptBefore: Timestamp, sweptAfter: Timestamp,
                      capacity: nat, now: Timestamp, refused: bool)
    requires OnlyExpiredGone(before, after, now)
    requires if refused then |after| == capacity else |after| < capacity
    requires refused ==> after == Live(after, now) || sweptAfter == sweptBefore >= now
    requires sweptAfter == sweptBefore || (sweptAfter == now && after == Live(after, now))
    ensures NoneBefore(before, sweptBefore) && sweptBefore <= now ==>
      && NoneBefore(after, sweptAfter) && sweptAfter <= now
      && (refused <==> |Live(before, now)| == capacity)
  {
    LiveSize(before, after, now);
    if NoneBefore(before, sweptBefore) && sweptBefore == now {
      assert Live(after, now) == after;
    }
  }

  lemma {:induction false} RefusedStep(before: Records, after: Records, rec: IssuedNonce, outcome: IssueOutcome)
    requires OnlyExpiredGone(before, after, rec.issuedAt) && outcome.AtCapacity?
    ensures IssueStep(before, after, rec, outcome)
  {
  }

  lemma {:induction false} DuplicateStep(before: Records, purged: Records, after: Records, where: Nonce -> nat,
                                         rec: IssuedNonce)
    requires var own := where(rec.nonce); purged == Swept(before, where, own, own + 1, rec.issuedAt)
    requires OnlyExpiredGone(before, after, rec.issuedAt) && OnlyExpiredGone(purged, after, rec.issuedAt)
    requires rec.nonce in after
    ensures IssueStep(before, after, rec, Duplicate)
  {
  }

  lemma {:induction false} IssuedStep(before: Records, after: Records, rec: IssuedNonce, swept: Timestamp)
    requires OnlyExpiredGone(before, after, rec.issuedAt) && rec.nonce !in after
    ensures var grown := after[rec.nonce := Record(rec.verifier, rec.expiresAt)];
      && IssueStep(before, grown, rec, Issued)
      && (NoneBefore(after, swept) && swept <= rec.expiresAt ==> NoneBefore(grown, swept))
  {
    WithAndWithout(after, rec.nonce, Record(rec.verifier, rec.expiresAt));
  }

  // ---------------------------------------------------------------- the store

  /** A heap holds at most this many entries. */
  function HeapBound(capacity: nat): nat {
    2 * capacity + 64
  }

  ghost predicate StoredBy(shards: seq<Shard>, where: Nonce -> nat, records: Records, capacity: nat,
                           nextExpiry: Timestamp) {
    && Represents(shards, where, records)
    && (forall n :: where(n) < |shards|)
    && (forall i :: 0 <= i < |shards| ==> Covered(shards[i]) && |shards[i].expiry| <= HeapBound(capacity))
    && NoneBefore(records, nextExpiry)
  }

  lemma {:induction false} StoredUpdate(shards: seq<Shard>, where: Nonce -> nat, records: Records, capacity: nat,
                                        nextExpiry: Timestamp, i: nat, sh: Shard, after: Records, next: Timestamp)
    requires StoredBy(shards, where, records, capacity, nextExpiry) && i < |shards|
    requires Represents(shards[i := sh], where, after) && NoneBefore(after, next)
    requires Covered(sh) && |sh.expiry| <= HeapBound(capacity)
    ensures StoredBy(shards[i := sh], where, after, capacity, next)
  {
    hide Represents, NoneBefore, Covered;
  }

  lemma {:induction false} StoredPurge(shards: seq<Shard>, where: Nonce -> nat, records: Records, capacity: nat,
                                       nextExpiry: Timestamp, i: nat, sh: Shard, now: Timestamp)
    requires StoredBy(shards, where, records, capacity, nextExpiry) && i < |shards|
    requires Covered(sh) && sh.records == Live(shards[i].records, now) && |sh.expiry| <= |shards[i].expiry|
    ensures StoredBy(shards[i := sh], where, Swept(records, where, i, i + 1, now), capacity, nextExpiry)
    ensures |records| + |sh.records| == |Swept(records, where, i, i + 1, now)| + |shards[i].records|
  {
    PurgeOneShard(shards, where, records, i, sh, now);
    StoredUpdate(shards, where, records, capacity, nextExpiry, i, sh, Swept(records, where, i, i + 1, now), nextExpiry);
  }

  lemma {:induction false} StoredCompact(shards: seq<Shard>, where: Nonce -> nat, records: Records, capacity: nat,
                                         nextExpiry: Timestamp, i: nat)
    requires StoredBy(shards, where, records, capacity, nextExpiry) && i < |shards|
    ensures StoredBy(shards[i := Compacted(shards[i])], where, records, capacity, nextExpiry)
    ensures |Compacted(shards[i]).expiry| <= HeapBound(|shards[i].records|)
  {
    CompactedFacts(shards[i]);
    SameRecords(shards, where, records, i, Compacted(shards[i]));
    StoredUpdate(shards, where, records, capacity, nextExpiry, i, Compacted(shards[i]), records, nextExpiry);
  }

  function Earlier(a: Timestamp, b: Timestamp): Timestamp {
    if a < b then a else b
  }

  lemma {:induction false} StoredInsert(shards: seq<Shard>, where: Nonce -> nat, records: Records, capacity: nat,
                                        nextExpiry: Timestamp, i: nat, rec: IssuedNonce)
    requires StoredBy(shards, where, records, capacity, nextExpiry) && i < |shards| && where(rec.nonce) == i
    requires rec.nonce !in records && |records| < capacity
    ensures var after := records[rec.nonce := Record(rec.verifier, rec.expiresAt)];
      && StoredBy(shards[i := Compacted(WithRecord(shards[i], rec))], where, after, capacity,
                  Earlier(rec.expiresAt, nextExpiry))
      && |after| == |records| + 1
  {
    var after := records[rec.nonce := Record(rec.verifier, rec.expiresAt)];
    InsertRecord(shards, where, records, i, rec);
    StoredUpdate(shards, where, records, capacity, nextExpiry, i, Compacted(WithRecord(shards[i], rec)), after,
                 Earlier(rec.expiresAt, nextExpiry));
  }

  lemma {:induction false} StoredRemove(shards: seq<Shard>, where: Nonce -> nat, records: Records, capacity: nat,
                                        nextExpiry: Timestamp, i: nat, nonce: Nonce)
    requires StoredBy(shards, where, records, capacity, nextExpiry) && i < |shards| && where(nonce) == i
    requires nonce in records
    ensures var sh := Compacted(shards[i].(records := shards[i].records - {nonce}));
      && StoredBy(shards[i := sh], where, records - {nonce}, capacity, nextExpiry)
      && |records - {nonce}| == |records| - 1
  {
    var sh := Compacted(shards[i].(records := shards[i].records - {nonce}));
    RemoveFromShard(shards, where, records, i, nonce);
    StoredUpdate(shards, where, records, capacity, nextExpiry, i, sh, records - {nonce}, nextExpiry);
  }

  /** Only shard `i` changes, and its heap only loses entries. */
  ghost predicate Shrunk(before: seq<Shard>, after: seq<Shard>, i: nat) {
    && |after| == |before| && i < |before| && after == before[i := after[i]] && after[i].expiry <= before[i].expiry
  }

  lemma {:induction false} ShrunkDates(before: seq<Shard>, after: seq<Shard>, i: nat)
    requires Shrunk(before, after, i)
    ensures DueAt(after) <= DueAt(before)
  {
    forall k, d | 0 <= k < |after| && d in after[k].expiry
      ensures d in before[k].expiry
    {
    }
  }

  lemma {:induction false} InsertedDates(before: seq<Shard>, i: nat, rec: IssuedNonce)
    requires i < |before| && Covered(before[i])
    ensures DueAt(before[i := Compacted(WithRecord(before[i], rec))]) <= DueAt(before) + {rec.expiresAt}
  {
    var after := before[i := Compacted(WithRecord(before[i], rec))];
    GrownCovered(before[i], rec);
    CompactedFacts(WithRecord(before[i], rec));
    hide Compacted, Covered, NoneStale;
    forall k, d | 0 <= k < |after| && d in after[k].expiry
      ensures d.expiresAt in DueAt(before) + {rec.expiresAt}
    {
      if k == i {
        assert d in WithRecord(before[i], rec).expiry;
        assert d in before[i].expiry || d == Due(rec.expiresAt, rec.nonce);
      } else {
        assert d in before[k].expiry;
      }
    }
  }

  lemma {:induction false} NotedEarlier(next: Timestamp, dates: set<Timestamp>, t: Timestamp)
    requires IsEarliestOf(next, dates)
    ensures IsEarliestOf(Earlier(t, next), dates + {t})
  {
  }

  lemma {:induction false} CutShrinks(before: seq<Shard>, i: nat, nonce: Nonce)
    requires i < |before| && Covered(before[i])
    ensures Shrunk(before, before[i := Compacted(before[i].(records := before[i].records - {nonce}))], i)
  {
    CutCovered(before[i], nonce);
    CompactedFacts(before[i].(records := before[i].records - {nonce}));
  }

  lemma {:induction false} NoDates(shards: seq<Shard>)
    ensures DueAt(shards[..0]) == {}
  {
  }

  lemma {:induction false} OthersStay(before: seq<Shard>, purged: seq<Shard>, after: seq<Shard>, i: nat)
    requires Shrunk(before, purged, i) && Shrunk(purged, after, i)
    ensures after[..i] == before[..i]
  {
  }

  ghost function DatesIn(heap: multiset<Due>): set<Timestamp> {
    set d | d in heap :: d.expiresAt
  }

  lemma {:induction false} DueAtMore(shards: seq<Shard>, sh: Shard)
    ensures DueAt(shards + [sh]) == DueAt(shards) + DatesIn(sh.expiry)
  {
    var all := shards + [sh];
    forall t | t in DueAt(all)
      ensures t in DueAt(shards) + DatesIn(sh.expiry)
    {
      var k, d :| 0 <= k < |all| && d in all[k].expiry && d.expiresAt == t;
      assert k < |shards| ==> d in shards[k].expiry;
    }
    forall t | t in DueAt(shards)
      ensures t in DueAt(all)
    {
      var k, d :| 0 <= k < |shards| && d in shards[k].expiry && d.expiresAt == t;
      assert d in all[k].expiry;
    }
    forall t | t in DatesIn(sh.expiry)
      ensures t in DueAt(all)
    {
      assert all[|shards|] == sh;
    }
  }

  /** The earliest date of the first `i` shards, and of one more. */
  lemma {:induction false} OneMoreShard(shards: seq<Shard>, i: nat, earliest: Timestamp, e: Option<Timestamp>)
    requires i < |shards| && IsEarliestOf(earliest, DueAt(shards[..i]))
    requires e.None? ==> shards[i].expiry == multiset{}
    requires e.Some? ==> exists d :: IsEarliest(shards[i].expiry, d) && d.expiresAt == e.value
    ensures IsEarliestOf(if e.Some? && e.value < earliest then e.value else earliest, DueAt(shards[..i + 1]))
  {
    assert shards[..i + 1] == shards[..i] + [shards[i]];
    DueAtMore(shards[..i], shards[i]);
    hide DueAt;
    if e.Some? {
      var d :| IsEarliest(shards[i].expiry, d) && d.expiresAt == e.value;
      assert d.expiresAt in DatesIn(shards[i].expiry);
    }
  }

  class InMemoryNonceStore {
    const capacity: nat
    /** The shard a nonce is sent to: its hash modulo the number of shards. */
    const where: Nonce -> nat
    const shards: array<Shard>
    var outstanding: nat
    /** Second of the last at-capacity full sweep. */
    var lastSweep: Timestamp
    var nextExpiry: Timestamp
    /** The outstanding records, all shards together. */
    ghost var records: Records
    /** The due dates held by the last sweep's end, and those added since. */
    ghost var noted: set<Timestamp>

    /** Everything but the count of outstanding records, which runs ahead or behind inside an operation. */
    ghost predicate Stored()
      reads this`records, this`nextExpiry, shards
    {
      StoredBy(shards[..], where, records, capacity, nextExpiry)
    }

    /** `nextExpiry` is the earliest date noted; dates leave the shards, but none comes unnoted. */
    ghost predicate Noted()
      reads this`nextExpiry, this`noted, shards
    {
      DueAt(shards[..]) <= noted && IsEarliestOf(nextExpiry, noted)
    }

    ghost predicate Valid()
      reads this, shards
    {
      Stored() && Noted() && outstanding == |records| <= capacity
    }

    constructor (capacity: nat, shardCount: nat, hash: Nonce -> nat)
      ensures Valid() && records == map[] && fresh(shards)
      ensures this.capacity == capacity && lastSweep == I64_MIN
    {
      var count: nat := if shardCount == 0 then 1 else shardCount;
      this.capacity := capacity;
      where := (n: Nonce) => hash(n) % count;
      shards := new Shard[count](i => Shard(map[], multiset{}));
      outstanding, lastSweep, nextExpiry := 0, I64_MIN, I64_MAX;
      records := map[];
      noted := {};
    }

    lemma {:induction false} FromStored()
      requires Stored() && Noted() && outstanding == |records| <= capacity
      ensures Valid()
    {
    }

    lemma {:induction false} ToStored()
      requires Valid()
      ensures Stored() && Noted() && outstanding == |records| <= capacity
    {
    }

    lemma {:induction false} AllInRange()
      requires Stored()
      ensures forall n :: where(n) < shards.Length
    {
    }

    lemma {:induction false} InRange(n: Nonce)
      requires Stored()
      ensures where(n) < shards.Length
    {
    }

    /** Purges one shard; the slots are still to be released. */
    method PurgeShard(i: nat, now: Timestamp) returns (freed: nat)
      requires Stored() && i < shards.Length
      modifies this`records, shards
      ensures Stored() && records == Swept(old(records), where, i, i + 1, now)
      ensures freed + |records| == |old(records)|
      ensures Shrunk(old(shards[..]), shards[..], i)
    {
      ghost var before := shards[..];
      var sh;
      sh, freed := Purge(shards[i], now);
      SubBag(sh.expiry, shards[i].expiry);
      StoredPurge(before, where, records, capacity, nextExpiry, i, sh, now);
      hide *;
      shards[i] := sh;
      assert shards[..] == before[i := sh];
      records := Swept(records, where, i, i + 1, now);
      FromParts(before[i := sh], records, nextExpiry);
    }

    method CompactShard(i: nat)
      requires Stored() && i < shards.Length
      modifies shards
      ensures Stored() && |shards[i].expiry| <= HeapBound(|shards[i].records|)
      ensures Shrunk(old(shards[..]), shards[..], i)
    {
      ghost var before := shards[..];
      StoredCompact(before, where, records, capacity, nextExpiry, i);
      CompactedFacts(shards[i]);
      hide *;
      shards[i] := Compacted(shards[i]);
      assert shards[..] == before[i := Compacted(before[i])];
      FromParts(before[i := Compacted(before[i])], records, nextExpiry);
    }

    lemma {:induction false} FromParts(table: seq<Shard>, held: Records, next: Timestamp)
      requires StoredBy(table, where, held, capacity, next)
      requires shards[..] == table && records == held && nextExpiry == next
      ensures Stored()
    {
      hide StoredBy;
    }

    lemma {:induction false} HintNow(now: Timestamp)
      requires Stored() && Noted()
      ensures SafeHint(records, RetryAfter(nextExpiry, now), now) && IsHint(noted, RetryAfter(nextExpiry, now), now)
    {
      RetryAfterIsSafe(records, nextExpiry, now);
      RetryAfterIsHint(noted, nextExpiry, now);
    }

    lemma {:induction false} DatesNoted()
      requires Noted()
      ensures DueAt(shards[..]) <= noted && IsEarliestOf(nextExpiry, noted)
    {
    }

    /** Losing heap entries leaves every date that is held noted. */
    lemma {:induction false} KeepNoted(table: seq<Shard>, i: nat)
      requires Shrunk(table, shards[..], i) && DueAt(table) <= noted && IsEarliestOf(nextExpiry, noted)
      ensures Noted()
    {
      ShrunkDates(table, shards[..], i);
    }

    lemma {:induction false} IsNoted(table: seq<Shard>)
      requires shards[..] == table && DueAt(table) <= noted && IsEarliestOf(nextExpiry, noted)
      ensures Noted()
    {
    }

    /** A date no later than any expiry in shard `i`, if it holds anything. */
    method EarliestIn(i: nat) returns (e: Option<Timestamp>)
      requires Stored() && i < shards.Length
      ensures forall n :: n in records && where(n) == i ==> e.Some? && e.value <= records[n].expiresAt
      ensures e.None? ==> shards[i].expiry == multiset{}
      ensures e.Some? ==> exists d :: IsEarliest(shards[i].expiry, d) && d.expiresAt == e.value
    {
      e := Earliest(shards[i]);
      EarliestOfShard(shards[..], where, records, i, e);
    }

    method InsertInto(i: nat, rec: IssuedNonce)
      requires Stored() && Noted() && i < shards.Length && where(rec.nonce) == i
      requires rec.nonce !in records && |records| < capacity
      modifies this`records, this`nextExpiry, this`noted, shards
      ensures Stored() && records == old(records)[rec.nonce := Record(rec.verifier, rec.expiresAt)]
      ensures |records| == |old(records)| + 1
      ensures Noted() && noted == old(noted) + {rec.expiresAt}
    {
      ghost var before := shards[..];
      ghost var after := before[i := Compacted(WithRecord(before[i], rec))];
      InsertedDates(before, i, rec);
      NotedEarlier(nextExpiry, noted, rec.expiresAt);
      StoredInsert(before, where, records, capacity, nextExpiry, i, rec);
      hide *;
      shards[i] := Compacted(WithRecord(shards[i], rec));
      assert shards[..] == after;
      nextExpiry := Earlier(rec.expiresAt, nextExpiry);
      noted := noted + {rec.expiresAt};
      records := records[rec.nonce := Record(rec.verifier, rec.expiresAt)];
      FromParts(after, records, nextExpiry);
      IsNoted(after);
    }

    method RemoveFrom(i: nat, nonce: Nonce)
      requires Stored() && i < shards.Length && where(nonce) == i && nonce in records
      modifies this`records, shards
      ensures Stored() && records == old(records) - {nonce} && |records| == |old(records)| - 1
      ensures Shrunk(old(shards[..]), shards[..], i)
    {
      ghost var before := shards[..];
      CutShrinks(before, i, nonce);
      StoredRemove(before, where, records, capacity, nextExpiry, i, nonce);
      hide *;
      shards[i] := Compacted(shards[i].(records := shards[i].records - {nonce}));
      assert shards[..] == before[i := Compacted(before[i].(records := before[i].records - {nonce}))];
      records := records - {nonce};
      FromParts(before[i := Compacted(before[i].(records := before[i].records - {nonce}))], records, nextExpiry);
    }

    /** The record of `nonce` in the shard it is sent to. */
    method Lookup(nonce: Nonce) returns (rec: Option<Record>)
      requires Stored()
      ensures rec == if nonce in records then Some(records[nonce]) else None
    {
      MemberOf(shards[..], where, records, nonce);
      var own := shards[where(nonce)].records;
      rec := if nonce in own then Some(own[nonce]) else None;
    }

    /** Drops every record expired at `now`, in all shards, and notes what falls due next. */
    method Sweep(now: Timestamp) returns (removed: nat)
      requires Stored() && outstanding >= |records|
      modifies this`outstanding, this`records, this`nextExpiry, this`noted, shards
      ensures Stored() && records == Live(old(records), now)
      ensures removed + |records| == |old(records)|
      ensures outstanding == old(outstanding) - removed
      ensures Noted() && noted == DueAt(shards[..])
    {
      hide Stored, Noted, Shrunk, DueAt;
      var earliest: Timestamp := I64_MAX;
      removed := 0;
      SweptFacts(records, where, 0, 0, 0, now);
      NoDates(shards[..]);
      for i := 0 to shards.Length
        invariant Stored()
        invariant outstanding == old(outstanding) && nextExpiry == old(nextExpiry)
        invariant records == Swept(old(records), where, 0, i, now)
        invariant removed + |records| == |old(records)|
        invariant forall n :: n in records && where(n) < i ==> earliest <= records[n].expiresAt
        invariant IsEarliestOf(earliest, DueAt(shards[..i]))
      {
        ghost var before := shards[..];
        var freed := PurgeShard(i, now);
        SweptFacts(old(records), where, 0, i, i + 1, now);
        removed := removed + freed;
        ghost var purged := shards[..];
        CompactShard(i);
        OthersStay(before, purged, shards[..], i);
        var e := EarliestIn(i);
        OneMoreShard(shards[..], i, earliest, e);
        if e.Some? && e.value < earliest {
          earliest := e.value;
        }
        assert shards[..][..i + 1] == shards[..i + 1];
      }
      AllInRange();
      SweptAll(old(records), where, shards.Length, now);
      assert shards[..shards.Length] == shards[..];
      SetNextExpiry(earliest);
      Release(removed);
    }

    method SetNextExpiry(t: Timestamp)
      requires Stored() && NoneBefore(records, t) && IsEarliestOf(t, DueAt(shards[..]))
      modifies this`nextExpiry, this`noted
      ensures Stored() && nextExpiry == t
      ensures Noted() && noted == DueAt(shards[..])
    {
      ghost var table := shards[..];
      nextExpiry := t;
      noted := DueAt(table);
      IsNoted(table);
    }

    /** Gives back `n` slots of capacity. */
    method Release(n: nat)
      requires Stored() && n <= outstanding
      modifies this`outstanding
      ensures Stored() && outstanding == old(outstanding) - n
    {
      outstanding := outstanding - n;
    }

    method TryReserve() returns (ok: bool)
      requires Stored()
      modifies this`outstanding
      ensures Stored()
      ensures ok == (old(outstanding) < capacity)
      ensures outstanding == old(outstanding) + if ok then 1 else 0
    {
      ok := outstanding < capacity;
      if ok {
        outstanding := outstanding + 1;
      }
    }

    /** One slot of capacity. When full, sweep, but only if no sweep has run yet in this second. */
    method Reserve(now: Timestamp) returns (refused: Option<IssueOutcome>)
      requires Valid()
      modifies this`outstanding, this`records, this`nextExpiry, this`noted, this`lastSweep, shards
      ensures Stored() && OnlyExpiredGone(old(records), records, now)
      ensures refused.None? ==> outstanding == |records| + 1 <= capacity
      ensures refused.Some? ==> outstanding == |records| == capacity && refused.value.AtCapacity?
      ensures refused.Some? ==> SafeHint(records, refused.value.retryAfter, now)
      ensures Noted() && (refused.Some? ==> IsHint(noted, refused.value.retryAfter, now))
      ensures if lastSweep == old(lastSweep) then noted == old(noted) && shards[..] == old(shards[..])
              else noted == DueAt(shards[..])
      ensures refused.Some? ==> records == Live(records, now) || lastSweep == old(lastSweep) >= now
      ensures lastSweep == old(lastSweep) || (lastSweep == now > old(lastSweep) && records == Live(records, now))
      ensures refused.None? && lastSweep == old(lastSweep) ==> records == old(records)
    {
      hide Stored, DueAt, IsHint, SafeHint, Live, OnlyExpiredGone;
      LiveTwice(records, now);
      var ok := TryReserve();
      if ok {
        return None;
      }
      if lastSweep < now {
        lastSweep := now;
        var _ := Sweep(now);
        ok := TryReserve();
        if ok {
          return None;
        }
      }
      HintNow(now);
      return Some(AtCapacity(RetryAfter(nextExpiry, now)));
    }

    method Issue(rec: IssuedNonce) returns (outcome: IssueOutcome)
      requires Valid()
      modifies this, shards
      ensures Valid()
      ensures IssueStep(old(records), records, rec, outcome)
      // Refused for lack of room only when every slot is taken ...
      ensures outcome.AtCapacity? ==> |records| == capacity && SafeHint(records, outcome.retryAfter, rec.issuedAt)
      // The hint is the wait for the earliest date noted: of those held now, where this call has swept.
      ensures outcome.AtCapacity? ==> IsHint(noted, outcome.retryAfter, rec.issuedAt)
      ensures !outcome.Issued? ==> noted == if lastSweep == old(lastSweep) then old(noted) else DueAt(shards[..])
      ensures outcome.Issued? && lastSweep == old(lastSweep) ==> noted == old(noted) + {rec.expiresAt}
      // ... by live records, unless a sweep has already run this second and the clock has since gone back.
      ensures old(NoneBefore(records, lastSweep)) && old(lastSweep) <= rec.issuedAt <= rec.expiresAt ==>
        && NoneBefore(records, lastSweep) && lastSweep <= rec.issuedAt
        && (outcome.AtCapacity? <==> |Live(old(records), rec.issuedAt)| == capacity)
    {
      hide *;
      ToStored();
      var now := rec.issuedAt;
      var own := where(rec.nonce);
      InRange(rec.nonce);
      ghost var table := shards[..];
      var freed := PurgeShard(own, now);
      KeepNoted(table, own);
      Release(freed);
      ghost var purged := records;
      SweptFacts(old(records), where, own, own, own + 1, now);
      LiveSize(old(records), purged, now);
      FromStored();
      var refused := Reserve(now);
      GoneTwice(old(records), purged, records, now);
      CapacityFacts(old(records), records, old(lastSweep), lastSweep, capacity, now, refused.Some?);
      if refused.Some? {
        RefusedStep(old(records), records, rec, refused.value);
        FromStored();
        return refused.value;
      }
      var held := Lookup(rec.nonce);
      if held.Some? {
        Release(1);
        DuplicateStep(old(records), purged, records, where, rec);
        FromStored();
        return Duplicate;
      }
      IssuedStep(old(records), records, rec, lastSweep);
      InsertInto(own, rec);
      FromStored();
      return Issued;
    }

    method Consume(nonce: Nonce, verifier: string, now: Timestamp) returns (outcome: ConsumeOutcome)
      requires Valid()
      modifies this`outstanding, this`records, shards
      ensures Valid()
      ensures ConsumeStep(old(records), records, nonce, verifier, now, outcome)
    {
      hide Stored, Noted, Shrunk, DueAt, IsEarliestOf, Represents;
      var own := where(nonce);
      InRange(nonce);
      DatesNoted();
      var held := Lookup(nonce);
      if held.Some? && held.value.verifier == verifier {
        ghost var before := shards[..];
        RemoveFrom(own, nonce);
        KeepNoted(before, own);
        Release(1);
        return if InThePast(held.value.expiresAt, now) then Expired else Consumed;
      }
      // Another verifier's nonce stays outstanding for it.
      SweptFacts(records, where, own, own, own + 1, now);
      ghost var before := shards[..];
      var freed := PurgeShard(own, now);
      KeepNoted(before, own);
      Release(freed);
      return Unknown;
    }
  }
}
