/**
 The in-memory nonce store under concurrent callers. Every lock-protected
 section and every atomic operation of `issue` and `consume` is one step, and
 the steps of any number of threads interleave freely.

 One shard's section acts on the outstanding records the way the sequential
 methods of `NonceStore` do, so the state here holds the records themselves.
 */
module NonceRaces {
  import opened Basics
  import opened NonceStore

  /** Where a thread stands: the operation it runs and what it will do next. */
  datatype Thread =
    | Idle
    // issue
    | PurgeOwn(rec: IssuedNonce)
    | ReleaseOwn(rec: IssuedNonce, freed: nat)
    | FirstReserve(rec: IssuedNonce)
    | MarkSweep(rec: IssuedNonce)
    // sweep, on its own or for the issue it goes on with
    | Sweeping(resumed: Option<IssuedNonce>, now: Timestamp, shard: nat, removed: nat, earliest: Timestamp)
    | ReleaseSwept(resumed: Option<IssuedNonce>, removed: nat, earliest: Timestamp)
    | StoreEarliest(resumed: Option<IssuedNonce>, earliest: Timestamp)
    // issue, once more
    | SecondReserve(rec: IssuedNonce)
    | Insert(rec: IssuedNonce)
    | ReleaseDuplicate
    | LowerExpiry(rec: IssuedNonce)
    // consume
    | Take(nonce: Nonce, verifier: string, now: Timestamp)
    | ReleaseTaken
    | ReleasePurged(freed: nat)

  /** What happened to a nonce, in the order its shard's lock was held. */
  datatype Event = Recorded(nonce: Nonce, rec: Record) | Taken(nonce: Nonce, rec: Record, now: Timestamp)

  datatype Config = Config(capacity: nat, shardCount: nat, where: Nonce -> nat)

  /** What the threads share. */
  datatype Shared = Shared(
    records: Records,
    outstanding: int,
    lastSweep: Timestamp,
    nextExpiry: Timestamp,
    log: seq<Event>)

  datatype State = State(shared: Shared, threads: seq<Thread>)

  ghost predicate Init(s: State) {
    s.shared == Shared(map[], 0, I64_MIN, I64_MAX, []) && AllIdle(s.threads)
  }

  ghost predicate AllIdle(threads: seq<Thread>) {
    forall i :: 0 <= i < |threads| ==> threads[i] == Idle
  }

  /** Purging shard `i`, and how many records that frees. */
  ghost predicate Purged(c: Config, before: Records, after: Records, i: nat, now: Timestamp, freed: nat) {
    after == Swept(before, c.where, i, i + 1, now) && freed + |after| == |before|
  }

  /** The top of shard `i`'s heap, if any: a date no later than any expiry the shard holds. */
  ghost predicate HeapTop(c: Config, records: Records, i: nat, top: Option<Timestamp>) {
    forall n :: n in records && c.where(n) == i ==> top.Some? && top.value <= records[n].expiresAt
  }

  function LowerTo(a: Timestamp, top: Option<Timestamp>): Timestamp {
    if top.Some? && top.value < a then top.value else a
  }

  /** One atomic step of one thread: from `th` to `th'`, taking what is shared from `a` to `b`. */
  ghost predicate Acts(c: Config, a: Shared, b: Shared, th: Thread, th': Thread) {
    match th
    case Idle =>
      (th'.PurgeOwn? || th'.Take? || (th'.Sweeping? && th' == Sweeping(None, th'.now, 0, 0, I64_MAX))) && b == a
    case PurgeOwn(rec) =>
      && th'.ReleaseOwn? && th'.rec == rec && b == a.(records := b.records)
      && Purged(c, a.records, b.records, c.where(rec.nonce), rec.issuedAt, th'.freed)
    case ReleaseOwn(rec, freed) => th' == FirstReserve(rec) && b == a.(outstanding := a.outstanding - freed)
    case FirstReserve(rec) =>
      if a.outstanding < c.capacity then th' == Insert(rec) && b == a.(outstanding := a.outstanding + 1)
      else th' == MarkSweep(rec) && b == a
    case MarkSweep(rec) =>
      if a.lastSweep < rec.issuedAt then
        th' == Sweeping(Some(rec), rec.issuedAt, 0, 0, I64_MAX) && b == a.(lastSweep := rec.issuedAt)
      else th' == Idle && b == a
    case Sweeping(resumed, now, shard, removed, earliest) =>
      if shard < c.shardCount then
        && th'.Sweeping? && th'.resumed == resumed && th'.now == now && th'.shard == shard + 1 && th'.removed >= removed
        && b == a.(records := b.records)
        && Purged(c, a.records, b.records, shard, now, th'.removed - removed)
        && exists top :: HeapTop(c, b.records, shard, top) && th'.earliest == LowerTo(earliest, top)
      else th' == ReleaseSwept(resumed, removed, earliest) && b == a
    case ReleaseSwept(resumed, removed, earliest) =>
      th' == StoreEarliest(resumed, earliest) && b == a.(outstanding := a.outstanding - removed)
    case StoreEarliest(resumed, earliest) =>
      th' == (if resumed.Some? then SecondReserve(resumed.value) else Idle) && b == a.(nextExpiry := earliest)
    case SecondReserve(rec) =>
      if a.outstanding < c.capacity then th' == Insert(rec) && b == a.(outstanding := a.outstanding + 1)
      else th' == Idle && b == a
    case Insert(rec) =>
      if rec.nonce in a.records then th' == ReleaseDuplicate && b == a
      else
        var r := Record(rec.verifier, rec.expiresAt);
        th' == LowerExpiry(rec)
          && b == a.(records := a.records[rec.nonce := r], log := a.log + [Recorded(rec.nonce, r)])
    case ReleaseDuplicate => th' == Idle && b == a.(outstanding := a.outstanding - 1)
    case LowerExpiry(rec) => th' == Idle && b == a.(nextExpiry := Earlier(rec.expiresAt, a.nextExpiry))
    case Take(nonce, verifier, now) =>
      if nonce in a.records && a.records[nonce].verifier == verifier then
        && th' == ReleaseTaken
        && b == a.(records := a.records - {nonce}, log := a.log + [Taken(nonce, a.records[nonce], now)])
      else
        && th'.ReleasePurged? && b == a.(records := b.records)
        && Purged(c, a.records, b.records, c.where(nonce), now, th'.freed)
    case ReleaseTaken => th' == Idle && b == a.(outstanding := a.outstanding - 1)
    case ReleasePurged(freed) => th' == Idle && b == a.(outstanding := a.outstanding - freed)
  }

  ghost predicate Step(c: Config, s: State, s': State, t: nat)
    requires t < |s.threads|
  {
    && |s'.threads| == |s.threads|
    && s'.threads == s.threads[t := s'.threads[t]]
    && Acts(c, s.shared, s'.shared, s.threads[t], s'.threads[t])
  }

  ghost predicate Next(c: Config, s: State, s': State) {
    exists t :: 0 <= t < |s.threads| && Step(c, s, s', t)
  }

  ghost predicate IsRun(c: Config, run: seq<State>) {
    && run != [] && Init(run[0])
    && forall i :: 0 <= i < |run| - 1 ==> Next(c, run[i], run[i + 1])
  }

  // ---------------------------------------------------------------- accounting

  /** Slots a thread has taken from the count without a record, or freed without giving them back. */
  function Owed(th: Thread): nat {
    match th
    case ReleaseOwn(_, freed) => freed
    case Sweeping(_, _, _, removed, _) => removed
    case ReleaseSwept(_, removed, _) => removed
    case Insert(_) => 1
    case ReleaseDuplicate => 1
    case ReleaseTaken => 1
    case ReleasePurged(freed) => freed
    case _ => 0
  }

  function TotalOwed(threads: seq<Thread>): nat {
    if threads == [] then 0 else Owed(threads[0]) + TotalOwed(threads[1..])
  }

  lemma {:induction false} TotalOwedUpdate(threads: seq<Thread>, t: nat, th: Thread)
    requires t < |threads|
    ensures TotalOwed(threads[t := th]) + Owed(threads[t]) == TotalOwed(threads) + Owed(th)
  {
    if t == 0 {
      assert threads[t := th][1..] == threads[1..];
    } else {
      assert threads[t := th][1..] == threads[1..][t - 1 := th];
      TotalOwedUpdate(threads[1..], t - 1, th);
    }
  }

  lemma {:induction false} IdleOwesNothing(threads: seq<Thread>)
    requires forall i :: 0 <= i < |threads| ==> threads[i] == Idle
    ensures TotalOwed(threads) == 0
  {
    if threads != [] {
      IdleOwesNothing(threads[1..]);
    }
  }

  /** The count is the records plus what the threads owe, and never passes the capacity. */
  ghost predicate Accounted(c: Config, s: State) {
    && s.shared.outstanding == |s.shared.records| + TotalOwed(s.threads)
    && s.shared.outstanding <= c.capacity
  }

  /** What one step does to the count, it does to the records and its thread's debt together. */
  ghost predicate Balanced(c: Config, a: Shared, b: Shared, th: Thread, th': Thread) {
    && b.outstanding - a.outstanding == |b.records| - |a.records| + Owed(th') - Owed(th)
    && (b.outstanding <= a.outstanding || b.outstanding <= c.capacity)
  }

  lemma {:induction false} CountersBalanced(c: Config, a: Shared, b: Shared, th: Thread, th': Thread)
    requires Acts(c, a, b, th, th')
    requires !th.PurgeOwn? && !th.Sweeping? && !th.Insert? && !th.Take?
    ensures Balanced(c, a, b, th, th')
  {
  }

  lemma {:induction false} PurgesBalanced(c: Config, a: Shared, b: Shared, th: Thread, th': Thread)
    requires Acts(c, a, b, th, th') && (th.PurgeOwn? || th.Sweeping?)
    ensures Balanced(c, a, b, th, th')
  {
    hide Swept, HeapTop;
  }

  lemma {:induction false} InsertBalanced(c: Config, a: Shared, b: Shared, th: Thread, th': Thread)
    requires Acts(c, a, b, th, th') && th.Insert?
    ensures Balanced(c, a, b, th, th')
  {
    hide Swept, HeapTop, Purged;
    assert th.rec.nonce !in a.records ==> b.records.Keys == a.records.Keys + {th.rec.nonce};
  }

  lemma {:induction false} TakeBalanced(c: Config, a: Shared, b: Shared, th: Thread, th': Thread)
    requires Acts(c, a, b, th, th') && th.Take?
    ensures Balanced(c, a, b, th, th')
  {
    if th'.ReleaseTaken? {
      TakenBalanced(c, a, b, th, th');
    } else {
      hide Swept, HeapTop;
    }
  }

  lemma {:induction false} TakenBalanced(c: Config, a: Shared, b: Shared, th: Thread, th': Thread)
    requires Acts(c, a, b, th, th') && th.Take? && th'.ReleaseTaken?
    ensures Balanced(c, a, b, th, th')
  {
    hide Swept, HeapTop, Purged;
    RemoveRecord(a.records, th.nonce);
  }

  lemma {:induction false} StepAccounted(c: Config, s: State, s': State, t: nat)
    requires t < |s.threads| && Accounted(c, s) && Step(c, s, s', t)
    ensures Accounted(c, s')
  {
    hide Acts, Owed;
    var th, th' := s.threads[t], s'.threads[t];
    if th.Insert? {
      InsertBalanced(c, s.shared, s'.shared, th, th');
    } else if th.Take? {
      TakeBalanced(c, s.shared, s'.shared, th, th');
    } else if th.PurgeOwn? || th.Sweeping? {
      PurgesBalanced(c, s.shared, s'.shared, th, th');
    } else {
      CountersBalanced(c, s.shared, s'.shared, th, th');
    }
    TotalOwedUpdate(s.threads, t, s'.threads[t]);
  }

  lemma {:induction false} Prefix(c: Config, run: seq<State>)
    requires IsRun(c, run) && |run| > 1
    ensures IsRun(c, run[..|run| - 1])
    ensures Next(c, run[|run| - 2], run[|run| - 1])
  {
    hide Init, Next;
    var before := run[..|run| - 1];
    forall i | 0 <= i < |before| - 1
      ensures Next(c, before[i], before[i + 1])
    {
      assert Next(c, run[i], run[i + 1]);
    }
    assert Next(c, run[|run| - 2], run[|run| - 2 + 1]);
  }

  /**
   In every interleaving the store never holds more records than its capacity,
   and once all threads are idle its count is exact.
   */
  lemma {:induction false} CapacityHolds(c: Config, run: seq<State>)
    requires IsRun(c, run)
    ensures var s := run[|run| - 1];
      && Accounted(c, s) && |s.shared.records| <= c.capacity
      && (AllIdle(s.threads) ==> s.shared.outstanding == |s.shared.records|)
  {
    hide Step;
    var s := run[|run| - 1];
    if AllIdle(s.threads) {
      IdleOwesNothing(s.threads);
    }
    if |run| > 1 {
      Prefix(c, run);
      CapacityHolds(c, run[..|run| - 1]);
      var t :| 0 <= t < |run[|run| - 2].threads| && Step(c, run[|run| - 2], s, t);
      StepAccounted(c, run[|run| - 2], s, t);
    }
  }

  // ---------------------------------------------------------------- single use

  /** Position `j` records `n` as `r`, and nothing happens to `n` from there up to `k`. */
  ghost predicate BackedAt(log: seq<Event>, j: int, k: int, n: Nonce, r: Record) {
    0 <= j < k <= |log| && log[j] == Recorded(n, r) && forall m :: j < m < k ==> log[m].nonce != n
  }

  /** Every outstanding record was recorded, and nothing has happened to it since. */
  ghost predicate Backed(records: Records, log: seq<Event>) {
    forall n :: n in records ==> exists j :: BackedAt(log, j, |log|, n, records[n])
  }

  /** Every taking answers its own recording, with the record as it was issued. */
  ghost predicate SingleUse(log: seq<Event>) {
    forall k :: 0 <= k < |log| && log[k].Taken? ==> exists j :: BackedAt(log, j, k, log[k].nonce, log[k].rec)
  }

  lemma {:induction false} BackedSnoc(log: seq<Event>, e: Event, j: int, k: int, n: Nonce, r: Record)
    requires BackedAt(log, j, k, n, r)
    ensures BackedAt(log + [e], j, k, n, r)
    ensures k == |log| && e.nonce != n ==> BackedAt(log + [e], j, k + 1, n, r)
  {
  }

  /** One more event keeps both facts, if it records an absent nonce or takes a present one. */
  lemma {:induction false} LogGrows(records: Records, log: seq<Event>, e: Event)
    requires Backed(records, log) && SingleUse(log)
    requires e.Taken? ==> e.nonce in records && records[e.nonce] == e.rec
    ensures SingleUse(log + [e])
    ensures Backed(if e.Recorded? then records[e.nonce := e.rec] else records - {e.nonce}, log + [e])
  {
    var after := if e.Recorded? then records[e.nonce := e.rec] else records - {e.nonce};
    forall n | n in after
      ensures exists j :: BackedAt(log + [e], j, |log + [e]|, n, after[n])
    {
      if n == e.nonce {
        assert (log + [e])[|log|] == Recorded(n, after[n]);
        assert BackedAt(log + [e], |log|, |log + [e]|, n, after[n]);
      } else {
        var j :| BackedAt(log, j, |log|, n, records[n]);
        BackedSnoc(log, e, j, |log|, n, records[n]);
        assert BackedAt(log + [e], j, |log + [e]|, n, after[n]);
      }
    }
    forall k | 0 <= k <= |log| && (log + [e])[k].Taken?
      ensures exists j :: BackedAt(log + [e], j, k, (log + [e])[k].nonce, (log + [e])[k].rec)
    {
      var x := (log + [e])[k];
      if k < |log| {
        assert x == log[k];
      }
      var j :| BackedAt(log, j, k, x.nonce, x.rec);
      BackedSnoc(log, e, j, k, x.nonce, x.rec);
    }
  }

  /** The event records a nonce that is absent, or takes one that is there, and the records follow. */
  ghost predicate Logs(a: Shared, b: Shared, e: Event) {
    && b.log == a.log + [e] && (e.Taken? ==> e.nonce in a.records && a.records[e.nonce] == e.rec)
    && b.records == if e.Recorded? then a.records[e.nonce := e.rec] else a.records - {e.nonce}
  }

  /** Nothing is logged, and no record appears or changes. */
  ghost predicate LogsNothing(a: Shared, b: Shared) {
    b.log == a.log && forall n :: n in b.records ==> n in a.records && a.records[n] == b.records[n]
  }

  /** The thread is about to write a record or take one. */
  ghost predicate WillLog(a: Shared, th: Thread) {
    || (th.Insert? && th.rec.nonce !in a.records)
    || (th.Take? && th.nonce in a.records && a.records[th.nonce].verifier == th.verifier)
  }

  lemma {:induction false} OthersLogNothing(c: Config, a: Shared, b: Shared, th: Thread, th': Thread)
    requires Acts(c, a, b, th, th') && !WillLog(a, th)
    ensures LogsNothing(a, b)
  {
    hide HeapTop;
  }

  lemma {:induction false} ActsLogs(c: Config, a: Shared, b: Shared, th: Thread, th': Thread)
    requires Acts(c, a, b, th, th') && WillLog(a, th)
    ensures exists e :: Logs(a, b, e)
  {
    hide HeapTop, Purged;
    if th.Insert? {
      assert Logs(a, b, Recorded(th.rec.nonce, Record(th.rec.verifier, th.rec.expiresAt)));
    } else {
      assert Logs(a, b, Taken(th.nonce, a.records[th.nonce], th.now));
    }
  }

  lemma {:induction false} ActsSingleUse(c: Config, a: Shared, b: Shared, th: Thread, th': Thread)
    requires Acts(c, a, b, th, th') && Backed(a.records, a.log) && SingleUse(a.log)
    ensures Backed(b.records, b.log) && SingleUse(b.log)
  {
    hide Acts, BackedAt, SingleUse;
    if !WillLog(a, th) {
      OthersLogNothing(c, a, b, th, th');
    } else {
      ActsLogs(c, a, b, th, th');
      var e :| Logs(a, b, e);
      LogGrows(a.records, a.log, e);
    }
  }

  /**
   In every interleaving a recorded nonce is taken at most once: each taking
   has a recording of its own, with the same verifier and expiry, and no other
   event for that nonce in between.
   */
  lemma {:induction false} EachRecordTakenOnce(c: Config, run: seq<State>)
    requires IsRun(c, run)
    ensures var s := run[|run| - 1].shared; Backed(s.records, s.log) && SingleUse(s.log)
  {
    hide Acts;
    if |run| > 1 {
      Prefix(c, run);
      EachRecordTakenOnce(c, run[..|run| - 1]);
      var s, s' := run[|run| - 2], run[|run| - 1];
      var t :| 0 <= t < |s.threads| && Step(c, s, s', t);
      ActsSingleUse(c, s.shared, s'.shared, s.threads[t], s'.threads[t]);
    }
  }

  // ---------------------------------------------------------------- no live record is lost

  /** The time by which a step judges expiry, if it purges at all. */
  function ClockOf(th: Thread): Timestamp {
    match th
    case PurgeOwn(rec) => rec.issuedAt
    case Sweeping(_, now, _, _, _) => now
    case Take(_, _, now) => now
    case _ => I64_MIN
  }

  /** A step leaves a record alone unless it takes that very nonce, or judges the record expired. */
  lemma {:induction false} LiveRecordsSurvive(c: Config, a: Shared, b: Shared, th: Thread, th': Thread, n: Nonce)
    requires Acts(c, a, b, th, th') && LiveAt(a.records, n, ClockOf(th))
    ensures (n in b.records && b.records[n] == a.records[n]) ||
            (th.Take? && th.nonce == n && b.log == a.log + [Taken(n, a.records[n], th.now)])
  {
  }

  // ---------------------------------------------------------------- the expiry bound under a race

  ghost function Last(run: seq<State>): State
    requires run != []
  {
    run[|run| - 1]
  }

  /** A thread has written this record and has yet to lower the bound to it. */
  ghost predicate Pending(threads: seq<Thread>, n: Nonce, expiry: Timestamp) {
    exists t :: 0 <= t < |threads| && threads[t].LowerExpiry? && threads[t].rec.nonce == n
      && threads[t].rec.expiresAt == expiry
  }

  /** No record expires before `bound`, but for those whose writer has yet to lower it. */
  ghost predicate NoneEarlier(s: State, bound: Timestamp) {
    forall n :: n in s.shared.records ==>
      bound <= s.shared.records[n].expiresAt || Pending(s.threads, n, s.shared.records[n].expiresAt)
  }

  /** The shared bound is what it is called: a lower bound. */
  ghost predicate Bounded(s: State) {
    NoneEarlier(s, s.shared.nextExpiry)
  }

  /** Thread `t` is about to store the result of a sweep that has missed a record. */
  ghost predicate StoresTooLate(s: State, t: nat)
    requires t < |s.threads|
  {
    s.threads[t].StoreEarliest? && !NoneEarlier(s, s.threads[t].earliest)
  }

  /** Whoever else acts, a writer that has yet to lower the bound stays one. */
  lemma {:induction false} PendingStays(threads: seq<Thread>, t: nat, th: Thread, n: Nonce, expiry: Timestamp)
    requires t < |threads| && Pending(threads, n, expiry)
    ensures Pending(threads[t := th], n, expiry)
         || (threads[t].LowerExpiry? && threads[t].rec.nonce == n && threads[t].rec.expiresAt == expiry)
  {
    var u :| 0 <= u < |threads| && threads[u].LowerExpiry? && threads[u].rec.nonce == n
      && threads[u].rec.expiresAt == expiry;
    assert u != t ==> threads[t := th][u] == threads[u];
  }

  /** Every step but one keeps the bound: it is lost exactly when a sweep stores what it saw after missing a record. */
  lemma {:induction false} StepKeepsBoundExactlyWhen(c: Config, s: State, s': State, t: nat)
    requires t < |s.threads| && Step(c, s, s', t) && Bounded(s)
    ensures Bounded(s') <==> !StoresTooLate(s, t)
  {
    var th, th' := s.threads[t], s'.threads[t];
    if th.StoreEarliest? {
      StoreKeepsPending(s, t, th');
    } else {
      forall n | n in s'.shared.records
        ensures s'.shared.nextExpiry <= s'.shared.records[n].expiresAt
          || Pending(s'.threads, n, s'.shared.records[n].expiresAt)
      {
        RecordStaysBounded(c, s, s', t, n);
      }
    }
  }

  lemma {:induction false} StoreKeepsPending(s: State, t: nat, th': Thread)
    requires t < |s.threads| && s.threads[t].StoreEarliest? && !th'.LowerExpiry?
    ensures forall n, e :: Pending(s.threads[t := th'], n, e) <==> Pending(s.threads, n, e)
  {
    forall n, e
      ensures Pending(s.threads[t := th'], n, e) <==> Pending(s.threads, n, e)
    {
      if Pending(s.threads, n, e) {
        PendingStays(s.threads, t, th', n, e);
      }
      if Pending(s.threads[t := th'], n, e) {
        PendingStays(s.threads[t := th'], t, s.threads[t], n, e);
        assert s.threads[t := th'][t := s.threads[t]] == s.threads;
      }
    }
  }

  /** What a step other than a sweep's last store does to the bound of one record. */
  lemma {:induction false} RecordStaysBounded(c: Config, s: State, s': State, t: nat, n: Nonce)
    requires t < |s.threads| && Step(c, s, s', t) && Bounded(s) && !s.threads[t].StoreEarliest?
      && n in s'.shared.records
    ensures s'.shared.nextExpiry <= s'.shared.records[n].expiresAt
      || Pending(s'.threads, n, s'.shared.records[n].expiresAt)
  {
    hide Pending;
    var e := s'.shared.records[n].expiresAt;
    BoundAfter(c, s.shared, s'.shared, s.threads[t], s'.threads[t], n);
    if n in s.shared.records && s.shared.records[n] == s'.shared.records[n] {
      if Pending(s.threads, n, e) {
        PendingStays(s.threads, t, s'.threads[t], n, e);
      }
    } else {
      NowPending(s'.threads, t, n, e);
    }
  }

  lemma {:induction false} NowPending(threads: seq<Thread>, t: nat, n: Nonce, expiry: Timestamp)
    requires t < |threads| && threads[t].LowerExpiry? && threads[t].rec.nonce == n && threads[t].rec.expiresAt == expiry
    ensures Pending(threads, n, expiry)
  {
  }

  /** A step other than a sweep's store never raises the bound, and a record it writes is pending. */
  lemma {:induction false} BoundAfter(c: Config, a: Shared, b: Shared, th: Thread, th': Thread, n: Nonce)
    requires Acts(c, a, b, th, th') && !th.StoreEarliest? && n in b.records
    ensures b.nextExpiry <= a.nextExpiry && (th.LowerExpiry? ==> b.nextExpiry <= th.rec.expiresAt)
    ensures (n in a.records && a.records[n] == b.records[n])
         || (th'.LowerExpiry? && th'.rec.nonce == n && th'.rec.expiresAt == b.records[n].expiresAt)
  {
  }

  /** Step `i` of a run is a sweep's store that comes too late. */
  ghost predicate TooLateAt(c: Config, run: seq<State>, i: nat)
    requires i + 1 < |run|
  {
    exists t: nat :: t < |run[i].threads| && Step(c, run[i], run[i + 1], t) && StoresTooLate(run[i], t)
  }

  /** Over any run the shared value is a lower bound throughout exactly when no sweep stores too late. */
  lemma {:induction false} BoundHoldsUnlessTooLate(c: Config, run: seq<State>)
    requires IsRun(c, run)
    ensures (forall i :: 0 <= i < |run| ==> Bounded(run[i]))
      <==> (forall i :: 0 <= i < |run| - 1 ==> !TooLateAt(c, run, i))
  {
    hide Step, Bounded, StoresTooLate;
    if forall i :: 0 <= i < |run| ==> Bounded(run[i]) {
      forall i | 0 <= i < |run| - 1
        ensures !TooLateAt(c, run, i)
      {
        if TooLateAt(c, run, i) {
          var t: nat :| t < |run[i].threads| && Step(c, run[i], run[i + 1], t) && StoresTooLate(run[i], t);
          StepKeepsBoundExactlyWhen(c, run[i], run[i + 1], t);
        }
      }
    }
    if forall i :: 0 <= i < |run| - 1 ==> !TooLateAt(c, run, i) {
      forall i | 0 <= i < |run|
        ensures Bounded(run[i])
      {
        BoundedUpTo(c, run, i);
      }
    }
  }

  lemma {:induction false} BoundedUpTo(c: Config, run: seq<State>, i: nat)
    requires IsRun(c, run) && i < |run| && forall j :: 0 <= j < i ==> !TooLateAt(c, run, j)
    ensures Bounded(run[i])
  {
    if i > 0 {
      BoundedUpTo(c, run, i - 1);
      assert Next(c, run[i - 1], run[i - 1 + 1]);
      hide Step, Bounded, StoresTooLate;
      var t: nat :| t < |run[i - 1].threads| && Step(c, run[i - 1], run[i], t);
      StepKeepsBoundExactlyWhen(c, run[i - 1], run[i], t);
      assert !TooLateAt(c, run, i - 1);
    }
  }

  // ---------------------------------------------------------------- undisturbed sweeps

  /** The thread has begun a sweep and has yet to store its result. */
  predicate InSweep(th: Thread) {
    th.Sweeping? || th.ReleaseSwept? || th.StoreEarliest?
  }

  ghost predicate SweepUnderWay(threads: seq<Thread>) {
    exists t :: 0 <= t < |threads| && InSweep(threads[t])
  }

  /** No record is written while any sweep is between its start and its store. */
  ghost predicate Undisturbed(run: seq<State>) {
    forall i, j :: 0 <= i < |run| - 1 && j == i + 1 && SweepUnderWay(run[i].threads) ==>
      forall n :: n in run[j].shared.records ==>
        n in run[i].shared.records && run[j].shared.records[n] == run[i].shared.records[n]
  }

  /** How many shards a sweep has covered so far. */
  function ShardsSeen(c: Config, th: Thread): nat {
    if th.Sweeping? then th.shard else c.shardCount
  }

  /** The earliest expiry a sweep has seen so far is no later than any record's in the shards it has covered. */
  ghost predicate SeesAll(c: Config, records: Records, th: Thread) {
    InSweep(th) ==> forall n :: n in records && c.where(n) < ShardsSeen(c, th) ==> th.earliest <= records[n].expiresAt
  }

  lemma {:induction false} SweepStillSeesAll(c: Config, a: Shared, b: Shared, th: Thread, th': Thread)
    requires Acts(c, a, b, th, th') && SeesAll(c, a.records, th)
    requires InSweep(th) ==> forall n :: n in b.records ==> n in a.records && b.records[n] == a.records[n]
    ensures SeesAll(c, b.records, th')
  {
  }

  ghost predicate AllSee(c: Config, s: State) {
    forall t :: 0 <= t < |s.threads| ==> SeesAll(c, s.shared.records, s.threads[t])
  }

  lemma {:induction false} SweepsSeeAll(c: Config, run: seq<State>, i: nat)
    requires IsRun(c, run) && Undisturbed(run) && i < |run|
    ensures AllSee(c, run[i])
  {
    if i > 0 {
      SweepsSeeAll(c, run, i - 1);
      var s, s' := run[i - 1], run[i];
      assert Next(c, s, run[i - 1 + 1]);
      hide Acts, SeesAll;
      var t: nat :| t < |s.threads| && Step(c, s, s', t);
      forall u | 0 <= u < |s'.threads|
        ensures SeesAll(c, s'.shared.records, s'.threads[u])
      {
        assert SeesAll(c, s.shared.records, s.threads[u]);
        if u == t {
          SweepStillSeesAll(c, s.shared, s'.shared, s.threads[t], s'.threads[t]);
        } else {
          assert s'.threads[u] == s.threads[u];
          FewerToSee(c, s.shared.records, s'.shared.records, s.threads[u]);
        }
      }
    } else {
      hide SeesAll;
      forall t | 0 <= t < |run[0].threads|
        ensures SeesAll(c, run[0].shared.records, run[0].threads[t])
      {
        IdleSeesAll(c, run[0].shared.records);
      }
    }
  }

  lemma {:induction false} IdleSeesAll(c: Config, records: Records)
    ensures SeesAll(c, records, Idle)
  {
  }

  lemma {:induction false} FewerToSee(c: Config, before: Records, after: Records, th: Thread)
    requires SeesAll(c, before, th)
    requires InSweep(th) ==> forall n :: n in after ==> n in before && after[n] == before[n]
    ensures SeesAll(c, after, th)
  {
  }

  /**
   When no record is written between the start of a sweep and its store, the shared value is a
   lower bound in every state, and at rest no record at all expires before it.
   */
  lemma {:induction false} UndisturbedSweepsKeepTheBound(c: Config, run: seq<State>)
    requires IsRun(c, run) && Undisturbed(run) && forall n :: c.where(n) < c.shardCount
    ensures forall i :: 0 <= i < |run| ==> Bounded(run[i])
    ensures AllIdle(Last(run).threads) ==> NoneBefore(Last(run).shared.records, Last(run).shared.nextExpiry)
  {
    forall i | 0 <= i < |run| - 1
      ensures !TooLateAt(c, run, i)
    {
      SweepsSeeAll(c, run, i);
      forall t: nat | t < |run[i].threads|
        ensures !StoresTooLate(run[i], t)
      {
        assert SeesAll(c, run[i].shared.records, run[i].threads[t]);
      }
    }
    hide TooLateAt;
    BoundHoldsUnlessTooLate(c, run);
    assert Bounded(Last(run));
  }

  // ---------------------------------------------------------------- who overtakes a sweep

  /** The thread is in a sweep that is past the nonce's shard. */
  predicate IsPast(c: Config, th: Thread, n: Nonce) {
    InSweep(th) && c.where(n) < ShardsSeen(c, th)
  }

  /** Step `j` writes the record: its writer then has yet to lower the bound to it. */
  ghost predicate Writes(run: seq<State>, j: nat, w: nat, rec: IssuedNonce) {
    && j + 1 < |run| && w < |run[j].threads| && w < |run[j + 1].threads|
    && run[j].threads[w] == Insert(rec) && run[j + 1].threads[w] == LowerExpiry(rec)
  }

  /** Step `i` lowers the bound to the record. */
  ghost predicate Lowers(run: seq<State>, i: nat, w: nat, rec: IssuedNonce) {
    && i + 1 < |run| && w < |run[i].threads| && w < |run[i + 1].threads|
    && run[i].threads[w] == LowerExpiry(rec) && run[i + 1].threads[w] == Idle
    && run[i + 1].shared.nextExpiry <= rec.expiresAt
  }

  /** Written at step `j`, when thread `t` was past its shard, and `t` is still in that sweep at `k`. */
  ghost predicate IsMissed(c: Config, run: seq<State>, j: nat, k: nat, t: nat, w: nat, rec: IssuedNonce) {
    && j < k < |run| && w != t && Writes(run, j, w, rec)
    && forall i :: j <= i <= k ==> t < |run[i].threads| && IsPast(c, run[i].threads[t], rec.nonce)
  }

  /** A record is an earlier one, or the one its thread has just written. */
  lemma {:induction false} RecordsFrom(c: Config, a: Shared, b: Shared, th: Thread, th': Thread, n: Nonce)
    requires Acts(c, a, b, th, th') && n in b.records
    ensures (n in a.records && a.records[n] == b.records[n])
         || (th.Insert? && th' == LowerExpiry(th.rec) && th.rec.nonce == n
             && th.rec.expiresAt == b.records[n].expiresAt)
  {
  }

  /** A sweep's earliest date only goes down, and covers a shard as the sweep passes it. */
  lemma {:induction false} SweepPasses(c: Config, a: Shared, b: Shared, th: Thread, th': Thread, n: Nonce)
    requires Acts(c, a, b, th, th') && n in b.records && IsPast(c, th', n)
    ensures if IsPast(c, th, n) then th'.earliest <= th.earliest else th'.earliest <= b.records[n].expiresAt
  {
  }

  /** A record behind a sweep was seen by it, or written behind its back. */
  lemma {:induction false} SeenOrMissed(c: Config, run: seq<State>, k: nat, t: nat, n: Nonce)
    requires IsRun(c, run) && k < |run| && t < |run[k].threads|
    requires n in run[k].shared.records && IsPast(c, run[k].threads[t], n)
    ensures run[k].threads[t].earliest <= run[k].shared.records[n].expiresAt
         || IsMissedBy(c, run, k, t, n, run[k].shared.records[n].expiresAt)
  {
    hide Acts, IsMissed, InSweep, ShardsSeen;
    IdleIsPastNothing(c, run[0], t, n);
    var before := k - 1;
    var s, s' := run[before], run[k];
    assert Next(c, s, run[before + 1]);
    var u: nat :| u < |s.threads| && Step(c, s, s', u);
    RecordsFrom(c, s.shared, s'.shared, s.threads[u], s'.threads[u], n);
    if t == u {
      SweepPasses(c, s.shared, s'.shared, s.threads[t], s'.threads[t], n);
    }
    if n in s.shared.records && s.shared.records[n] == s'.shared.records[n] {
      if IsPast(c, s.threads[t], n) {
        SeenOrMissed(c, run, before, t, n);
        if IsMissedBy(c, run, before, t, n, s.shared.records[n].expiresAt) {
          StillMissed(c, run, before, t, n, s.shared.records[n].expiresAt);
        }
      }
    } else {
      WriterIsPastNothing(c, s'.threads[u], n);
      JustMissed(c, run, before, t, u, s.threads[u].rec);
    }
  }

  ghost predicate IsMissedBy(c: Config, run: seq<State>, k: nat, t: nat, n: Nonce, expiry: Timestamp) {
    exists j: nat, w: nat, rec :: IsMissed(c, run, j, k, t, w, rec) && rec.nonce == n && rec.expiresAt == expiry
  }

  lemma {:induction false} IdleIsPastNothing(c: Config, s: State, t: nat, n: Nonce)
    ensures Init(s) && t < |s.threads| ==> !IsPast(c, s.threads[t], n) && s.shared.records == map[]
  {
  }

  lemma {:induction false} WriterIsPastNothing(c: Config, th: Thread, n: Nonce)
    ensures th.LowerExpiry? ==> !IsPast(c, th, n)
  {
  }

  lemma {:induction false} StillMissed(c: Config, run: seq<State>, k: nat, t: nat, n: Nonce, expiry: Timestamp)
    requires IsMissedBy(c, run, k, t, n, expiry)
    requires k + 1 < |run| && t < |run[k + 1].threads| && IsPast(c, run[k + 1].threads[t], n)
    ensures IsMissedBy(c, run, k + 1, t, n, expiry)
  {
    hide IsPast;
    var j: nat, w: nat, rec :| IsMissed(c, run, j, k, t, w, rec) && rec.nonce == n && rec.expiresAt == expiry;
    assert IsMissed(c, run, j, k + 1, t, w, rec);
  }

  lemma {:induction false} JustMissed(c: Config, run: seq<State>, k: nat, t: nat, u: nat, rec: IssuedNonce)
    requires k + 1 < |run| && u != t && Writes(run, k, u, rec) && t < |run[k].threads| && t < |run[k + 1].threads|
    requires IsPast(c, run[k].threads[t], rec.nonce) && IsPast(c, run[k + 1].threads[t], rec.nonce)
    ensures IsMissedBy(c, run, k + 1, t, rec.nonce, rec.expiresAt)
  {
    hide IsPast;
    assert IsMissed(c, run, k, k + 1, t, u, rec);
  }

  /** A writer that no longer has to lower the bound has lowered it. */
  lemma {:induction false} HasLowered(c: Config, run: seq<State>, j: nat, k: nat, w: nat, rec: IssuedNonce)
    returns (i: nat)
    requires IsRun(c, run) && j <= k < |run| && w < |run[j].threads| && w < |run[k].threads|
    requires run[j].threads[w] == LowerExpiry(rec) && run[k].threads[w] != LowerExpiry(rec)
    ensures j <= i < k && Lowers(run, i, w, rec)
    decreases k - j
  {
    var s, s' := run[j], run[j + 1];
    assert Next(c, s, s') by { assert Next(c, run[j], run[j + 1]); }
    var u: nat :| u < |s.threads| && Step(c, s, s', u);
    if u == w {
      i := j;
    } else {
      assert s'.threads[w] == s.threads[w];
      i := HasLowered(c, run, j + 1, k, w, rec);
    }
  }

  /**
   At `k` thread `t` is about to store a date later than the expiry of a record that was written
   after its sweep had passed the record's shard, and to which the bound has been lowered since.
   */
  ghost predicate Overtakes(c: Config, run: seq<State>, j: nat, i: nat, k: nat, t: nat, w: nat, rec: IssuedNonce) {
    && j < i < k && IsMissed(c, run, j, k, t, w, rec) && Lowers(run, i, w, rec)
    && run[k].threads[t].StoreEarliest? && rec.expiresAt < run[k].threads[t].earliest
    && rec.nonce in run[k].shared.records && run[k].shared.records[rec.nonce].expiresAt == rec.expiresAt
    && !Pending(run[k].threads, rec.nonce, rec.expiresAt)
  }

  ghost predicate IsOvertaken(c: Config, run: seq<State>, k: nat, t: nat) {
    exists j: nat, i: nat, w: nat, rec :: Overtakes(c, run, j, i, k, t, w, rec)
  }

  /** A sweep stores too late exactly when such a write has overtaken it. */
  lemma {:induction false} StoresTooLateExactlyWhen(c: Config, run: seq<State>, k: nat, t: nat)
    requires IsRun(c, run) && k < |run| && t < |run[k].threads| && forall n :: c.where(n) < c.shardCount
    ensures StoresTooLate(run[k], t) <==> IsOvertaken(c, run, k, t)
  {
    hide IsRun, Lowers, IsMissed, Pending;
    var s := run[k];
    if StoresTooLate(s, t) {
      var n :| n in s.shared.records && s.shared.records[n].expiresAt < s.threads[t].earliest
               && !Pending(s.threads, n, s.shared.records[n].expiresAt);
      SeenOrMissed(c, run, k, t, n);
      var j: nat, w: nat, rec :| IsMissed(c, run, j, k, t, w, rec) && rec.nonce == n
                                 && rec.expiresAt == s.shared.records[n].expiresAt;
      WriterHasLowered(c, run, j, k, t, w, rec);
      var i: nat :| j < i < k && Lowers(run, i, w, rec);
      assert Overtakes(c, run, j, i, k, t, w, rec);
    }
    if IsOvertaken(c, run, k, t) {
      var j: nat, i: nat, w: nat, rec :| Overtakes(c, run, j, i, k, t, w, rec);
      assert rec.nonce in s.shared.records;
    }
  }

  lemma {:induction false} WriterHasLowered(c: Config, run: seq<State>, j: nat, k: nat, t: nat, w: nat,
                                            rec: IssuedNonce)
    requires IsRun(c, run) && IsMissed(c, run, j, k, t, w, rec) && !Pending(run[k].threads, rec.nonce, rec.expiresAt)
    ensures exists i: nat :: j < i < k && Lowers(run, i, w, rec)
  {
    SameThreads(c, run, j + 1, k);
    assert run[k].threads[w] == LowerExpiry(rec) ==> Pending(run[k].threads, rec.nonce, rec.expiresAt);
    var i := HasLowered(c, run, j + 1, k, w, rec);
  }

  lemma {:induction false} SameThreads(c: Config, run: seq<State>, j: nat, k: nat)
    requires IsRun(c, run) && j <= k < |run|
    ensures |run[j].threads| == |run[k].threads|
    decreases k - j
  {
    if j < k {
      hide Acts;
      assert Next(c, run[j], run[j + 1]);
      SameThreads(c, run, j + 1, k);
    }
  }

  /** Over any run the shared value is a lower bound throughout exactly when no sweep's store is overtaken. */
  lemma {:induction false} BoundHoldsExactlyWhen(c: Config, run: seq<State>)
    requires IsRun(c, run) && forall n :: c.where(n) < c.shardCount
    ensures (forall i :: 0 <= i < |run| ==> Bounded(run[i]))
      <==> (forall i :: 0 <= i < |run| - 1 ==> !IsOvertakenAt(c, run, i))
  {
    hide IsRun, Bounded, StoresTooLate, IsOvertaken, Step;
    BoundHoldsUnlessTooLate(c, run);
    forall i | 0 <= i < |run| - 1
      ensures IsOvertakenAt(c, run, i) <==> TooLateAt(c, run, i)
    {
      forall t: nat | t < |run[i].threads|
        ensures StoresTooLate(run[i], t) <==> IsOvertaken(c, run, i, t)
      {
        StoresTooLateExactlyWhen(c, run, i, t);
      }
    }
  }

  /** Step `i` of a run is the store of an overtaken sweep. */
  ghost predicate IsOvertakenAt(c: Config, run: seq<State>, i: nat)
    requires i + 1 < |run|
  {
    exists t: nat :: t < |run[i].threads| && Step(c, run[i], run[i + 1], t) && IsOvertaken(c, run, i, t)
  }

  /** Lets thread `t` take the step to `th'` and `b`. */
  lemma {:induction false} Do(c: Config, run: seq<State>, t: nat, b: Shared, th': Thread) returns (longer: seq<State>)
    requires IsRun(c, run) && t < |Last(run).threads|
    requires Acts(c, Last(run).shared, b, Last(run).threads[t], th')
    ensures IsRun(c, longer) && Last(longer) == State(b, Last(run).threads[t := th'])
  {
    hide Init, Acts;
    var s' := State(b, Last(run).threads[t := th']);
    longer := run + [s'];
    assert Step(c, Last(run), s', t);
    forall i | 0 <= i < |longer| - 1
      ensures Next(c, longer[i], longer[i + 1])
    {
      if i < |run| - 1 {
        assert Next(c, run[i], run[i + 1]);
      }
    }
  }

  /** An issue that finds room, up to holding its reserved slot. Nothing in its shard has expired. */
  lemma {:induction false} ReserveSlot(c: Config, run: seq<State>, t: nat, rec: IssuedNonce)
    returns (longer: seq<State>)
    requires IsRun(c, run) && t < |Last(run).threads| && Last(run).threads[t] == Idle
    requires NoneBefore(Last(run).shared.records, rec.issuedAt) && Last(run).shared.outstanding < c.capacity
    ensures IsRun(c, longer)
    ensures Last(longer) == State(Last(run).shared.(outstanding := Last(run).shared.outstanding + 1),
                                  Last(run).threads[t := Insert(rec)])
  {
    var a := Last(run).shared;
    NothingPurged(c, a.records, c.where(rec.nonce), rec.issuedAt);
    hide IsRun, Swept;
    longer := Do(c, run, t, a, PurgeOwn(rec));
    longer := Do(c, longer, t, a, ReleaseOwn(rec, 0));
    longer := Do(c, longer, t, a, FirstReserve(rec));
    longer := Do(c, longer, t, a.(outstanding := a.outstanding + 1), Insert(rec));
  }

  /** An issue that finds the store full and starts its sweep. */
  lemma {:induction false} StartSweep(c: Config, run: seq<State>, t: nat, rec: IssuedNonce) returns (longer: seq<State>)
    requires IsRun(c, run) && t < |Last(run).threads| && Last(run).threads[t] == Idle
    requires NoneBefore(Last(run).shared.records, rec.issuedAt) && Last(run).shared.outstanding == c.capacity
    requires Last(run).shared.lastSweep < rec.issuedAt
    ensures IsRun(c, longer)
    ensures Last(longer) == State(Last(run).shared.(lastSweep := rec.issuedAt),
                                  Last(run).threads[t := Sweeping(Some(rec), rec.issuedAt, 0, 0, I64_MAX)])
  {
    var a := Last(run).shared;
    NothingPurged(c, a.records, c.where(rec.nonce), rec.issuedAt);
    hide IsRun, Swept;
    longer := Do(c, run, t, a, PurgeOwn(rec));
    longer := Do(c, longer, t, a, ReleaseOwn(rec, 0));
    longer := Do(c, longer, t, a, FirstReserve(rec));
    longer := Do(c, longer, t, a, MarkSweep(rec));
    longer := Do(c, longer, t, a.(lastSweep := rec.issuedAt), Sweeping(Some(rec), rec.issuedAt, 0, 0, I64_MAX));
  }

  lemma {:induction false} NothingPurged(c: Config, records: Records, i: nat, now: Timestamp)
    requires NoneBefore(records, now)
    ensures Purged(c, records, records, i, now, 0)
  {
  }

  /** The reserved issue writes its record and lowers the shared expiry bound. */
  lemma {:induction false} WriteRecord(c: Config, run: seq<State>, t: nat, rec: IssuedNonce)
    returns (longer: seq<State>)
    requires IsRun(c, run) && t < |Last(run).threads| && Last(run).threads[t] == Insert(rec)
    requires rec.nonce !in Last(run).shared.records
    ensures IsRun(c, longer)
    ensures Last(longer) == State(Written(Last(run).shared, rec), Last(run).threads[t := Idle])
  {
    var a := Last(run).shared;
    hide IsRun;
    longer := Do(c, run, t, Written(a, rec).(nextExpiry := a.nextExpiry), LowerExpiry(rec));
    longer := Do(c, longer, t, Written(a, rec), Idle);
  }

  function Written(a: Shared, rec: IssuedNonce): Shared {
    var r := Record(rec.verifier, rec.expiresAt);
    a.(records := a.records[rec.nonce := r], log := a.log + [Recorded(rec.nonce, r)],
       nextExpiry := Earlier(rec.expiresAt, a.nextExpiry))
  }

  /**
   The expiry bound the retry hint is drawn from is meant never to be late.
   Alone it never is (`InMemoryNonceStore.Stored`), but a sweep that another
   issue overtakes stores a later one: with two shards, room for two records
   and two threads, the store ends up with a record that expires before it.
   */
  lemma {:induction false} SweepCanOverrunTheBound(c: Config, far: IssuedNonce, near: IssuedNonce, late: IssuedNonce)
      returns (run: seq<State>)
    requires c.capacity == 2 && c.shardCount == 2
    requires c.where(near.nonce) == 0 && c.where(far.nonce) == 1
    requires 0 <= near.issuedAt <= late.issuedAt <= near.expiresAt < far.expiresAt && far.issuedAt == near.issuedAt
    ensures IsRun(c, run) && AllIdle(Last(run).threads)
    ensures var s := Last(run).shared;
      near.nonce in s.records && s.records[near.nonce].expiresAt < s.nextExpiry
  {
    var start := State(Shared(map[], 0, I64_MIN, I64_MAX, []), [Idle, Idle]);
    run := [start];
    run := ReserveSlot(c, run, 1, far);
    run := WriteRecord(c, run, 1, far);
    run := ReserveSlot(c, run, 0, near);
    run := StartSweep(c, run, 1, late);
    run := FinishOvertaken(c, run, far, near, late);
  }

  /** The sweep passes shard 0, the record lands there, and the sweep goes on to store what it had seen. */
  lemma {:induction false} FinishOvertaken(c: Config, run: seq<State>, far: IssuedNonce, near: IssuedNonce,
                                           late: IssuedNonce)
      returns (longer: seq<State>)
    requires c.capacity == 2 && c.shardCount == 2
    requires c.where(near.nonce) == 0 && c.where(far.nonce) == 1
    requires 0 <= near.issuedAt <= late.issuedAt <= near.expiresAt < far.expiresAt
    requires IsRun(c, run) && Last(run).threads == [Insert(near), Sweeping(Some(late), late.issuedAt, 0, 0, I64_MAX)]
    requires Last(run).shared.records == map[far.nonce := Record(far.verifier, far.expiresAt)]
    requires Last(run).shared.outstanding == 2
    ensures IsRun(c, longer) && AllIdle(Last(longer).threads)
    ensures var s := Last(longer).shared;
      near.nonce in s.records && s.records[near.nonce].expiresAt < s.nextExpiry
  {
    var a := Last(run).shared;
    NothingPurged(c, a.records, 0, late.issuedAt);
    assert HeapTop(c, a.records, 0, None);
    assert LowerTo(I64_MAX, None) == I64_MAX;
    longer := Do(c, run, 1, a, Sweeping(Some(late), late.issuedAt, 1, 0, I64_MAX));
    hide IsRun, Purged, HeapTop, Acts;
    longer := WriteRecord(c, longer, 0, near);
    longer := FinishSweep(c, longer, late, far.expiresAt);
  }

  /** A sweep of the last shard that purges nothing, through to the refusal. */
  lemma {:induction false} FinishSweep(c: Config, run: seq<State>, late: IssuedNonce, e: Timestamp)
    returns (longer: seq<State>)
    requires c.capacity == 2 && c.shardCount == 2
    requires IsRun(c, run) && Last(run).threads == [Idle, Sweeping(Some(late), late.issuedAt, 1, 0, I64_MAX)]
    requires NoneBefore(Last(run).shared.records, late.issuedAt) && Last(run).shared.outstanding == 2
    requires HeapTop(c, Last(run).shared.records, 1, Some(e))
    ensures IsRun(c, longer) && Last(longer) == State(Last(run).shared.(nextExpiry := e), [Idle, Idle])
  {
    var b := Last(run).shared;
    NothingPurged(c, b.records, 1, late.issuedAt);
    assert LowerTo(I64_MAX, Some(e)) == e;
    hide IsRun, Purged, HeapTop;
    longer := Do(c, run, 1, b, Sweeping(Some(late), late.issuedAt, 2, 0, e));
    longer := Do(c, longer, 1, b, ReleaseSwept(Some(late), 0, e));
    longer := Do(c, longer, 1, b, StoreEarliest(Some(late), e));
    longer := Do(c, longer, 1, b.(nextExpiry := e), SecondReserve(late));
    longer := Do(c, longer, 1, b.(nextExpiry := e), Idle);
  }
}
