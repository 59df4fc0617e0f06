/**
 The machine of `NonceRaces` against the sequential store: a thread whose steps nobody interrupts does
 what one call of `issue` or `consume` promises; and how often calls sweep, over any interleaving.
 */
module NonceAlone {
  import opened Basics
  import opened NonceStore
  import opened NonceRaces

  /** Where one thread stands, and what all share. */
  datatype Point = Point(shared: Shared, thread: Thread)

  /** The steps of one thread, with no other's in between, until it rests. */
  ghost predicate IsAlone(c: Config, points: seq<Point>) {
    && |points| > 0 && points[|points| - 1].thread == Idle
    && (forall i :: 0 <= i < |points| - 1 ==> points[i].thread != Idle)
    && forall i :: 0 <= i < |points| - 1 ==> Moves(c, points[i], points[i + 1])
  }

  ghost predicate Moves(c: Config, p: Point, q: Point) {
    Acts(c, p.shared, q.shared, p.thread, q.thread)
  }

  /** The count is right but for what this thread owes. */
  ghost predicate Counted(c: Config, p: Point) {
    p.shared.outstanding == |p.shared.records| + Owed(p.thread) && p.shared.outstanding <= c.capacity
  }

  lemma {:induction false} MoveCounted(c: Config, p: Point, q: Point)
    requires Moves(c, p, q) && Counted(c, p)
    ensures Counted(c, q)
  {
    hide Acts, Owed;
    if p.thread.Insert? {
      InsertBalanced(c, p.shared, q.shared, p.thread, q.thread);
    } else if p.thread.Take? {
      TakeBalanced(c, p.shared, q.shared, p.thread, q.thread);
    } else if p.thread.PurgeOwn? || p.thread.Sweeping? {
      PurgesBalanced(c, p.shared, q.shared, p.thread, q.thread);
    } else {
      CountersBalanced(c, p.shared, q.shared, p.thread, q.thread);
    }
  }

  // ---------------------------------------------------------------- issue

  /** The records of the shards before `hi` are live at `now`. */
  ghost predicate LiveBelow(c: Config, records: Records, hi: nat, now: Timestamp) {
    forall n :: n in records && c.where(n) < hi ==> !InThePast(records[n].expiresAt, now)
  }

  /** Only expired records have gone, the nonce's own shard is purged, and nothing is logged. */
  ghost predicate Kept(c: Config, rec: IssuedNonce, a: Shared, s: Shared) {
    && OnlyExpiredGone(a.records, s.records, rec.issuedAt) && s.log == a.log
    && forall n :: n in s.records && c.where(n) == c.where(rec.nonce) ==>
         !InThePast(s.records[n].expiresAt, rec.issuedAt)
  }

  ghost predicate SweptSince(rec: IssuedNonce, a: Shared, s: Shared) {
    a.lastSweep < rec.issuedAt && s.lastSweep == rec.issuedAt
  }

  /** What holds at each point of an issue of `rec` that began at `a`. */
  ghost predicate Midway(c: Config, rec: IssuedNonce, a: Shared, p: Point) {
    var s := p.shared;
    match p.thread
    case PurgeOwn(r) => r == rec && s == a
    case ReleaseOwn(r, _) => r == rec && Kept(c, rec, a, s) && s.lastSweep == a.lastSweep
    case FirstReserve(r) => r == rec && Kept(c, rec, a, s) && s.lastSweep == a.lastSweep
    case MarkSweep(r) =>
      r == rec && Kept(c, rec, a, s) && s.lastSweep == a.lastSweep && s.outstanding == c.capacity
    case Sweeping(r, now, shard, _, _) =>
      && r == Some(rec) && now == rec.issuedAt && shard <= c.shardCount && Kept(c, rec, a, s)
      && SweptSince(rec, a, s) && LiveBelow(c, s.records, shard, now)
    case ReleaseSwept(r, _, _) =>
      && r == Some(rec) && Kept(c, rec, a, s)
      && SweptSince(rec, a, s) && LiveBelow(c, s.records, c.shardCount, rec.issuedAt)
    case StoreEarliest(r, _) =>
      && r == Some(rec) && Kept(c, rec, a, s)
      && SweptSince(rec, a, s) && LiveBelow(c, s.records, c.shardCount, rec.issuedAt)
    case SecondReserve(r) =>
      && r == rec && Kept(c, rec, a, s)
      && SweptSince(rec, a, s) && LiveBelow(c, s.records, c.shardCount, rec.issuedAt)
    case Insert(r) => r == rec && Kept(c, rec, a, s)
    case ReleaseDuplicate => Kept(c, rec, a, s) && rec.nonce in s.records
    case LowerExpiry(r) => r == rec && IsIssued(rec, a, s)
    case Idle => exists outcome :: IsOutcome(c, rec, a, s, outcome)
    case _ => false
  }

  ghost predicate IsIssued(rec: IssuedNonce, a: Shared, b: Shared) {
    && IssueStep(a.records, b.records, rec, Issued)
    && b.log == a.log + [Recorded(rec.nonce, Record(rec.verifier, rec.expiresAt))]
  }

  /** What the store and the log show once an issue is over. */
  ghost predicate IsOutcome(c: Config, rec: IssuedNonce, a: Shared, b: Shared, outcome: IssueOutcome) {
    match outcome
    case Issued => IsIssued(rec, a, b)
    case Duplicate => IssueStep(a.records, b.records, rec, Duplicate) && b.log == a.log
    case AtCapacity(_) =>
      && IssueStep(a.records, b.records, rec, outcome) && b.log == a.log && |b.records| == c.capacity
      && (LiveBelow(c, b.records, c.shardCount, rec.issuedAt) || b.lastSweep == a.lastSweep >= rec.issuedAt)
  }

  lemma {:induction false} MoveKeepsMidway(c: Config, rec: IssuedNonce, a: Shared, p: Point, q: Point)
    requires Moves(c, p, q) && Midway(c, rec, a, p) && p.thread != Idle && Counted(c, p)
    ensures Midway(c, rec, a, q)
  {
    if p.thread.PurgeOwn? || p.thread.Sweeping? {
      PurgeKeepsMidway(c, rec, a, p, q);
    } else if q.thread.Idle? {
      EndKeepsMidway(c, rec, a, p, q);
    } else if p.thread.Insert? {
      InsertKeepsMidway(c, rec, a, p, q);
    } else {
      PlainKeepsMidway(c, rec, a, p, q);
    }
  }

  lemma {:induction false} PurgeKeepsMidway(c: Config, rec: IssuedNonce, a: Shared, p: Point, q: Point)
    requires Moves(c, p, q) && Midway(c, rec, a, p) && (p.thread.PurgeOwn? || p.thread.Sweeping?)
    ensures Midway(c, rec, a, q)
  {
    hide HeapTop;
  }

  lemma {:induction false} EndKeepsMidway(c: Config, rec: IssuedNonce, a: Shared, p: Point, q: Point)
    requires Moves(c, p, q) && Midway(c, rec, a, p) && Counted(c, p) && p.thread != Idle && q.thread == Idle
    requires !p.thread.PurgeOwn? && !p.thread.Sweeping?
    ensures Midway(c, rec, a, q)
  {
    hide Purged, HeapTop, LiveBelow;
    if p.thread.ReleaseDuplicate? {
      assert IsOutcome(c, rec, a, q.shared, Duplicate);
    } else if p.thread.LowerExpiry? {
      hide IssueStep;
      assert IsOutcome(c, rec, a, q.shared, Issued);
    } else {
      assert IsOutcome(c, rec, a, q.shared, AtCapacity(None));
    }
  }

  lemma {:induction false} InsertKeepsMidway(c: Config, rec: IssuedNonce, a: Shared, p: Point, q: Point)
    requires Moves(c, p, q) && Midway(c, rec, a, p) && p.thread.Insert?
    ensures Midway(c, rec, a, q)
  {
    hide Purged, HeapTop;
    if rec.nonce !in p.shared.records {
      IssuedStep(a.records, p.shared.records, rec, I64_MIN);
    }
    hide IssueStep;
  }

  lemma {:induction false} PlainKeepsMidway(c: Config, rec: IssuedNonce, a: Shared, p: Point, q: Point)
    requires Moves(c, p, q) && Midway(c, rec, a, p) && Counted(c, p) && q.thread != Idle && p.thread != Idle
    requires !p.thread.PurgeOwn? && !p.thread.Sweeping? && !p.thread.Insert?
    ensures Midway(c, rec, a, q)
  {
    hide Purged, HeapTop, OnlyExpiredGone, IsIssued;
  }

  /** Undisturbed, an issue ends as the sequential one does, with the count exact. */
  lemma {:induction false} AloneIssues(c: Config, rec: IssuedNonce, points: seq<Point>)
    requires IsAlone(c, points) && points[0].thread == PurgeOwn(rec) && Counted(c, points[0])
    ensures var a, b := points[0].shared, points[|points| - 1].shared;
      && b.outstanding == |b.records| && (exists outcome :: IsOutcome(c, rec, a, b, outcome))
  {
    hide Moves, Midway;
    var a := points[0].shared;
    var i := 0;
    assert Midway(c, rec, a, points[0]) by { StartsMidway(c, rec, points[0]); }
    while i < |points| - 1
      invariant i < |points| && Midway(c, rec, a, points[i]) && Counted(c, points[i])
    {
      assert Moves(c, points[i], points[i + 1]);
      MoveKeepsMidway(c, rec, a, points[i], points[i + 1]);
      MoveCounted(c, points[i], points[i + 1]);
      i := i + 1;
    }
    EndsMidway(c, rec, a, points[i]);
  }

  lemma {:induction false} StartsMidway(c: Config, rec: IssuedNonce, p: Point)
    requires p.thread == PurgeOwn(rec)
    ensures Midway(c, rec, p.shared, p)
  {
  }

  lemma {:induction false} EndsMidway(c: Config, rec: IssuedNonce, a: Shared, p: Point)
    requires Midway(c, rec, a, p) && p.thread == Idle
    ensures exists outcome :: IsOutcome(c, rec, a, p.shared, outcome)
  {
  }

  // ---------------------------------------------------------------- consume

  /** What holds at each point of a consume that began at `a`. */
  ghost predicate Consuming(c: Config, nonce: Nonce, verifier: string, now: Timestamp, a: Shared, p: Point) {
    match p.thread
    case Take(n, v, t) => n == nonce && v == verifier && t == now && p.shared == a
    case _ =>
      && (p.thread.ReleaseTaken? || p.thread.ReleasePurged? || p.thread.Idle?)
      && exists outcome :: IsConsumed(nonce, verifier, now, a, p.shared, outcome)
  }

  ghost predicate IsConsumed(nonce: Nonce, verifier: string, now: Timestamp, a: Shared, b: Shared,
                             outcome: ConsumeOutcome) {
    && ConsumeStep(a.records, b.records, nonce, verifier, now, outcome)
    && b.log == if outcome.Unknown? then a.log else a.log + [Taken(nonce, a.records[nonce], now)]
  }

  lemma {:induction false} MoveKeepsConsuming(c: Config, nonce: Nonce, verifier: string, now: Timestamp, a: Shared,
                                              p: Point, q: Point)
    requires Moves(c, p, q) && Consuming(c, nonce, verifier, now, a, p) && p.thread != Idle
    ensures Consuming(c, nonce, verifier, now, a, q)
  {
    hide HeapTop;
    if p.thread.Take? {
      var mine := nonce in a.records && a.records[nonce].verifier == verifier;
      var outcome :=
        if !mine then Unknown else if InThePast(a.records[nonce].expiresAt, now) then Expired else Consumed;
      assert IsConsumed(nonce, verifier, now, a, q.shared, outcome);
    } else {
      hide ConsumeStep, Purged;
      var outcome :| IsConsumed(nonce, verifier, now, a, p.shared, outcome);
      assert IsConsumed(nonce, verifier, now, a, q.shared, outcome);
    }
  }

  /** Undisturbed, a consume ends as the sequential one does, with the count exact. */
  lemma {:induction false} AloneConsumes(c: Config, nonce: Nonce, verifier: string, now: Timestamp, points: seq<Point>)
    requires IsAlone(c, points) && points[0].thread == Take(nonce, verifier, now) && Counted(c, points[0])
    ensures var a, b := points[0].shared, points[|points| - 1].shared;
      && b.outstanding == |b.records| && (exists outcome :: IsConsumed(nonce, verifier, now, a, b, outcome))
  {
    hide Moves, ConsumeStep;
    var a := points[0].shared;
    var i := 0;
    while i < |points| - 1
      invariant i < |points| && Consuming(c, nonce, verifier, now, a, points[i]) && Counted(c, points[i])
    {
      assert Moves(c, points[i], points[i + 1]);
      MoveKeepsConsuming(c, nonce, verifier, now, a, points[i], points[i + 1]);
      MoveCounted(c, points[i], points[i + 1]);
      i := i + 1;
    }
  }

  // ---------------------------------------------------------------- how often calls sweep

  /** From point `j` of a run, thread `t`'s issue of `rec` begins a full sweep. */
  ghost predicate BeginsSweep(run: seq<State>, j: nat, t: nat, rec: IssuedNonce) {
    && j + 1 < |run| && t < |run[j].threads| && t < |run[j + 1].threads|
    && run[j].threads[t] == MarkSweep(rec) && run[j + 1].threads[t].Sweeping?
  }

  ghost predicate SweptAt(run: seq<State>, k: nat, now: Timestamp) {
    exists j: nat, t: nat, rec :: j < k && BeginsSweep(run, j, t, rec) && rec.issuedAt == now
  }

  ghost predicate LatestSweep(run: seq<State>, k: nat, latest: Timestamp) {
    && (latest == I64_MIN || SweptAt(run, k, latest))
    && forall j: nat, t: nat, rec :: j < k && BeginsSweep(run, j, t, rec) ==> rec.issuedAt <= latest
  }

  /** `last_sweep` is the latest clock at which an issue began a full sweep. */
  lemma {:induction false} LastSweepIsLatest(c: Config, run: seq<State>, k: nat)
    requires IsRun(c, run) && k < |run|
    ensures LatestSweep(run, k, run[k].shared.lastSweep)
  {
    hide Acts;
    if k > 0 {
      LastSweepIsLatest(c, run, k - 1);
      assert Next(c, run[k - 1], run[k - 1 + 1]);
      var t :| 0 <= t < |run[k - 1].threads| && Step(c, run[k - 1], run[k], t);
      StepSweeps(c, run, k - 1, t);
    }
  }

  lemma {:induction false} StepSweeps(c: Config, run: seq<State>, j: nat, t: nat)
    requires j + 1 < |run| && t < |run[j].threads| && Step(c, run[j], run[j + 1], t)
    requires LatestSweep(run, j, run[j].shared.lastSweep)
    ensures LatestSweep(run, j + 1, run[j + 1].shared.lastSweep)
  {
    hide HeapTop, Purged;
    var was, now := run[j].shared.lastSweep, run[j + 1].shared.lastSweep;
    forall w: nat, rec | BeginsSweep(run, j, w, rec)
      ensures w == t && now == rec.issuedAt > was
    {
    }
    if now != was {
      assert BeginsSweep(run, j, t, run[j].threads[t].rec);
      assert SweptAt(run, j + 1, now);
    } else if was != I64_MIN {
      var i: nat, w: nat, rec :| i < j && BeginsSweep(run, i, w, rec) && rec.issuedAt == was;
      assert SweptAt(run, j + 1, now);
    }
    hide Step, BeginsSweep;
  }

  /**
   In every interleaving an issue that finds the store full sweeps exactly when no issue has yet begun
   a sweep at its clock or a later one: at most once in each second.
   */
  lemma {:induction false} SweepsExactlyWhen(c: Config, run: seq<State>, k: nat, t: nat, rec: IssuedNonce)
    requires IsRun(c, run) && k + 1 < |run| && t < |run[k].threads| && Step(c, run[k], run[k + 1], t)
    requires run[k].threads[t] == MarkSweep(rec) && rec.issuedAt > I64_MIN
    ensures BeginsSweep(run, k, t, rec) <==>
            forall j: nat, w: nat, r :: j < k && BeginsSweep(run, j, w, r) ==> r.issuedAt < rec.issuedAt
  {
    LastSweepIsLatest(c, run, k);
    hide IsRun;
  }
}
