/**
 Whole runs of the pinned-key store: what a run of enrolments leaves, what
 status calls in between change, and what goes wrong when an AID is enrolled
 twice with one expiry.
 */
module EnrolledKeysRuns {
  import opened Basics
  import opened Aids
  import opened EnrolledKeys

  datatype Op = Enrol(key: RawKey, expiry: Timestamp) | Status(now: Timestamp)

  function Step(cap: nat, st: Enrolment, op: Op): Enrolment {
    match op
    case Enrol(key, expiry) => Inserted(cap, st, key, expiry)
    case Status(now) => Pruned(st, now)
  }

  function Run(cap: nat, ops: seq<Op>): Enrolment {
    if ops == [] then EMPTY else Step(cap, Run(cap, ops[..|ops| - 1]), ops[|ops| - 1])
  }

  ghost predicate WellKeyed(ops: seq<Op>) {
    forall op :: op in ops && op.Enrol? ==> IsKey(op.key)
  }

  /** No enrolment repeats a mark that is still queued. */
  ghost predicate FreshRun(cap: nat, ops: seq<Op>) {
    ops != [] ==>
      var before := ops[..|ops| - 1];
      && FreshRun(cap, before)
      && (match ops[|ops| - 1]
          case Enrol(key, expiry) => IsKey(key) && Mark(ToAid(key), expiry) !in Run(cap, before).order
          case Status(_) => true)
  }

  /** Every key the run ever enrolled, by its last enrolment, with no bound. */
  function History(ops: seq<Op>): seq<Entry> {
    if ops == [] then []
    else
      var before := History(ops[..|ops| - 1]);
      match ops[|ops| - 1]
      case Enrol(key, expiry) => Without(before, ToAid(key)) + [Entry(key, expiry)]
      case Status(_) => before
  }

  /** The same run with its status calls taken out. */
  function EnrolmentsOf(ops: seq<Op>): (r: seq<Op>)
    ensures forall op :: op in r ==> op.Enrol?
  {
    if ops == [] then []
    else
      var before := EnrolmentsOf(ops[..|ops| - 1]);
      if ops[|ops| - 1].Enrol? then before + [ops[|ops| - 1]] else before
  }

  /** Every reachable state satisfies the invariant and the bound on keys, repeats or not. */
  lemma {:induction false} RunTracked(cap: nat, ops: seq<Op>)
    requires 1 <= cap && WellKeyed(ops)
    ensures Tracked(Run(cap, ops)) && |Run(cap, ops).keys| <= cap
  {
    if ops != [] {
      var before := ops[..|ops| - 1];
      assert forall op :: op in before ==> op in ops;
      RunTracked(cap, before);
      match ops[|ops| - 1]
      case Enrol(key, expiry) => InsertDropsTheVictim(cap, Run(cap, before), key, expiry);
      case Status(now) => PruneRefinesUnexpired(Run(cap, before), now);
    }
  }

  lemma {:induction false} FreshRunKeyed(cap: nat, ops: seq<Op>)
    requires FreshRun(cap, ops)
    ensures WellKeyed(ops)
  {
    if ops != [] {
      var before := ops[..|ops| - 1];
      FreshRunKeyed(cap, before);
      assert ops == before + [ops[|ops| - 1]];
    }
  }

  /** In a fresh run the queue never holds a mark twice, nor more than twice the cap. */
  lemma {:induction false} FreshRunBounded(cap: nat, ops: seq<Op>)
    requires 1 <= cap && FreshRun(cap, ops)
    ensures Distinct(Run(cap, ops).order) && |Run(cap, ops).order| <= 2 * cap
    ensures Tracked(Run(cap, ops)) && |Run(cap, ops).keys| <= cap
  {
    if ops != [] {
      var before := ops[..|ops| - 1];
      FreshRunBounded(cap, before);
      match ops[|ops| - 1]
      case Enrol(key, expiry) => FreshInsertRefinesRecency(cap, Run(cap, before), key, expiry);
      case Status(now) => PruneRefinesUnexpired(Run(cap, before), now);
    }
  }

  // ---------------------------------------------------------------- ordered sublists

  /** `r` is `h` with some elements left out. */
  ghost predicate Sublist(r: seq<Entry>, h: seq<Entry>) {
    r == [] || (h != [] && if r[0] == h[0] then Sublist(r[1..], h[1..]) else Sublist(r, h[1..]))
  }

  lemma {:induction false} SublistIn(r: seq<Entry>, h: seq<Entry>)
    requires Sublist(r, h)
    ensures |r| <= |h| && forall e :: e in r ==> e in h
  {
    if r != [] {
      if r[0] == h[0] { SublistIn(r[1..], h[1..]); } else { SublistIn(r, h[1..]); }
      assert r == [r[0]] + r[1..];
    }
  }

  lemma {:induction false} SublistSkip(r: seq<Entry>, h: seq<Entry>)
    requires r != [] && Sublist(r, h)
    ensures Sublist(r[1..], h)
    decreases |h|, 1
  {
    if r[0] == h[0] {
      SublistWeaken(r[1..], h);
    } else {
      SublistSkip(r, h[1..]);
      SublistWeaken(r[1..], h);
    }
  }

  lemma {:induction false} SublistWeaken(r: seq<Entry>, h: seq<Entry>)
    requires h != [] && Sublist(r, h[1..])
    ensures Sublist(r, h)
    decreases |h|, 0
  {
    if r != [] && r[0] == h[0] {
      SublistSkip(r, h[1..]);
    }
  }

  lemma {:induction false} SublistSnoc(r: seq<Entry>, h: seq<Entry>, e: Entry)
    requires Sublist(r, h)
    ensures Sublist(r + [e], h + [e])
    decreases |h|
  {
    if h == [] {
      assert r + [e] == [e] && h + [e] == [e];
    } else {
      assert (h + [e])[1..] == h[1..] + [e];
      if r == [] {
        SublistSnoc(r, h[1..], e);
        assert r + [e] == [e];
        if e == h[0] {
          assert [e][1..] == [];
        }
      } else {
        assert (r + [e])[1..] == r[1..] + [e];
        if r[0] == h[0] { SublistSnoc(r[1..], h[1..], e); } else { SublistSnoc(r, h[1..], e); }
      }
    }
  }

  lemma {:induction false} SublistWithout(r: seq<Entry>, h: seq<Entry>, aid: string)
    requires Sublist(r, h)
    ensures Sublist(Without(r, aid), Without(h, aid))
    decreases |h|
  {
    hide ToAid;
    if r != [] {
      var h' := Without(h[1..], aid);
      if r[0] == h[0] {
        SublistWithout(r[1..], h[1..], aid);
        var r' := Without(r[1..], aid);
        assert ([h[0]] + h')[1..] == h' && ([h[0]] + r')[1..] == r';
      } else {
        SublistWithout(r, h[1..], aid);
        if ToAid(h[0].key) != aid {
          assert ([h[0]] + h')[1..] == h';
          SublistWeaken(Without(r, aid), [h[0]] + h');
        }
      }
    }
  }

  lemma {:induction false} SublistUnexpired(r: seq<Entry>, h: seq<Entry>, now: Timestamp)
    requires Sublist(r, h)
    ensures Sublist(Unexpired(r, now), h)
    decreases |h|
  {
    if r != [] {
      if r[0] == h[0] {
        SublistUnexpired(r[1..], h[1..], now);
        var r' := Unexpired(r[1..], now);
        if InThePast(r[0].expiry, now) {
          SublistWeaken(r', h);
        } else {
          assert ([r[0]] + r')[1..] == r';
        }
      } else {
        SublistUnexpired(r, h[1..], now);
        SublistWeaken(Unexpired(r, now), h);
      }
    }
  }

  /** The head of a sublist of `n + 1` elements is not among the last `n` of a list without repeats. */
  lemma {:induction false} SublistHeadIsOld(r: seq<Entry>, h: seq<Entry>)
    requires r != [] && Sublist(r, h) && Distinct(h)
    ensures r[0] !in LastN(h, |r| - 1)
    decreases |h|
  {
    SublistIn(r, h);
    if r[0] == h[0] {
      SublistIn(r[1..], h[1..]);
      assert forall k :: 0 < k < |h| ==> h[k] != h[0];
    } else {
      SublistIn(r, h[1..]);
      assert Distinct(h[1..]);
      SublistHeadIsOld(r, h[1..]);
      assert LastN(h, |r| - 1) == LastN(h[1..], |r| - 1);
    }
  }

  // ---------------------------------------------------------------- histories

  ghost predicate OneEach(list: seq<Entry>) {
    forall i, j :: 0 <= i < j < |list| ==> ToAid(list[i].key) != ToAid(list[j].key)
  }

  lemma {:induction false} WithoutKeepsOneEach(list: seq<Entry>, aid: string)
    requires OneEach(list)
    ensures OneEach(Without(list, aid))
  {
    hide ToAid;
    if list != [] {
      assert OneEach(list[1..]);
      WithoutKeepsOneEach(list[1..], aid);
      WithoutMembers(list[1..], aid);
      forall e | e in Without(list[1..], aid)
        ensures ToAid(e.key) != ToAid(list[0].key)
      {
        assert e in list[1..];
      }
    }
  }

  lemma {:induction false} HistoryOneEach(ops: seq<Op>)
    ensures OneEach(History(ops))
  {
    if ops != [] {
      HistoryOneEach(ops[..|ops| - 1]);
      match ops[|ops| - 1]
      case Enrol(key, expiry) =>
        WithoutKeepsOneEach(History(ops[..|ops| - 1]), ToAid(key));
        WithoutMembers(History(ops[..|ops| - 1]), ToAid(key));
      case Status(_) =>
    }
  }

  lemma {:induction false} HistoryIgnoresStatus(ops: seq<Op>)
    ensures History(EnrolmentsOf(ops)) == History(ops)
  {
    if ops != [] {
      var before := ops[..|ops| - 1];
      HistoryIgnoresStatus(before);
      if ops[|ops| - 1].Enrol? {
        assert (EnrolmentsOf(before) + [ops[|ops| - 1]])[..|EnrolmentsOf(before)|] == EnrolmentsOf(before);
      }
    }
  }

  lemma {:induction false} WithoutAppend(a: seq<Entry>, b: seq<Entry>, aid: string)
    ensures Without(a + b, aid) == Without(a, aid) + Without(b, aid)
  {
    hide ToAid;
    if a == [] {
      assert a + b == b;
    } else {
      assert (a + b)[1..] == a[1..] + b;
      WithoutAppend(a[1..], b, aid);
    }
  }

  lemma {:induction false} OthersDiffer(list: seq<Entry>, p: nat)
    requires OneEach(list) && p < |list|
    ensures forall e :: e in list[..p] || e in list[p + 1..] ==> ToAid(e.key) != ToAid(list[p].key)
  {
    hide ToAid;
  }

  lemma {:induction false} WithoutUnique(list: seq<Entry>, p: nat)
    requires OneEach(list) && p < |list|
    ensures Without(list, ToAid(list[p].key)) == list[..p] + list[p + 1..]
  {
    OthersDiffer(list, p);
    SplitAround(list, p);
    WithoutTheOnly(list[..p], list[p], list[p + 1..]);
  }

  lemma {:induction false} WithoutTheOnly(before: seq<Entry>, e: Entry, after: seq<Entry>)
    requires forall x :: x in before || x in after ==> ToAid(x.key) != ToAid(e.key)
    ensures Without(before + ([e] + after), ToAid(e.key)) == before + after
  {
    hide ToAid;
    WithoutAppend(before, [e] + after, ToAid(e.key));
    WithoutAbsent(before, ToAid(e.key));
    WithoutAbsent(after, ToAid(e.key));
    assert ([e] + after)[1..] == after;
  }

  lemma {:induction false} WithoutLosesAtMostOne(list: seq<Entry>, aid: string)
    requires OneEach(list)
    ensures |list| <= |Without(list, aid)| + 1
  {
    hide ToAid;
    if p :| 0 <= p < |list| && ToAid(list[p].key) == aid {
      WithoutUnique(list, p);
    } else {
      WithoutAbsent(list, aid);
    }
  }

  lemma {:induction false} OneEachLastN(h: seq<Entry>, n: nat)
    requires OneEach(h)
    ensures OneEach(LastN(h, n))
  {
  }

  lemma {:induction false} LastNAppend(a: seq<Entry>, b: seq<Entry>, n: nat)
    requires n <= |b|
    ensures LastN(a + b, n) == LastN(b, n)
  {
  }

  /** Cutting to the last `cap` before or after an enrolment makes no difference. */
  lemma {:induction false} LastNCommutes(cap: nat, h: seq<Entry>, key: RawKey, expiry: Timestamp)
    requires OneEach(h) && 1 <= cap
    ensures Enrolled(cap, LastN(h, cap), key, expiry) == LastN(Without(h, ToAid(key)) + [Entry(key, expiry)], cap)
  {
    var aid, e := ToAid(key), [Entry(key, expiry)];
    if |h| > cap {
      SplitLastN(h, cap);
      var lost, kept := h[..|h| - cap], LastN(h, cap);
      WithoutAppend(lost, kept, aid);
      OneEachLastN(h, cap);
      WithoutLosesAtMostOne(kept, aid);
      LastNAppend(Without(lost, aid), Without(kept, aid) + e, cap);
      Regroup(Without(lost, aid), Without(kept, aid), e);
    }
  }

  // ---------------------------------------------------------------- what a run leaves

  /** A fresh run of enrolments alone leaves exactly the last `cap` distinct keys enrolled, in order. */
  lemma {:induction false} EnrolmentsKeepTheLastCap(cap: nat, ops: seq<Op>)
    requires 1 <= cap && FreshRun(cap, ops) && forall op :: op in ops ==> op.Enrol?
    ensures var st := Run(cap, ops); Recency(st.keys, st.order) == LastN(History(ops), cap)
  {
    if ops != [] {
      var before := ops[..|ops| - 1];
      EnrolmentsKeepTheLastCap(cap, before);
      FreshRunBounded(cap, before);
      assert ops[|ops| - 1] in ops;
      var Enrol(key, expiry) := ops[|ops| - 1];
      FreshInsertRefinesRecency(cap, Run(cap, before), key, expiry);
      HistoryOneEach(before);
      LastNCommutes(cap, History(before), key, expiry);
    }
  }

  /** Every status call of the run happens no later than `clock`. */
  ghost predicate ByClock(ops: seq<Op>, clock: Timestamp) {
    forall op :: op in ops && op.Status? ==> op.now <= clock
  }

  lemma {:induction false} EnrolledSublist(cap: nat, r: seq<Entry>, h: seq<Entry>, key: RawKey, expiry: Timestamp)
    requires Sublist(r, h) && |r| <= cap && 1 <= cap
    ensures Sublist(Enrolled(cap, r, key, expiry), Without(h, ToAid(key)) + [Entry(key, expiry)])
  {
    hide ToAid;
    var grown := Without(r, ToAid(key)) + [Entry(key, expiry)];
    SublistWithout(r, h, ToAid(key));
    SublistSnoc(Without(r, ToAid(key)), Without(h, ToAid(key)), Entry(key, expiry));
    if |grown| > cap {
      SublistSkip(grown, Without(h, ToAid(key)) + [Entry(key, expiry)]);
    }
  }

  /** With status calls in between, what is left is an ordered part of the history ... */
  lemma {:induction false} RunIsASublist(cap: nat, ops: seq<Op>)
    requires 1 <= cap && FreshRun(cap, ops)
    ensures var st := Run(cap, ops); Sublist(Recency(st.keys, st.order), History(ops))
  {
    hide ToAid;
    if ops != [] {
      var before := ops[..|ops| - 1];
      RunIsASublist(cap, before);
      FreshRunBounded(cap, before);
      var st := Run(cap, before);
      var r := Recency(st.keys, st.order);
      match ops[|ops| - 1]
      case Enrol(key, expiry) =>
        FreshInsertRefinesRecency(cap, st, key, expiry);
        RecencySize(st);
        EnrolledSublist(cap, r, History(before), key, expiry);
      case Status(now) =>
        PruneRefinesUnexpired(st, now);
        SublistUnexpired(r, History(ops), now);
    }
  }

  lemma {:induction false} InLastNWithout(h: seq<Entry>, aid: string, n: nat, e: Entry)
    requires OneEach(h) && e in LastN(Without(h, aid), n)
    ensures e in LastN(h, n + 1) && ToAid(e.key) != aid
  {
    hide ToAid, Without, OneEach;
    WithoutMembers(h, aid);
    assert e in Without(h, aid);
    if p :| 0 <= p < |h| && ToAid(h[p].key) == aid {
      WithoutUnique(h, p);
      LastOfTheRest(h, p, n, e);
    } else {
      WithoutAbsent(h, aid);
    }
  }

  lemma {:induction false} LastOfTheRest(h: seq<Entry>, p: nat, n: nat, e: Entry)
    requires p < |h| && e in LastN(h[..p] + h[p + 1..], n)
    ensures e in LastN(h, n + 1)
  {
    var w := h[..p] + h[p + 1..];
    var k :| 0 <= k < |w| && k >= |w| - n && w[k] == e;
    assert if k < p then h[k] == e else h[k + 1] == e;
  }

  /** ... that still holds every unexpired key among the last `cap`. */
  lemma {:induction false} StatusKeepsTheUnexpired(cap: nat, ops: seq<Op>, clock: Timestamp, e: Entry)
    requires 1 <= cap && FreshRun(cap, ops) && ByClock(ops, clock)
    requires e in LastN(History(ops), cap) && !InThePast(e.expiry, clock)
    ensures var st := Run(cap, ops); e in Recency(st.keys, st.order)
  {
    hide ToAid;
    if ops != [] {
      var before := ops[..|ops| - 1];
      assert forall op :: op in before ==> op in ops;
      FreshRunBounded(cap, before);
      var st := Run(cap, before);
      var r := Recency(st.keys, st.order);
      match ops[|ops| - 1]
      case Enrol(key, expiry) =>
        FreshInsertRefinesRecency(cap, st, key, expiry);
        RecencySize(st);
        RunIsASublist(cap, before);
        HistoryOneEach(before);
        HistoryOneEach(ops);
        if e != Entry(key, expiry) {
          LastNSnoc(Without(History(before), ToAid(key)), Entry(key, expiry), cap, e);
          InLastNWithout(History(before), ToAid(key), cap - 1, e);
          StatusKeepsTheUnexpired(cap, before, clock, e);
        }
        SurvivesEnrolment(cap, r, History(before), key, expiry, e);
      case Status(now) =>
        PruneRefinesUnexpired(st, now);
        UnexpiredMembers(r, now);
        StatusKeepsTheUnexpired(cap, before, clock, e);
        assert ops[|ops| - 1] in ops;
    }
  }

  /** An entry among the last `cap` of the history is not the one an ordered part of it evicts. */
  lemma {:induction false} SurvivesEnrolment(cap: nat, r: seq<Entry>, h: seq<Entry>, key: RawKey, expiry: Timestamp,
                                             e: Entry)
    requires 1 <= cap && |r| <= cap && Sublist(r, h)
    requires var h' := Without(h, ToAid(key)) + [Entry(key, expiry)]; OneEach(h') && e in LastN(h', cap)
    requires e == Entry(key, expiry) || (e in r && ToAid(e.key) != ToAid(key))
    ensures e in Enrolled(cap, r, key, expiry)
  {
    hide ToAid;
    var grown := Without(r, ToAid(key)) + [Entry(key, expiry)];
    var h' := Without(h, ToAid(key)) + [Entry(key, expiry)];
    assert e in grown by {
      WithoutMembers(r, ToAid(key));
      if e != Entry(key, expiry) { assert e in Without(r, ToAid(key)); } else { assert grown[|grown| - 1] == e; }
    }
    if |grown| > cap {
      SublistWithout(r, h, ToAid(key));
      SublistSnoc(Without(r, ToAid(key)), Without(h, ToAid(key)), Entry(key, expiry));
      OneEachIsDistinct(h');
      SublistHeadIsOld(grown, h');
      hide Without;
      assert grown == [grown[0]] + grown[1..];
    }
  }

  lemma {:induction false} OneEachIsDistinct(list: seq<Entry>)
    requires OneEach(list)
    ensures Distinct(list)
  {
  }

  lemma {:induction false} LastNSnoc(h: seq<Entry>, x: Entry, n: nat, e: Entry)
    requires 1 <= n && e in LastN(h + [x], n) && e != x
    ensures e in LastN(h, n - 1)
  {
    var s := h + [x];
    var k :| 0 <= k < |s| && k >= |s| - n && s[k] == e;
    assert h[k] == e;
  }

  lemma {:induction false} TrustedIsListed(st: Enrolment, key: RawKey, now: Timestamp)
    requires Tracked(st) && IsKey(key)
    ensures Trusted(st, key, now) <==>
      exists e :: e in Recency(st.keys, st.order) && e.key == key && !InThePast(e.expiry, now)
  {
    RecencyHoldsTheKeys(st.keys, st.order);
    if Trusted(st, key, now) {
      assert st.keys[ToAid(key)] in Recency(st.keys, st.order);
    }
  }

  /**
   Two runs. Adding status calls, at times up to `now`, to a run of enrolments
   never makes a key untrusted at `now` that the run without them trusts, even
   though pruning changes which keys later enrolments evict.
   */
  lemma {:induction false} StatusNeverUntrusts(cap: nat, ops: seq<Op>, key: RawKey, now: Timestamp)
    requires 1 <= cap && IsKey(key)
    requires FreshRun(cap, ops) && FreshRun(cap, EnrolmentsOf(ops)) && ByClock(ops, now)
    requires Trusted(Run(cap, EnrolmentsOf(ops)), key, now)
    ensures Trusted(Run(cap, ops), key, now)
  {
    var plain := Run(cap, EnrolmentsOf(ops));
    var st := Run(cap, ops);
    FreshRunBounded(cap, EnrolmentsOf(ops));
    FreshRunBounded(cap, ops);
    TrustedIsListed(plain, key, now);
    var e :| e in Recency(plain.keys, plain.order) && e.key == key && !InThePast(e.expiry, now);
    EnrolmentsKeepTheLastCap(cap, EnrolmentsOf(ops));
    HistoryIgnoresStatus(ops);
    StatusKeepsTheUnexpired(cap, ops, now, e);
    TrustedIsListed(st, key, now);
  }

  /**
   One way of never repeating a mark: an operator whose lifetime is fixed and
   who never enrols one AID twice in a second. Then the run is fresh however
   status calls are mixed in.
   */
  lemma {:induction false} DistinctEnrolmentsAreFresh(cap: nat, ops: seq<Op>)
    requires 1 <= cap && WellKeyed(ops)
    requires forall i, j :: 0 <= i < j < |ops| && ops[i].Enrol? ==> ops[i] != ops[j]
    ensures FreshRun(cap, ops)
    ensures forall m :: m in Run(cap, ops).order ==>
      exists i :: 0 <= i < |ops| && ops[i].Enrol? && m == Mark(ToAid(ops[i].key), ops[i].expiry)
  {
    if ops != [] {
      var n := |ops| - 1;
      var before := ops[..n];
      assert forall op :: op in before ==> op in ops;
      DistinctEnrolmentsAreFresh(cap, before);
      match ops[n]
      case Enrol(key, expiry) =>
        assert ops[n] in ops;
        if Mark(ToAid(key), expiry) in Run(cap, before).order {
          var i :| 0 <= i < n && before[i].Enrol?
            && Mark(ToAid(key), expiry) == Mark(ToAid(before[i].key), before[i].expiry);
          assert before[i] in ops;
          CanonicalRoundTrip(key);
          CanonicalRoundTrip(before[i].key);
          assert false;
        }
        InsertedMarks(cap, Run(cap, before), key, expiry);
        forall m | m in Run(cap, ops).order
          ensures exists i :: 0 <= i < |ops| && ops[i].Enrol? && m == Mark(ToAid(ops[i].key), ops[i].expiry)
        {
          if m in Run(cap, before).order {
            var i :| 0 <= i < n && before[i].Enrol? && m == Mark(ToAid(before[i].key), before[i].expiry);
            assert ops[i] == before[i];
          }
        }
      case Status(now) =>
        forall m | m in Run(cap, ops).order
          ensures exists i :: 0 <= i < |ops| && ops[i].Enrol? && m == Mark(ToAid(ops[i].key), ops[i].expiry)
        {
          assert m in Run(cap, before).order;
          var i :| 0 <= i < n && before[i].Enrol? && m == Mark(ToAid(before[i].key), before[i].expiry);
          assert ops[i] == before[i];
        }
    }
  }

  lemma {:induction false} EvictedMarks(cap: nat, st: Enrolment)
    ensures forall m :: m in Evicted(cap, st).order ==> m in st.order
    decreases |st.order|
  {
    if |st.keys| > cap && st.order != [] {
      EvictedMarks(cap, Popped(st));
      assert forall m :: m in Popped(st).order ==> m in st.order;
    }
  }

  lemma {:induction false} InsertedMarks(cap: nat, st: Enrolment, key: RawKey, expiry: Timestamp)
    ensures forall m :: m in Inserted(cap, st, key, expiry).order ==> m in st.order || m == Mark(ToAid(key), expiry)
  {
    var evicted := Evicted(cap, Pushed(st, key, expiry));
    EvictedMarks(cap, Pushed(st, key, expiry));
    RetainedMembers(evicted.keys, evicted.order);
  }

  // ---------------------------------------------------------------- where it fails

  /** `key` and `expiry` enrolled `n` times over. */
  function Repeats(key: RawKey, expiry: Timestamp, n: nat): (ops: seq<Op>)
    ensures |ops| == n
  {
    seq(n, i => Enrol(key, expiry))
  }

  /**
   Re-enrolling one AID with one expiry grows the queue without bound: every
   mark passes the "not superseded" test, so compaction removes none.
   */
  lemma {:induction false} RepeatsGrowTheQueue(cap: nat, key: RawKey, expiry: Timestamp, n: nat)
    requires 1 <= cap
    ensures var st := Run(cap, Repeats(key, expiry, n)); var m := Mark(ToAid(key), expiry);
      && |st.order| == n && (forall i :: 0 <= i < n ==> st.order[i] == m)
      && st.keys == if n == 0 then map[] else map[ToAid(key) := Entry(key, expiry)]
  {
    if n > 0 {
      var ops := Repeats(key, expiry, n);
      assert ops[..n - 1] == Repeats(key, expiry, n - 1);
      RepeatsGrowTheQueue(cap, key, expiry, n - 1);
      var p := Pushed(Run(cap, ops[..n - 1]), key, expiry);
      assert p.keys == map[ToAid(key) := Entry(key, expiry)];
      AllRetained(p.keys, p.order);
    }
  }

  lemma {:induction false} AllRetained(keys: map<string, Entry>, order: seq<Mark>)
    requires forall m :: m in order ==> Matches(keys, m)
    ensures Retained(keys, order) == order
  {
    if order != [] {
      AllRetained(keys, order[1..]);
    }
  }

  /**
   Two failures inside one second of a peer with room for one key. After `a`
   enrols twice, `b` once and `a` again, all with one expiry, the last
   enrolment of `a` evicts itself: it finds its own superseded twin first.
   */
  lemma {:induction false} RepeatEvictsTheNewKey(a: RawKey, b: RawKey, expiry: Timestamp)
    requires IsKey(a) && IsKey(b) && a != b
    ensures var st := Run(1, Repeats(a, expiry, 2) + [Enrol(b, expiry)] + [Enrol(a, expiry)]);
      !Trusted(st, a, expiry) && Trusted(st, b, expiry)
  {
    var ops := Repeats(a, expiry, 2);
    RepeatsGrowTheQueue(1, a, expiry, 2);
    SelfEviction(a, b, Run(1, ops), expiry);
    RunSnoc(1, ops, Enrol(b, expiry));
    RunSnoc(1, ops + [Enrol(b, expiry)], Enrol(a, expiry));
  }

  lemma {:induction false} SelfEviction(a: RawKey, b: RawKey, two: Enrolment, expiry: Timestamp)
    requires IsKey(a) && IsKey(b) && a != b
    requires two.keys == map[ToAid(a) := Entry(a, expiry)]
    requires |two.order| == 2 && two.order[0] == two.order[1] == Mark(ToAid(a), expiry)
    ensures var st := Inserted(1, Inserted(1, two, b, expiry), a, expiry);
      st.keys == map[ToAid(b) := Entry(b, expiry)] && ToAid(a) != ToAid(b)
  {
    CanonicalRoundTrip(a);
    CanonicalRoundTrip(b);
    EvictTheOlderTwin(two, ToAid(a), ToAid(b), b, expiry);
    var three := Inserted(1, two, b, expiry);
    KeepTheOther(Entry(a, expiry), Entry(b, expiry), ToAid(a), ToAid(b));
    EvictTheOlderTwin(three, ToAid(a), ToAid(b), a, expiry);
  }

  lemma {:induction false} KeepTheOther(ea: Entry, eb: Entry, a: string, b: string)
    requires a != b
    ensures map[a := ea][b := eb] - {a} == map[b := eb] == map[b := eb][a := ea] - {a}
  {
  }

  lemma {:induction false} RunSnoc(cap: nat, ops: seq<Op>, op: Op)
    ensures Run(cap, ops + [op]) == Step(cap, Run(cap, ops), op)
  {
    assert (ops + [op])[..|ops|] == ops;
  }

  /** With room for one key, a matching mark at the front of the queue goes and takes its key along. */
  lemma {:induction false} EvictTheOlderTwin(st: Enrolment, gone: string, kept: string, key: RawKey, expiry: Timestamp)
    requires gone != kept && |st.order| == 2 && st.order[0] == Mark(gone, expiry)
    requires st.keys.Keys + {ToAid(key)} == {gone, kept}
    requires gone in st.keys ==> st.keys[gone].expiry == expiry
    ensures Inserted(1, st, key, expiry) ==
            Enrolment(st.keys[ToAid(key) := Entry(key, expiry)] - {gone}, [st.order[1], Mark(ToAid(key), expiry)])
  {
    hide ToAid;
    var p := Pushed(st, key, expiry);
    assert p.keys.Keys == {gone, kept};
    assert |p.keys| == 2;
    assert (p.keys - {gone}).Keys == {kept};
    assert |p.keys - {gone}| == 1;
    assert p.order[1..] == [st.order[1], Mark(ToAid(key), expiry)];
    assert Evicted(1, p) == Popped(p);
  }
}
