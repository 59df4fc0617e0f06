/**
 The interop peer's pinned-key store: a bounded map of enrolled keys and a
 recency queue that is cleaned lazily.

 The queue may hold marks superseded by a re-enrolment, and marks of keys that
 a status call has pruned. `Recency` reads the intended list out of that state:
 the enrolled keys, least recently enrolled first.
 */
module EnrolledKeys {
  import opened Basics
  import opened Aids

  datatype Entry = Entry(key: RawKey, expiry: Timestamp)

  /** One queue element: a canonical AID and the expiry it was enrolled with. */
  datatype Mark = Mark(aid: string, at: Timestamp)

  datatype Enrolment = Enrolment(keys: map<string, Entry>, order: seq<Mark>)

  const EMPTY := Enrolment(map[], [])

  // ---------------------------------------------------------------- steps

  /** The code's test for "not superseded": the key is enrolled with this very expiry. */
  predicate Matches(keys: map<string, Entry>, m: Mark) {
    m.aid in keys && keys[m.aid].expiry == m.at
  }

  function Pushed(st: Enrolment, key: RawKey, expiry: Timestamp): Enrolment {
    Enrolment(st.keys[ToAid(key) := Entry(key, expiry)], st.order + [Mark(ToAid(key), expiry)])
  }

  function Popped(st: Enrolment): Enrolment
    requires st.order != []
  {
    var m := st.order[0];
    Enrolment(if Matches(st.keys, m) then st.keys - {m.aid} else st.keys, st.order[1..])
  }

  function Evicted(cap: nat, st: Enrolment): Enrolment
    decreases |st.order|
  {
    if |st.keys| <= cap || st.order == [] then st else Evicted(cap, Popped(st))
  }

  function Retained(keys: map<string, Entry>, order: seq<Mark>): seq<Mark> {
    if order == [] then []
    else if Matches(keys, order[0]) then [order[0]] + Retained(keys, order[1..])
    else Retained(keys, order[1..])
  }

  function Compacted(cap: nat, st: Enrolment): Enrolment {
    if |st.order| > 2 * cap then st.(order := Retained(st.keys, st.order)) else st
  }

  function Inserted(cap: nat, st: Enrolment, key: RawKey, expiry: Timestamp): Enrolment {
    Compacted(cap, Evicted(cap, Pushed(st, key, expiry)))
  }

  /** What a status call leaves: expired keys go, their marks stay. */
  function Pruned(st: Enrolment, now: Timestamp): Enrolment {
    st.(keys := map a | a in st.keys && !InThePast(st.keys[a].expiry, now) :: st.keys[a])
  }

  predicate Trusted(st: Enrolment, key: RawKey, now: Timestamp) {
    var aid := ToAid(key);
    aid in st.keys && st.keys[aid].key == key && !InThePast(st.keys[aid].expiry, now)
  }

  // ---------------------------------------------------------------- the intended list

  predicate Mentions(order: seq<Mark>, aid: string) {
    order != [] && (order[0].aid == aid || Mentions(order[1..], aid))
  }

  /** The enrolled keys by the position of their last mark, oldest first. */
  function Recency(keys: map<string, Entry>, order: seq<Mark>): seq<Entry> {
    if order == [] then []
    else if order[0].aid in keys && !Mentions(order[1..], order[0].aid) then
      [keys[order[0].aid]] + Recency(keys, order[1..])
    else
      Recency(keys, order[1..])
  }

  function Without(list: seq<Entry>, aid: string): (r: seq<Entry>)
    ensures |r| <= |list|
  {
    if list == [] then []
    else if ToAid(list[0].key) == aid then Without(list[1..], aid)
    else [list[0]] + Without(list[1..], aid)
  }

  /** The specification of an enrolment: the key moves to the end, and past `cap` the oldest goes. */
  function Enrolled(cap: nat, list: seq<Entry>, key: RawKey, expiry: Timestamp): seq<Entry> {
    LastN(Without(list, ToAid(key)) + [Entry(key, expiry)], cap)
  }

  function Unexpired(list: seq<Entry>, now: Timestamp): seq<Entry> {
    if list == [] then []
    else if InThePast(list[0].expiry, now) then Unexpired(list[1..], now)
    else [list[0]] + Unexpired(list[1..], now)
  }

  lemma {:induction false} RetainedMembers(keys: map<string, Entry>, order: seq<Mark>)
    ensures forall m :: m in Retained(keys, order) ==> m in order && Matches(keys, m)
  {
    if order != [] {
      RetainedMembers(keys, order[1..]);
      assert order == [order[0]] + order[1..];
    }
  }

  lemma {:induction false} WithoutMembers(list: seq<Entry>, aid: string)
    ensures forall e :: e in Without(list, aid) <==> e in list && ToAid(e.key) != aid
  {
    hide ToAid;
    if list != [] {
      WithoutMembers(list[1..], aid);
      assert list == [list[0]] + list[1..];
    }
  }

  lemma {:induction false} UnexpiredMembers(list: seq<Entry>, now: Timestamp)
    ensures forall e :: e in Unexpired(list, now) <==> e in list && !InThePast(e.expiry, now)
  {
    if list != [] {
      UnexpiredMembers(list[1..], now);
      assert list == [list[0]] + list[1..];
    }
  }

  // ---------------------------------------------------------------- the invariant

  /** The last mark of every enrolled key carries its current expiry. */
  ghost predicate LastMarkMatches(keys: map<string, Entry>, order: seq<Mark>) {
    order != [] ==>
      && (order[0].aid in keys && !Mentions(order[1..], order[0].aid) ==> Matches(keys, order[0]))
      && LastMarkMatches(keys, order[1..])
  }

  ghost predicate Canonical(keys: map<string, Entry>) {
    forall a :: a in keys ==> IsKey(keys[a].key) && ToAid(keys[a].key) == a
  }

  ghost predicate AllMentioned(keys: map<string, Entry>, order: seq<Mark>) {
    forall a :: a in keys ==> Mentions(order, a)
  }

  /** Holds in every reachable state, whatever expiries are used. */
  ghost predicate Tracked(st: Enrolment) {
    Canonical(st.keys) && AllMentioned(st.keys, st.order) && LastMarkMatches(st.keys, st.order)
  }

  /** The key the eviction loop removes: that of the first mark that passes the test. */
  function Victim(keys: map<string, Entry>, order: seq<Mark>): Option<string> {
    if order == [] then None
    else if Matches(keys, order[0]) then Some(order[0].aid)
    else Victim(keys, order[1..])
  }

  // ---------------------------------------------------------------- facts about the queue

  lemma {:induction false} MentionsAppend(a: seq<Mark>, b: seq<Mark>, aid: string)
    ensures Mentions(a + b, aid) <==> Mentions(a, aid) || Mentions(b, aid)
  {
    if a == [] {
      assert a + b == b;
    } else {
      assert (a + b)[1..] == a[1..] + b;
      MentionsAppend(a[1..], b, aid);
    }
  }

  lemma {:induction false} MentionsIndex(order: seq<Mark>, aid: string)
    ensures Mentions(order, aid) <==> exists i :: 0 <= i < |order| && order[i].aid == aid
  {
    if order != [] {
      MentionsIndex(order[1..], aid);
      if i :| 0 <= i < |order| && order[i].aid == aid {
        if i > 0 {
          assert order[1..][i - 1].aid == aid;
        }
      }
      if Mentions(order[1..], aid) {
        var i :| 0 <= i < |order[1..]| && order[1..][i].aid == aid;
        assert order[i + 1].aid == aid;
      }
    }
  }

  /** Pushing moves the key to the end of the intended list. */
  lemma {:induction false} PushMovesToEnd(keys: map<string, Entry>, order: seq<Mark>, e: Entry)
    requires Canonical(keys)
    ensures var a := ToAid(e.key);
      Recency(keys[a := e], order + [Mark(a, e.expiry)]) == Without(Recency(keys, order), a) + [e]
  {
    hide ToAid;
    var a := ToAid(e.key);
    var m := Mark(a, e.expiry);
    if order == [] {
      assert order + [m] == [m];
      assert Recency(keys[a := e], [m][1..]) == [];
    } else {
      assert (order + [m])[1..] == order[1..] + [m];
      PushMovesToEnd(keys, order[1..], e);
      MentionsAppend(order[1..], [m], order[0].aid);
      var rest := Recency(keys, order[1..]);
      if order[0].aid in keys && !Mentions(order[1..], order[0].aid) {
        assert ([keys[order[0].aid]] + rest)[1..] == rest;
      }
    }
  }

  lemma {:induction false} PushKeepsLastMarks(keys: map<string, Entry>, order: seq<Mark>, e: Entry)
    requires LastMarkMatches(keys, order)
    ensures var a := ToAid(e.key); LastMarkMatches(keys[a := e], order + [Mark(a, e.expiry)])
  {
    var m := Mark(ToAid(e.key), e.expiry);
    if order == [] {
      assert order + [m] == [m];
    } else {
      assert (order + [m])[1..] == order[1..] + [m];
      PushKeepsLastMarks(keys, order[1..], e);
      MentionsAppend(order[1..], [m], order[0].aid);
    }
  }

  /** Dropping a key from the map drops it from the intended list and disturbs nothing else. */
  lemma {:induction false} DropKey(keys: map<string, Entry>, order: seq<Mark>, a: string)
    requires Canonical(keys) && LastMarkMatches(keys, order)
    ensures Recency(keys - {a}, order) == Without(Recency(keys, order), a)
    ensures LastMarkMatches(keys - {a}, order)
  {
    hide ToAid;
    if order != [] {
      DropKey(keys, order[1..], a);
      var rest := Recency(keys, order[1..]);
      if order[0].aid in keys && !Mentions(order[1..], order[0].aid) {
        assert ([keys[order[0].aid]] + rest)[1..] == rest;
      }
    }
  }

  lemma {:induction false} KeepSome(keys: map<string, Entry>, order: seq<Mark>, now: Timestamp)
    requires Canonical(keys) && LastMarkMatches(keys, order)
    ensures var kept := Pruned(Enrolment(keys, order), now).keys;
      Recency(kept, order) == Unexpired(Recency(keys, order), now) && LastMarkMatches(kept, order)
  {
    hide ToAid;
    if order != [] {
      KeepSome(keys, order[1..], now);
      var rest := Recency(keys, order[1..]);
      if order[0].aid in keys && !Mentions(order[1..], order[0].aid) {
        assert ([keys[order[0].aid]] + rest)[1..] == rest;
      }
    }
  }

  /** Compaction keeps every last mark, so it changes neither the list nor the invariant. */
  lemma {:induction false} RetainKeepsRecency(keys: map<string, Entry>, order: seq<Mark>)
    requires LastMarkMatches(keys, order)
    ensures Recency(keys, Retained(keys, order)) == Recency(keys, order)
    ensures LastMarkMatches(keys, Retained(keys, order))
    ensures forall a :: a in keys ==> (Mentions(Retained(keys, order), a) <==> Mentions(order, a))
  {
    if order != [] {
      RetainKeepsRecency(keys, order[1..]);
      var rest := Retained(keys, order[1..]);
      if Matches(keys, order[0]) {
        assert ([order[0]] + rest)[1..] == rest;
      } else {
        assert [] + rest == rest;
      }
    }
  }

  /** The intended list holds exactly the enrolled keys, each once. */
  lemma {:induction false} RecencyHoldsTheKeys(keys: map<string, Entry>, order: seq<Mark>)
    requires Canonical(keys)
    ensures forall e :: e in Recency(keys, order) <==>
      ToAid(e.key) in keys && keys[ToAid(e.key)] == e && Mentions(order, ToAid(e.key))
    ensures forall i, j :: 0 <= i < j < |Recency(keys, order)| ==>
      ToAid(Recency(keys, order)[i].key) != ToAid(Recency(keys, order)[j].key)
  {
    hide ToAid;
    if order != [] {
      RecencyHoldsTheKeys(keys, order[1..]);
    }
  }

  lemma {:induction false} RecencySize(st: Enrolment)
    requires Canonical(st.keys) && AllMentioned(st.keys, st.order)
    ensures |Recency(st.keys, st.order)| == |st.keys|
  {
    RecencyHoldsTheKeys(st.keys, st.order);
    var list := Recency(st.keys, st.order);
    SameSize(list, st.keys.Keys);
  }

  lemma {:induction false} SameSize(list: seq<Entry>, aids: set<string>)
    requires forall i, j :: 0 <= i < j < |list| ==> ToAid(list[i].key) != ToAid(list[j].key)
    requires forall e :: e in list ==> ToAid(e.key) in aids
    requires forall a :: a in aids ==> exists e :: e in list && ToAid(e.key) == a
    ensures |list| == |aids|
  {
    hide ToAid;
    if list == [] {
      assert aids == {};
    } else {
      var a := ToAid(list[0].key);
      forall b | b in aids - {a}
        ensures exists e :: e in list[1..] && ToAid(e.key) == b
      {
        var e :| e in list && ToAid(e.key) == b;
        assert e in list[1..];
      }
      SameSize(list[1..], aids - {a});
    }
  }

  // ---------------------------------------------------------------- eviction

  /** One key over the cap: the loop removes exactly the victim, and never runs out of marks. */
  lemma {:induction false} EvictionDropsTheVictim(cap: nat, st: Enrolment)
    requires Tracked(st) && |st.keys| == cap + 1
    ensures var v := Victim(st.keys, st.order); var after := Evicted(cap, st);
      && v.Some? && v.value in st.keys
      && after.keys == st.keys - {v.value} && |after.keys| == cap
      && Recency(after.keys, after.order) == Without(Recency(st.keys, st.order), v.value)
      && Tracked(after)
    decreases |st.order|
  {
    hide ToAid;
    NonEmptyQueue(st);
    PopStep(st);
    if Matches(st.keys, st.order[0]) {
      RemoveOne(st.keys, st.order[0].aid);
    } else {
      EvictionDropsTheVictim(cap, Popped(st));
    }
  }

  lemma {:induction false} NonEmptyQueue(st: Enrolment)
    requires AllMentioned(st.keys, st.order) && st.keys != map[]
    ensures st.order != []
  {
    var a :| a in st.keys;
    assert Mentions(st.order, a);
  }

  lemma {:induction false} RemoveOne(keys: map<string, Entry>, a: string)
    requires a in keys
    ensures |keys - {a}| == |keys| - 1
  {
    assert (keys - {a}).Keys == keys.Keys - {a};
  }

  /** One pop keeps the invariant and drops from the list just the key it removes, if any. */
  lemma {:induction false} PopStep(st: Enrolment)
    requires Tracked(st) && st.order != []
    ensures Tracked(Popped(st))
    ensures Recency(Popped(st).keys, Popped(st).order) ==
      if Matches(st.keys, st.order[0]) then Without(Recency(st.keys, st.order), st.order[0].aid)
      else Recency(st.keys, st.order)
  {
    var m := st.order[0];
    if Matches(st.keys, m) {
      DropKey(st.keys, st.order[1..], m.aid);
      var rest := Recency(st.keys, st.order[1..]);
      if !Mentions(st.order[1..], m.aid) {
        assert ([st.keys[m.aid]] + rest)[1..] == rest;
      }
    }
  }

  lemma {:induction false} SomeVictim(st: Enrolment)
    requires Tracked(st) && st.keys != map[]
    ensures Victim(st.keys, st.order).Some?
    decreases |st.order|
  {
    NonEmptyQueue(st);
    if !Matches(st.keys, st.order[0]) {
      PopStep(st);
      SomeVictim(Popped(st));
    }
  }

  lemma {:induction false} PushedTracked(st: Enrolment, key: RawKey, expiry: Timestamp)
    requires Tracked(st) && IsKey(key)
    ensures Tracked(Pushed(st, key, expiry))
    ensures |Pushed(st, key, expiry).keys| == |st.keys| + (if ToAid(key) in st.keys then 0 else 1)
  {
    PushKeepsLastMarks(st.keys, st.order, Entry(key, expiry));
    var next := Pushed(st, key, expiry);
    assert next.keys.Keys == st.keys.Keys + {ToAid(key)};
    forall a | a in next.keys
      ensures Mentions(next.order, a)
    {
      MentionsAppend(st.order, [Mark(ToAid(key), expiry)], a);
      assert [Mark(ToAid(key), expiry)][0].aid == ToAid(key);
    }
  }

  /**
   What an enrolment does to the intended list, for any expiries at all: it
   moves the key to the end and, over the cap, drops the victim.
   */
  lemma {:induction false} InsertDropsTheVictim(cap: nat, st: Enrolment, key: RawKey, expiry: Timestamp)
    requires Tracked(st) && IsKey(key) && 1 <= cap && |st.keys| <= cap
    ensures var p := Pushed(st, key, expiry); var after := Inserted(cap, st, key, expiry);
      var list := Without(Recency(st.keys, st.order), ToAid(key)) + [Entry(key, expiry)];
      && Tracked(after) && |after.keys| <= cap
      && Recency(p.keys, p.order) == list
      && Recency(after.keys, after.order) ==
           (match Victim(p.keys, p.order)
            case Some(v) => if |list| <= cap then list else Without(list, v)
            case None => list)
      && Victim(p.keys, p.order).Some?
  {
    var p := Pushed(st, key, expiry);
    PushedTracked(st, key, expiry);
    PushMovesToEnd(st.keys, st.order, Entry(key, expiry));
    RecencySize(p);
    var evicted := Evicted(cap, p);
    assert p.keys != map[];
    SomeVictim(p);
    if |p.keys| > cap {
      EvictionDropsTheVictim(cap, p);
    }
    RetainKeepsRecency(evicted.keys, evicted.order);
  }

  // ---------------------------------------------------------------- when it is "least recently enrolled"

  /** The position of the oldest final mark: the head of the intended list. */
  lemma {:induction false} OldestFinalMark(keys: map<string, Entry>, order: seq<Mark>) returns (f: nat)
    requires Recency(keys, order) != []
    ensures f < |order| && order[f].aid in keys && !Mentions(order[f + 1..], order[f].aid)
    ensures Recency(keys, order)[0] == keys[order[f].aid]
    ensures forall g :: 0 <= g < f && order[g].aid in keys ==> Mentions(order[g + 1..], order[g].aid)
  {
    if order[0].aid in keys && !Mentions(order[1..], order[0].aid) {
      f := 0;
    } else {
      var f' := OldestFinalMark(keys, order[1..]);
      f := f' + 1;
      assert order[f + 1..] == order[1..][f' + 1..];
      forall g | 0 <= g < f && order[g].aid in keys
        ensures Mentions(order[g + 1..], order[g].aid)
      {
        if g > 0 {
          assert order[1..][g - 1] == order[g];
          assert order[g + 1..] == order[1..][(g - 1) + 1..];
        }
      }
    }
  }

  lemma {:induction false} VictimIndex(keys: map<string, Entry>, order: seq<Mark>) returns (i: nat)
    requires Victim(keys, order).Some?
    ensures i < |order| && Matches(keys, order[i]) && Victim(keys, order).value == order[i].aid
    ensures forall g :: 0 <= g < i ==> !Matches(keys, order[g])
  {
    if Matches(keys, order[0]) {
      i := 0;
    } else {
      var i' := VictimIndex(keys, order[1..]);
      i := i' + 1;
      forall g | 0 <= g < i
        ensures !Matches(keys, order[g])
      {
        if g > 0 {
          assert order[1..][g - 1] == order[g];
        }
      }
    }
  }

  lemma {:induction false} LastMarkAt(keys: map<string, Entry>, order: seq<Mark>, i: nat)
    requires LastMarkMatches(keys, order) && i < |order|
    requires order[i].aid in keys && !Mentions(order[i + 1..], order[i].aid)
    ensures Matches(keys, order[i])
  {
    if i > 0 {
      assert order[1..][i - 1] == order[i];
      assert order[i + 1..] == order[1..][(i - 1) + 1..];
      LastMarkAt(keys, order[1..], i - 1);
    }
  }

  /** The last position at which an AID is mentioned. */
  lemma {:induction false} FinalMention(order: seq<Mark>, aid: string) returns (k: nat)
    requires Mentions(order, aid)
    ensures k < |order| && order[k].aid == aid && !Mentions(order[k + 1..], aid)
  {
    if Mentions(order[1..], aid) {
      var k' := FinalMention(order[1..], aid);
      k := k' + 1;
      assert order[k + 1..] == order[1..][k' + 1..];
    } else {
      k := 0;
    }
  }

  /**
   The one way the loop evicts the wrong key. The first mark to pass the test
   occurs again later, and between the two lies the last mark of another key.
   */
  ghost predicate Overtaken(keys: map<string, Entry>, order: seq<Mark>) {
    exists i, j, k ::
      && 0 <= i < j < k < |order|
      && FirstMatch(keys, order, i)
      && order[k] == order[i]
      && order[j].aid != order[i].aid && FinalMark(keys, order, j)
  }

  ghost predicate FirstMatch(keys: map<string, Entry>, order: seq<Mark>, i: int)
    requires 0 <= i < |order|
  {
    Matches(keys, order[i]) && forall g :: 0 <= g < i ==> !Matches(keys, order[g])
  }

  ghost predicate FinalMark(keys: map<string, Entry>, order: seq<Mark>, j: int)
    requires 0 <= j < |order|
  {
    order[j].aid in keys && !Mentions(order[j + 1..], order[j].aid)
  }

  lemma {:induction false} LaterMention(order: seq<Mark>, j: nat, k: nat)
    requires j < k < |order|
    ensures Mentions(order[j + 1..], order[k].aid)
  {
    MentionsIndex(order[j + 1..], order[k].aid);
    assert order[j + 1..][k - j - 1] == order[k];
  }

  /** The loop's victim is the least recently enrolled key exactly when it is not overtaken. */
  lemma {:induction false} VictimIsOldest(st: Enrolment)
    requires Tracked(st) && st.keys != map[]
    ensures Recency(st.keys, st.order) != [] && Victim(st.keys, st.order).Some?
    ensures Victim(st.keys, st.order).value == ToAid(Recency(st.keys, st.order)[0].key)
            <==> !Overtaken(st.keys, st.order)
  {
    hide ToAid, Mentions, Recency, Victim, LastMarkMatches;
    var keys, order := st.keys, st.order;
    RecencySize(st);
    var f := OldestFinalMark(keys, order);
    LastMarkAt(keys, order, f);
    SomeMatchMakesVictim(keys, order, f);
    var i := VictimIndex(keys, order);
    assert FirstMatch(keys, order, i);
    var v := order[i].aid;
    MentionsIndex(order, v);
    var k := FinalMention(order, v);
    LastMarkAt(keys, order, k);
    assert order[k] == order[i];
    assert FinalMark(keys, order, f);
    if v != order[f].aid {
      assert Overtaken(keys, order);
    } else {
      OldestIsNotOvertaken(keys, order, f, i);
    }
  }

  lemma {:induction false} OldestIsNotOvertaken(keys: map<string, Entry>, order: seq<Mark>, f: nat, i: nat)
    requires i < |order| && FirstMatch(keys, order, i)
    requires f < |order| && FinalMark(keys, order, f) && order[i].aid == order[f].aid
    requires forall g :: 0 <= g < f && order[g].aid in keys ==> Mentions(order[g + 1..], order[g].aid)
    ensures !Overtaken(keys, order)
  {
    hide Mentions;
    forall j, k | 0 <= i < j < k < |order| && order[k] == order[i] && order[j].aid != order[i].aid
      ensures !FinalMark(keys, order, j)
    {
      if f < k {
        LaterMention(order, f, k);
      }
    }
  }

  lemma {:induction false} SomeMatchMakesVictim(keys: map<string, Entry>, order: seq<Mark>, i: nat)
    requires i < |order| && Matches(keys, order[i])
    ensures Victim(keys, order).Some?
  {
    if i > 0 && !Matches(keys, order[0]) {
      assert order[1..][i - 1] == order[i];
      SomeMatchMakesVictim(keys, order[1..], i - 1);
    }
  }

  lemma {:induction false} WithoutHead(list: seq<Entry>)
    requires list != []
    requires forall i, j :: 0 <= i < j < |list| ==> ToAid(list[i].key) != ToAid(list[j].key)
    ensures Without(list, ToAid(list[0].key)) == list[1..]
  {
    hide ToAid;
    WithoutAbsent(list[1..], ToAid(list[0].key));
  }

  lemma {:induction false} WithoutAbsent(list: seq<Entry>, aid: string)
    requires forall e :: e in list ==> ToAid(e.key) != aid
    ensures Without(list, aid) == list
  {
    hide ToAid;
    if list != [] {
      WithoutAbsent(list[1..], aid);
    }
  }

  lemma {:induction false} WithoutIsTail(list: seq<Entry>, aid: string)
    requires list != []
    requires forall i, j :: 0 <= i < j < |list| ==> ToAid(list[i].key) != ToAid(list[j].key)
    ensures Without(list, aid) == list[1..] <==> aid == ToAid(list[0].key)
  {
    hide ToAid;
    WithoutHead(list);
    WithoutMembers(list, aid);
    if aid != ToAid(list[0].key) {
      assert list[0] in Without(list, aid);
    }
  }

  /**
   The exact condition under which an enrolment is "move to the end, evict the
   least recently enrolled": the cap is not exceeded, or the oldest mark that
   passes the test has not been overtaken.
   */
  lemma {:induction false} InsertIsLeastRecentlyEnrolled(cap: nat, st: Enrolment, key: RawKey, expiry: Timestamp)
    requires Tracked(st) && IsKey(key) && 1 <= cap && |st.keys| <= cap
    ensures var p := Pushed(st, key, expiry); var after := Inserted(cap, st, key, expiry);
      Recency(after.keys, after.order) == Enrolled(cap, Recency(st.keys, st.order), key, expiry)
      <==> |p.keys| <= cap || !Overtaken(p.keys, p.order)
  {
    var p := Pushed(st, key, expiry);
    var list := Recency(p.keys, p.order);
    InsertDropsTheVictim(cap, st, key, expiry);
    PushedTracked(st, key, expiry);
    RecencySize(p);
    if |p.keys| > cap {
      OverflowIsTail(cap, p);
    }
  }

  lemma {:induction false} OverflowIsTail(cap: nat, p: Enrolment)
    requires Tracked(p) && |p.keys| == cap + 1
    ensures Victim(p.keys, p.order).Some?
    ensures var list := Recency(p.keys, p.order);
      |list| == cap + 1 &&
      (Without(list, Victim(p.keys, p.order).value) == LastN(list, cap) <==> !Overtaken(p.keys, p.order))
  {
    var list := Recency(p.keys, p.order);
    RecencySize(p);
    VictimIsOldest(p);
    RecencyHoldsTheKeys(p.keys, p.order);
    WithoutIsTail(list, Victim(p.keys, p.order).value);
    assert LastN(list, cap) == list[1..];
  }

  /** Marks that never repeat are never overtaken: the precondition callers can rely on. */
  lemma {:induction false} DistinctMarksAreNotOvertaken(keys: map<string, Entry>, order: seq<Mark>)
    requires Distinct(order)
    ensures !Overtaken(keys, order)
  {
  }

  lemma {:induction false} RetainedDistinct(keys: map<string, Entry>, order: seq<Mark>)
    requires Distinct(order)
    ensures Distinct(Retained(keys, order))
    ensures |Retained(keys, order)| <= |keys|
  {
    RetainedKeepsDistinct(keys, order);
    RetainedMembers(keys, order);
    var r := Retained(keys, order);
    forall i, j | 0 <= i < j < |r|
      ensures r[i].aid != r[j].aid
    {
      assert r[i] in r && r[j] in r;
      assert Matches(keys, r[i]) && Matches(keys, r[j]);
    }
    AtMostOneEach(r, keys.Keys);
  }

  lemma {:induction false} RetainedKeepsDistinct(keys: map<string, Entry>, order: seq<Mark>)
    requires Distinct(order)
    ensures Distinct(Retained(keys, order))
  {
    if order != [] {
      assert Distinct(order[1..]);
      RetainedKeepsDistinct(keys, order[1..]);
      RetainedMembers(keys, order[1..]);
      assert order[0] !in order[1..];
    }
  }

  lemma {:induction false} AtMostOneEach(r: seq<Mark>, aids: set<string>)
    requires forall i, j :: 0 <= i < j < |r| ==> r[i].aid != r[j].aid
    requires forall m :: m in r ==> m.aid in aids
    ensures |r| <= |aids|
  {
    if r != [] {
      forall m | m in r[1..]
        ensures m.aid in aids - {r[0].aid}
      {
        assert m in r;
      }
      AtMostOneEach(r[1..], aids - {r[0].aid});
    }
  }

  lemma {:induction false} EvictedKeepsDistinct(cap: nat, st: Enrolment)
    requires Distinct(st.order)
    ensures Distinct(Evicted(cap, st).order)
    ensures forall m :: m in Evicted(cap, st).order ==> m in st.order
    decreases |st.order|
  {
    if |st.keys| > cap && st.order != [] {
      assert Distinct(Popped(st).order);
      EvictedKeepsDistinct(cap, Popped(st));
      assert forall m :: m in Popped(st).order ==> m in st.order;
    }
  }

  /**
   Under the precondition that this AID is not already queued with this expiry,
   an enrolment refines the recency list, always keeps the new key, and leaves
   a queue of distinct marks no longer than twice the cap.
   */
  lemma {:induction false} FreshInsertRefinesRecency(cap: nat, st: Enrolment, key: RawKey, expiry: Timestamp)
    requires Tracked(st) && IsKey(key) && 1 <= cap && |st.keys| <= cap
    requires Distinct(st.order) && Mark(ToAid(key), expiry) !in st.order
    ensures var after := Inserted(cap, st, key, expiry);
      && Recency(after.keys, after.order) == Enrolled(cap, Recency(st.keys, st.order), key, expiry)
      && ToAid(key) in after.keys && after.keys[ToAid(key)] == Entry(key, expiry)
      && Tracked(after) && |after.keys| <= cap
      && Distinct(after.order) && |after.order| <= 2 * cap
  {
    var p := Pushed(st, key, expiry);
    DistinctSnoc(st.order, Mark(ToAid(key), expiry));
    DistinctMarksAreNotOvertaken(p.keys, p.order);
    InsertIsLeastRecentlyEnrolled(cap, st, key, expiry);
    InsertDropsTheVictim(cap, st, key, expiry);
    var evicted := Evicted(cap, p);
    EvictedKeepsDistinct(cap, p);
    RetainedDistinct(evicted.keys, evicted.order);
    NewKeyKept(cap, Recency(st.keys, st.order), Inserted(cap, st, key, expiry), key, expiry);
  }

  lemma {:induction false} NewKeyKept(cap: nat, list: seq<Entry>, after: Enrolment, key: RawKey, expiry: Timestamp)
    requires Canonical(after.keys) && 1 <= cap
    requires Recency(after.keys, after.order) == Enrolled(cap, list, key, expiry)
    ensures ToAid(key) in after.keys && after.keys[ToAid(key)] == Entry(key, expiry)
  {
    hide ToAid;
    RecencyHoldsTheKeys(after.keys, after.order);
    var grown := Enrolled(cap, list, key, expiry);
    assert grown[|grown| - 1] == Entry(key, expiry);
    assert Entry(key, expiry) in grown;
  }

  // ---------------------------------------------------------------- exactly when repeats hurt

  /** No mark the loop pops passes the test against the keys it leaves. */
  lemma {:induction false} PoppedMarksAreStale(cap: nat, st: Enrolment)
    ensures var after := Evicted(cap, st);
      && Retained(after.keys, after.order) == Retained(after.keys, st.order)
      && forall a :: a in after.keys ==> a in st.keys && after.keys[a] == st.keys[a]
    decreases |st.order|
  {
    if |st.keys| > cap && st.order != [] {
      PoppedMarksAreStale(cap, Popped(st));
    }
  }

  /** The keys an enrolment leaves: all, or all but the victim. */
  function Staying(cap: nat, p: Enrolment): map<string, Entry>
    requires |p.keys| > cap ==> Victim(p.keys, p.order).Some?
  {
    if |p.keys| <= cap then p.keys else p.keys - {Victim(p.keys, p.order).value}
  }

  /**
   The queue outgrows twice the cap exactly when more than that many of the marks queued, the new
   one included, carry the current expiry of a key that stays.
   */
  lemma {:induction false} OutgrowsExactlyWhen(cap: nat, st: Enrolment, key: RawKey, expiry: Timestamp)
    requires Tracked(st) && IsKey(key) && 1 <= cap && |st.keys| <= cap
    ensures var p := Pushed(st, key, expiry);
      && (|p.keys| > cap ==> Victim(p.keys, p.order).Some?)
      && (|Inserted(cap, st, key, expiry).order| > 2 * cap <==> |Retained(Staying(cap, p), p.order)| > 2 * cap)
  {
    var p := Pushed(st, key, expiry);
    var evicted := Evicted(cap, p);
    PushedTracked(st, key, expiry);
    if |p.keys| > cap {
      EvictionDropsTheVictim(cap, p);
    }
    assert evicted.keys == Staying(cap, p);
    hide Evicted, Retained, Victim;
    PoppedMarksAreStale(cap, p);
    RetainedIsNoLonger(evicted.keys, evicted.order);
  }

  lemma {:induction false} RetainedIsNoLonger(keys: map<string, Entry>, order: seq<Mark>)
    ensures |Retained(keys, order)| <= |order|
  {
    if order != [] {
      RetainedIsNoLonger(keys, order[1..]);
    }
  }

  /** A mark like the new one is already queued, and nothing before it passes the test. */
  ghost predicate HasTwinInFront(st: Enrolment, twin: Mark) {
    exists i :: 0 <= i < |st.order| && st.order[i] == twin && forall g :: 0 <= g < i ==> !Matches(st.keys, st.order[g])
  }

  /**
   An enrolment loses its own new key exactly when the store is full, the key is not in it, and
   an earlier mark like its own is the first the loop would act on.
   */
  lemma {:induction false} LosesTheNewKeyExactlyWhen(cap: nat, st: Enrolment, key: RawKey, expiry: Timestamp)
    requires Tracked(st) && IsKey(key) && 1 <= cap && |st.keys| <= cap
    ensures ToAid(key) !in Inserted(cap, st, key, expiry).keys <==>
      |st.keys| == cap && ToAid(key) !in st.keys && HasTwinInFront(st, Mark(ToAid(key), expiry))
  {
    hide ToAid, Retained, Recency, Victim, Tracked, HasTwinInFront;
    var p := Pushed(st, key, expiry);
    PushedTracked(st, key, expiry);
    if |p.keys| > cap {
      EvictionDropsTheVictim(cap, p);
      VictimIsTheTwinExactlyWhen(st, key, expiry);
    }
  }

  lemma {:induction false} VictimIsTheTwinExactlyWhen(st: Enrolment, key: RawKey, expiry: Timestamp)
    requires Tracked(st) && IsKey(key) && st.keys != map[] && ToAid(key) !in st.keys
    requires var p := Pushed(st, key, expiry); Victim(p.keys, p.order).Some?
    ensures var p := Pushed(st, key, expiry);
      Victim(p.keys, p.order) == Some(ToAid(key)) <==> HasTwinInFront(st, Mark(ToAid(key), expiry))
  {
    hide ToAid, Victim, LastMarkMatches;
    var p, twin := Pushed(st, key, expiry), Mark(ToAid(key), expiry);
    var i := VictimIndex(p.keys, p.order);
    SomeVictim(st);
    var k := VictimIndex(st.keys, st.order);
    assert Matches(p.keys, p.order[k]);
    assert i <= k < |st.order|;
    assert forall g :: 0 <= g < |st.order| ==>
             (Matches(p.keys, p.order[g]) <==> Matches(st.keys, st.order[g]) || st.order[g] == twin);
    if HasTwinInFront(st, twin) {
      var f :| 0 <= f < |st.order| && st.order[f] == twin && forall g :: 0 <= g < f ==> !Matches(st.keys, st.order[g]);
      assert Matches(p.keys, p.order[f]);
      assert i <= f;
      assert p.order[i] == twin;
    }
  }

  /** A status call refines "drop the expired ones", and its count is the list's length. */
  lemma {:induction false} PruneRefinesUnexpired(st: Enrolment, now: Timestamp)
    requires Tracked(st)
    ensures var after := Pruned(st, now);
      && Tracked(after) && after.order == st.order
      && Recency(after.keys, after.order) == Unexpired(Recency(st.keys, st.order), now)
      && |after.keys| == |Unexpired(Recency(st.keys, st.order), now)|
      && |after.keys| <= |st.keys|
  {
    KeepSome(st.keys, st.order, now);
    RecencySize(Pruned(st, now));
    assert Pruned(st, now).keys.Keys <= st.keys.Keys;
    SubsetIsNoLarger(Pruned(st, now).keys.Keys, st.keys.Keys);
  }

  /**
   With repeats allowed but expiries never going backwards (one lifetime, a
   clock that does not run back), the evicted key still expires no later than
   any key that stays.
   */
  lemma {:induction false} EvictsTheSoonestToExpire(cap: nat, st: Enrolment, key: RawKey, expiry: Timestamp,
                                                    kept: string)
    requires Tracked(st) && IsKey(key) && 1 <= cap && |st.keys| <= cap
    requires forall i, j :: 0 <= i < j < |st.order| ==> st.order[i].at <= st.order[j].at
    requires forall m :: m in st.order ==> m.at <= expiry
    requires kept in Inserted(cap, st, key, expiry).keys
    ensures var p := Pushed(st, key, expiry); var after := Inserted(cap, st, key, expiry);
      forall gone :: gone in p.keys && gone !in after.keys ==> p.keys[gone].expiry <= after.keys[kept].expiry
  {
    hide ToAid;
    var p := Pushed(st, key, expiry);
    PushedTracked(st, key, expiry);
    if |p.keys| > cap {
      EvictionDropsTheVictim(cap, p);
      VictimExpiresFirst(p, kept);
    }
  }

  lemma {:induction false} VictimExpiresFirst(p: Enrolment, kept: string)
    requires Tracked(p) && kept in p.keys && Victim(p.keys, p.order).Some?
    requires forall i, j :: 0 <= i < j < |p.order| ==> p.order[i].at <= p.order[j].at
    ensures var v := Victim(p.keys, p.order).value;
      v in p.keys && p.keys[v].expiry <= p.keys[kept].expiry
  {
    hide ToAid;
    var i := VictimIndex(p.keys, p.order);
    var k := FinalMention(p.order, kept);
    LastMarkAt(p.keys, p.order, k);
  }

  // ---------------------------------------------------------------- the store

  class Store {
    const cap: nat
    var keys: map<string, Entry>
    var order: seq<Mark>

    ghost predicate Valid()
      reads this
    {
      1 <= cap && Tracked(State()) && |keys| <= cap
    }

    ghost function State(): Enrolment
      reads this
    {
      Enrolment(keys, order)
    }

    /** The enrolled keys, least recently enrolled first. */
    ghost function List(): seq<Entry>
      reads this
    {
      Recency(keys, order)
    }

    constructor (cap: nat)
      ensures Valid() && List() == [] && order == []
      ensures this.cap == if cap == 0 then 1 else cap
    {
      this.cap := if cap == 0 then 1 else cap;
      keys, order := map[], [];
    }

    method Insert(key: RawKey, expiresAt: Timestamp)
      requires Valid() && IsKey(key)
      modifies this
      ensures Valid()
      ensures State() == Inserted(cap, old(State()), key, expiresAt)
      ensures old(Distinct(order) && Mark(ToAid(key), expiresAt) !in order) ==>
        && List() == Enrolled(cap, old(List()), key, expiresAt)
        && Trusted(State(), key, expiresAt)
        && Distinct(order) && |order| <= 2 * cap
    {
      var aid := ToAid(key);
      keys := keys[aid := Entry(key, expiresAt)];
      order := order + [Mark(aid, expiresAt)];
      PushedTracked(old(State()), key, expiresAt);
      while |keys| > cap
        invariant Tracked(State())
        invariant Evicted(cap, State()) == Evicted(cap, Pushed(old(State()), key, expiresAt))
        decreases |order|
      {
        NonEmptyQueue(State());
        PopStep(State());
        var oldest := order[0];
        order := order[1..];
        // An entry superseded by a later enrolment is skipped.
        if Matches(keys, oldest) {
          keys := keys - {oldest.aid};
        }
      }
      if |order| > 2 * cap {
        order := Retained(keys, order);
      }
      InsertDropsTheVictim(cap, old(State()), key, expiresAt);
      if old(Distinct(order) && Mark(ToAid(key), expiresAt) !in order) {
        FreshInsertRefinesRecency(cap, old(State()), key, expiresAt);
      }
    }

    method Len(now: Timestamp) returns (n: nat)
      requires Valid()
      modifies this
      ensures Valid() && order == old(order)
      ensures State() == Pruned(old(State()), now)
      ensures List() == Unexpired(old(List()), now) && n == |List()|
    {
      PruneRefinesUnexpired(State(), now);
      keys := map a | a in keys && !InThePast(keys[a].expiry, now) :: keys[a];
      n := |keys|;
    }

    method IsTrusted(key: RawKey, now: Timestamp) returns (trusted: bool)
      requires Valid() && IsKey(key)
      ensures trusted == Trusted(State(), key, now)
      ensures trusted <==> exists e :: e in List() && e.key == key && !InThePast(e.expiry, now)
    {
      var aid := ToAid(key);
      trusted := aid in keys && keys[aid].key == key && !InThePast(keys[aid].expiry, now);
      RecencyHoldsTheKeys(keys, order);
      if trusted {
        assert keys[aid] in List();
      }
    }
  }
}
