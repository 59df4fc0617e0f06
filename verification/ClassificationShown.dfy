/**
 Which of the types that prefer one path the table can show, over all orders of items inside
 modules; and so exactly when the table does not depend on that order.
 */
module ClassificationShown {
  import opened Ordering
  import opened Classification
  import opened ClassificationOrder

  // ---------------------------------------------------------------- what a walk meets

  /** Some route from `m` that opens none of `seen` ends at the type. */
  ghost predicate Yields(doc: Doc, m: Id, seen: set<Id>, id: Id) {
    exists route, names :: Reaches(doc, m, [], seen, route, Record(id, names))
  }

  ghost predicate ChildYields(doc: Doc, child: Id, seen: set<Id>, id: Id) {
    match Follow(doc, child)
    case Nothing => false
    case Type(t, _) => t == id
    case Inside(to, _) => Yields(doc, to, seen, id)
  }

  lemma {:induction false} WalkYields(doc: Doc, m: Id, prefix: seq<string>, seen: set<Id>, id: Id)
    requires IsModule(doc, m)
    ensures id in Ids(Walked(doc, m, prefix, seen)) <==> Yields(doc, m, seen, id)
  {
    hide Walked, HasType, Follows;
    if id in Ids(Walked(doc, m, prefix, seen)) {
      var r :| r in Walked(doc, m, prefix, seen) && r.id == id;
      var route := RecordHasRoute(doc, m, prefix, seen, r);
      var name :| EndsAt(doc, m, prefix, route, r, name);
      var names := [] + Parts(route) + [name];
      assert EndsAt(doc, m, [], route, Record(id, names), name);
      assert Reaches(doc, m, [], seen, route, Record(id, names));
    }
    if Yields(doc, m, seen, id) {
      var route, names :| Reaches(doc, m, [], seen, route, Record(id, names));
      var name :| EndsAt(doc, m, [], route, Record(id, names), name);
      var r := Record(id, prefix + Parts(route) + [name]);
      assert EndsAt(doc, m, prefix, route, r, name);
      RouteIsRecorded(doc, m, prefix, seen, route, r);
    }
  }

  lemma {:induction false} ItemYields(doc: Doc, child: Id, prefix: seq<string>, seen: set<Id>, id: Id)
    ensures id in Ids(WalkedItem(doc, child, prefix, seen)) <==> ChildYields(doc, child, seen, id)
  {
    hide Walked, WalkedItem, Yields, Follow;
    ItemWalked(doc, child, prefix, seen);
    match Follow(doc, child)
    case Nothing =>
    case Type(t, name) =>
      assert Record(t, prefix + [name]) in WalkedItem(doc, child, prefix, seen);
    case Inside(to, part) => WalkYields(doc, to, prefix + part, seen, id);
  }

  lemma {:induction false} YieldsIgnoresOrder(a: Doc, b: Doc, m: Id, seen: set<Id>, id: Id)
    requires Reordered(a, b)
    ensures Yields(a, m, seen, id) <==> Yields(b, m, seen, id)
  {
    hide Reaches, Reordered;
    forall route, names
      ensures Reaches(a, m, [], seen, route, Record(id, names)) <==> Reaches(b, m, [], seen, route, Record(id, names))
    {
      RoutesIgnoreOrder(a, b, m, [], seen, route, Record(id, names));
    }
  }

  lemma {:induction false} ChildYieldsIgnoresOrder(a: Doc, b: Doc, child: Id, seen: set<Id>, id: Id)
    requires Reordered(a, b)
    ensures ChildYields(a, child, seen, id) <==> ChildYields(b, child, seen, id)
  {
    hide Yields, Reordered, Follow;
    LeadsIgnoreOrder(a, b, child);
    if Follow(a, child).Inside? {
      YieldsIgnoresOrder(a, b, Follow(a, child).id, seen, id);
    }
  }

  // ---------------------------------------------------------------- what can be met before

  /** A child of `m` leads to `y` and not to `x`. */
  ghost predicate HasSpareChild(doc: Doc, m: Id, seen: set<Id>, x: Id, y: Id) {
    IsModule(doc, m) && exists child :: child in doc[m].inner.items && IsSpare(doc, child, seen, x, y)
  }

  ghost predicate IsSpare(doc: Doc, child: Id, seen: set<Id>, x: Id, y: Id) {
    ChildYields(doc, child, seen, y) && !ChildYields(doc, child, seen, x)
  }

  /** Some module on the route, when it is open, has a child that leads to `y` and not to `x`. */
  ghost predicate CanPrecede(doc: Doc, m: Id, seen: set<Id>, route: seq<Step>, x: Id, y: Id)
    decreases |route|
  {
    || HasSpareChild(doc, m, seen + {m}, x, y)
    || (route != [] && CanPrecede(doc, route[0].to, seen + {m}, route[1..], x, y))
  }

  lemma {:induction false} CanPrecedeIgnoresOrder(a: Doc, b: Doc, m: Id, seen: set<Id>, route: seq<Step>, x: Id, y: Id)
    requires Reordered(a, b)
    ensures CanPrecede(a, m, seen, route, x, y) <==> CanPrecede(b, m, seen, route, x, y)
    decreases |route|
  {
    forall child
      ensures IsSpare(a, child, seen + {m}, x, y) <==> IsSpare(b, child, seen + {m}, x, y)
    {
      ChildYieldsIgnoresOrder(a, b, child, seen + {m}, x);
      ChildYieldsIgnoresOrder(a, b, child, seen + {m}, y);
    }
    assert m in a ==> SameItem(a[m], b[m]);
    hide IsSpare, ChildYields;
    if route != [] {
      CanPrecedeIgnoresOrder(a, b, route[0].to, seen + {m}, route[1..], x, y);
    }
  }

  // ---------------------------------------------------------------- logs

  /** Record `n` of the log is the first of type `x`. */
  ghost predicate FirstAt(log: seq<Record>, x: Id, n: nat) {
    n < |log| && log[n].id == x && x !in Ids(log[..n])
  }

  lemma {:induction false} IdsOf(a: seq<Record>, b: seq<Record>)
    ensures Ids(a + b) == Ids(a) + Ids(b)
  {
  }

  lemma {:induction false} ItemsAppend(doc: Doc, a: seq<Id>, b: seq<Id>, prefix: seq<string>, seen: set<Id>)
    ensures WalkedItems(doc, a + b, prefix, seen)
         == WalkedItems(doc, a, prefix, seen) + WalkedItems(doc, b, prefix, seen)
  {
    hide WalkedItem;
    if b == [] {
      assert a + b == a;
    } else {
      ItemsAppend(doc, a, b[..|b| - 1], prefix, seen);
      assert (a + b)[..|a + b| - 1] == a + b[..|b| - 1];
    }
  }

  /** The items lead to what some item leads to. */
  lemma {:induction false} ItemsYield(doc: Doc, items: seq<Id>, prefix: seq<string>, seen: set<Id>, id: Id)
    ensures id in Ids(WalkedItems(doc, items, prefix, seen))
      <==> exists child :: child in items && ChildYields(doc, child, seen, id)
  {
    hide WalkedItem, ChildYields;
    if items != [] {
      var front, child := items[..|items| - 1], items[|items| - 1];
      ItemsYield(doc, front, prefix, seen, id);
      ItemYields(doc, child, prefix, seen, id);
      IdsOf(WalkedItems(doc, front, prefix, seen), WalkedItem(doc, child, prefix, seen));
      assert items == front + [child];
    }
  }

  /** The item whose walk makes record `n`, and where in it. */
  lemma {:induction false} ItemAt(doc: Doc, items: seq<Id>, prefix: seq<string>, seen: set<Id>, n: nat)
    returns (k: nat, j: nat)
    requires n < |WalkedItems(doc, items, prefix, seen)|
    ensures k < |items| && n == |WalkedItems(doc, items[..k], prefix, seen)| + j
      && j < |WalkedItem(doc, items[k], prefix, seen)|
    ensures WalkedItems(doc, items, prefix, seen)[..n]
         == WalkedItems(doc, items[..k], prefix, seen) + WalkedItem(doc, items[k], prefix, seen)[..j]
    ensures WalkedItems(doc, items, prefix, seen)[n] == WalkedItem(doc, items[k], prefix, seen)[j]
  {
    hide WalkedItem;
    var front := items[..|items| - 1];
    var before := WalkedItems(doc, front, prefix, seen);
    if n >= |before| {
      k, j := |items| - 1, n - |before|;
    } else {
      k, j := ItemAt(doc, front, prefix, seen, n);
      assert front[..k] == items[..k];
    }
  }

  // ---------------------------------------------------------------- a route for every first meeting

  /** What a walk meets before it first meets `x` could precede `x` on the route it took there. */
  lemma {:induction false} FirstMeetingHasRoute(doc: Doc, m: Id, prefix: seq<string>, seen: set<Id>, x: Id, n: nat)
    returns (route: seq<Step>, r: Record)
    requires IsModule(doc, m) && FirstAt(Walked(doc, m, prefix, seen), x, n)
    ensures r.id == x && Reaches(doc, m, prefix, seen, route, r)
    ensures forall y :: y in Ids(Walked(doc, m, prefix, seen)[..n]) ==> CanPrecede(doc, m, seen, route, x, y)
    decreases Unseen(doc, seen)
  {
    var log := Walked(doc, m, prefix, seen);
    r := log[n];
    assert m !in seen;
    SeeingOne(doc, seen, m);
    ModuleWalked(doc, m, prefix, seen);
    var items, open := doc[m].inner.items, seen + {m};
    hide Walked, WalkedItems, WalkedItem, Reaches, ChildYields, Follow, Unseen;
    var k, j := ItemAt(doc, items, prefix, open, n);
    var child := items[k];
    var before, own := WalkedItems(doc, items[..k], prefix, open), WalkedItem(doc, child, prefix, open);
    IdsOf(before, own[..j]);
    ItemWalked(doc, child, prefix, open);
    var lead := Follow(doc, child);
    if lead.Type? {
      route := OwnTypeRoute(doc, m, prefix, seen, child, lead.name, r);
    } else {
      var rest: seq<Step>, last: Record := FirstMeetingHasRoute(doc, lead.id, prefix + lead.part, open, x, j);
      r := last;
      route := [Step(lead.id, lead.part)] + rest;
      assert CanStep(doc, m, Step(lead.id, lead.part));
      LongerRoute(doc, m, prefix, seen, Step(lead.id, lead.part), rest, r);
      assert route[1..] == rest && route[0].to == lead.id;
    }
    forall y | y in Ids(log[..n])
      ensures CanPrecede(doc, m, seen, route, x, y)
    {
      if y in Ids(before) {
        SpareBefore(doc, m, prefix, open, k, x, y);
      } else {
        assert y in Ids(own[..j]);
        if lead.Type? {
          assert false;
        }
      }
    }
  }

  lemma {:induction false} OwnTypeRoute(doc: Doc, m: Id, prefix: seq<string>, seen: set<Id>, child: Id, name: string,
                                        r: Record)
    returns (route: seq<Step>)
    requires IsModule(doc, m) && m !in seen && child in doc[m].inner.items && Follow(doc, child) == Type(r.id, name)
    requires r.names == prefix + [name]
    ensures route == [] && Reaches(doc, m, prefix, seen, route, r)
  {
    hide Follow;
    route := [];
    assert HasType(doc, m, r.id, name);
    assert EndsAt(doc, m, prefix, route, r, name);
  }

  lemma {:induction false} SpareBefore(doc: Doc, m: Id, prefix: seq<string>, open: set<Id>, k: nat, x: Id, y: Id)
    requires IsModule(doc, m) && k < |doc[m].inner.items|
    requires var before := WalkedItems(doc, doc[m].inner.items[..k], prefix, open);
      y in Ids(before) && x !in Ids(before)
    ensures HasSpareChild(doc, m, open, x, y)
  {
    hide WalkedItems, ChildYields;
    var items := doc[m].inner.items;
    ItemsYield(doc, items[..k], prefix, open, x);
    ItemsYield(doc, items[..k], prefix, open, y);
    var child :| child in items[..k] && ChildYields(doc, child, open, y);
    assert child in items && IsSpare(doc, child, open, x, y);
  }

  // ---------------------------------------------------------------- an order for every route

  ghost function Chosen(items: seq<Id>, keep: set<Id>): seq<Id> {
    if items == [] then [] else (if items[0] in keep then [items[0]] else []) + Chosen(items[1..], keep)
  }

  lemma {:induction false} ChosenMember(items: seq<Id>, keep: set<Id>, c: Id)
    ensures c in Chosen(items, keep) <==> c in items && c in keep
  {
    if items != [] {
      ChosenMember(items[1..], keep, c);
    }
  }

  lemma {:induction false} ChosenBags(items: seq<Id>, keep: set<Id>, others: set<Id>)
    requires forall c :: c in items ==> (c in keep <==> c !in others)
    ensures multiset(Chosen(items, keep)) + multiset(Chosen(items, others)) == multiset(items)
  {
    if items != [] {
      ChosenBags(items[1..], keep, others);
      assert items == [items[0]] + items[1..];
      assert items[0] in items;
    }
  }

  /** In `items` the child at `f` leads this way, and exactly the children that do not lead to `x` stand before it. */
  ghost predicate SparesFirst(doc: Doc, m: Id, items: seq<Id>, f: nat, open: set<Id>, x: Id, lead: Lead)
    requires IsModule(doc, m)
  {
    && f < |items| && Follow(doc, items[f]) == lead
    && (forall c :: c in items[..f] <==> c in doc[m].inner.items && !ChildYields(doc, c, open, x))
  }

  /** The children that do not lead to `x`, and those that do but for one. */
  lemma {:induction false} Partition(doc: Doc, items: seq<Id>, open: set<Id>, x: Id, child: Id)
    returns (front: seq<Id>, back: seq<Id>)
    requires child in items && ChildYields(doc, child, open, x)
    ensures multiset(front + [child] + back) == multiset(items)
    ensures forall c :: c in front <==> c in items && !ChildYields(doc, c, open, x)
  {
    hide ChildYields, Chosen;
    var spare := set c | c in items && !ChildYields(doc, c, open, x);
    var others := set c | c in items && ChildYields(doc, c, open, x);
    front := Chosen(items, spare);
    var rest := Chosen(items, others);
    ChosenMember(items, others, child);
    ChosenBags(items, spare, others);
    var i :| 0 <= i < |rest| && rest[i] == child;
    SameBag(front, rest, i);
    back := Without(rest, i);
    forall c
      ensures c in front <==> c in items && !ChildYields(doc, c, open, x)
    {
      ChosenMember(items, spare, c);
    }
  }

  /** Puts the children that do not lead to `x` first, and then one that leads this way. */
  lemma {:induction false} PutSparesFirst(doc: Doc, m: Id, open: set<Id>, x: Id, child: Id) returns (d: Doc, f: nat)
    requires IsModule(doc, m) && child in doc[m].inner.items && ChildYields(doc, child, open, x)
    ensures Permuted(doc, d) && IsModule(d, m) && forall k :: k in doc && k != m ==> d[k] == doc[k]
    ensures SparesFirst(doc, m, d[m].inner.items, f, open, x, Follow(doc, child))
  {
    hide ChildYields, Follow, Permuted;
    var front, back := Partition(doc, doc[m].inner.items, open, x, child);
    var now := front + [child] + back;
    f := |front|;
    assert now[..f] == front && now[f] == child;
    d := WithItems(doc, m, now);
  }

  lemma {:induction false} SameBag(front: seq<Id>, back: seq<Id>, i: nat)
    requires i < |back|
    ensures multiset(front + [back[i]] + Without(back, i)) == multiset(front) + multiset(back)
  {
    RemoveOne(back, i);
  }

  lemma {:induction false} WithItems(doc: Doc, m: Id, items: seq<Id>) returns (d: Doc)
    requires IsModule(doc, m) && multiset(items) == multiset(doc[m].inner.items)
    ensures Permuted(doc, d) && IsModule(d, m) && d[m].inner.items == items
      && forall k :: k in doc && k != m ==> d[k] == doc[k]
  {
    d := doc[m := doc[m].(inner := Module(items))];
  }

  /** A module's walk, cut at one of its children. */
  lemma {:induction false} WalkSplit(d: Doc, m: Id, prefix: seq<string>, seen: set<Id>, f: nat)
    requires IsModule(d, m) && m !in seen && f < |d[m].inner.items|
    ensures var items, open := d[m].inner.items, seen + {m};
      Walked(d, m, prefix, seen) == WalkedItems(d, items[..f], prefix, open) + WalkedItem(d, items[f], prefix, open)
                                    + WalkedItems(d, items[f + 1..], prefix, open)
  {
    var items, open := d[m].inner.items, seen + {m};
    ModuleWalked(d, m, prefix, seen);
    hide Walked, WalkedItems, WalkedItem;
    assert items == items[..f] + [items[f]] + items[f + 1..];
    ItemsAppend(d, items[..f] + [items[f]], items[f + 1..], prefix, open);
    ItemsAppend(d, items[..f], [items[f]], prefix, open);
    OneChild(d, items[f], prefix, open);
  }

  lemma {:induction false} FirstAfter(a: seq<Record>, b: seq<Record>, c: seq<Record>, x: Id, n: nat)
    requires x !in Ids(a) && FirstAt(b, x, n)
    ensures FirstAt(a + b + c, x, |a| + n) && Ids((a + b + c)[..|a| + n]) == Ids(a) + Ids(b[..n])
  {
    assert (a + b + c)[..|a| + n] == a + b[..n];
    IdsOf(a, b[..n]);
  }

  /** The children standing first lead to all that has a spare child, and not to `x`. */
  lemma {:induction false} SparesAreMet(doc: Doc, d: Doc, m: Id, prefix: seq<string>, open: set<Id>, f: nat, x: Id,
                                        lead: Lead)
    requires Permuted(doc, d) && IsModule(doc, m) && IsModule(d, m)
      && SparesFirst(doc, m, d[m].inner.items, f, open, x, lead)
    ensures x !in Ids(WalkedItems(d, d[m].inner.items[..f], prefix, open))
    ensures forall y :: HasSpareChild(doc, m, open, x, y) ==>
      y in Ids(WalkedItems(d, d[m].inner.items[..f], prefix, open))
  {
    hide WalkedItems, ChildYields, Follow, Permuted, Reordered;
    PermutedIsReordered(doc, d);
    var front := d[m].inner.items[..f];
    forall child, id
      ensures ChildYields(doc, child, open, id) <==> ChildYields(d, child, open, id)
    {
      ChildYieldsIgnoresOrder(doc, d, child, open, id);
    }
    ItemsYield(d, front, prefix, open, x);
    forall y | HasSpareChild(doc, m, open, x, y)
      ensures y in Ids(WalkedItems(d, front, prefix, open))
    {
      var child :| child in doc[m].inner.items && IsSpare(doc, child, open, x, y);
      ItemsYield(d, front, prefix, open, y);
    }
  }

  /** The child a route goes by, or the one that is its type. */
  lemma {:induction false} FirstChild(doc: Doc, m: Id, prefix: seq<string>, seen: set<Id>, route: seq<Step>, r: Record)
    returns (child: Id)
    requires IsModule(doc, m) && Reaches(doc, m, prefix, seen, route, r)
    ensures m !in seen && child in doc[m].inner.items && ChildYields(doc, child, seen + {m}, r.id)
    ensures if route == [] then Follow(doc, child).Type? && Follow(doc, child).id == r.id
            else Follow(doc, child) == Inside(route[0].to, route[0].part)
  {
    hide Walked, Follow;
    if route == [] {
      assert Opened(m, route)[0] == m && m in Opened(m, route);
      var name :| EndsAt(doc, m, prefix, route, r, name);
      child :| child in doc[m].inner.items && Follow(doc, child) == Type(r.id, name);
    } else {
      var step, rest := route[0], route[1..];
      assert route == [step] + rest;
      hide Reaches, Yields;
      RouteSteps(doc, m, prefix, seen, step, rest, r);
      RouteIsRecorded(doc, step.to, prefix + step.part, seen + {m}, rest, r);
      WalkYields(doc, step.to, prefix + step.part, seen + {m}, r.id);
      child :| child in doc[m].inner.items && Follow(doc, child) == Inside(step.to, step.part);
    }
  }

  lemma {:induction false} EndHere(doc: Doc, d: Doc, m: Id, prefix: seq<string>, seen: set<Id>, f: nat, x: Id,
                                   lead: Lead)
    returns (n: nat)
    requires Permuted(doc, d) && IsModule(doc, m) && IsModule(d, m) && m !in seen
    requires SparesFirst(doc, m, d[m].inner.items, f, seen + {m}, x, lead) && lead.Type? && lead.id == x
    ensures FirstAt(Walked(d, m, prefix, seen), x, n)
    ensures forall y :: CanPrecede(doc, m, seen, [], x, y) ==> y in Ids(Walked(d, m, prefix, seen)[..n])
  {
    var items, open := d[m].inner.items, seen + {m};
    hide Walked, WalkedItems, WalkedItem, HasSpareChild, Follow;
    SparesAreMet(doc, d, m, prefix, open, f, x, lead);
    WalkSplit(d, m, prefix, seen, f);
    PermutedIsReordered(doc, d);
    LeadsIgnoreOrder(doc, d, items[f]);
    ItemWalked(d, items[f], prefix, open);
    var a, b, c := WalkedItems(d, items[..f], prefix, open), WalkedItem(d, items[f], prefix, open),
                   WalkedItems(d, items[f + 1..], prefix, open);
    assert FirstAt(b, x, 0);
    FirstAfter(a, b, c, x, 0);
    n := |a|;
  }

  /** The module's own order is kept while the rest of the route is put in order. */
  lemma {:induction false} GoOn(doc: Doc, d1: Doc, d: Doc, m: Id, prefix: seq<string>, seen: set<Id>, f: nat,
                                step: Step, rest: seq<Step>, x: Id, more: nat)
    returns (n: nat)
    requires Permuted(doc, d1) && Permuted(d1, d) && IsModule(doc, m) && IsModule(d1, m) && IsModule(d, step.to)
      && m !in seen
    requires SparesFirst(doc, m, d1[m].inner.items, f, seen + {m}, x, Inside(step.to, step.part)) && d[m] == d1[m]
    requires FirstAt(Walked(d, step.to, prefix + step.part, seen + {m}), x, more)
    requires forall y :: CanPrecede(d1, step.to, seen + {m}, rest, x, y) ==>
               y in Ids(Walked(d, step.to, prefix + step.part, seen + {m})[..more])
    ensures IsModule(d, m) && FirstAt(Walked(d, m, prefix, seen), x, n)
    ensures forall y :: CanPrecede(doc, m, seen, [step] + rest, x, y) ==> y in Ids(Walked(d, m, prefix, seen)[..n])
  {
    var items, open := d[m].inner.items, seen + {m};
    hide Walked, WalkedItems, WalkedItem, HasSpareChild, Follow, FirstAt, Permuted, Reordered;
    PermutedTransitive(doc, d1, d);
    PermutedIsReordered(doc, d);
    PermutedIsReordered(doc, d1);
    SparesAreMet(doc, d, m, prefix, open, f, x, Inside(step.to, step.part));
    WalkSplit(d, m, prefix, seen, f);
    LeadsIgnoreOrder(doc, d, items[f]);
    ItemWalked(d, items[f], prefix, open);
    var a, b, c := WalkedItems(d, items[..f], prefix, open), WalkedItem(d, items[f], prefix, open),
                   WalkedItems(d, items[f + 1..], prefix, open);
    FirstAfter(a, b, c, x, more);
    n := |a| + more;
    forall y | CanPrecede(doc, m, seen, [step] + rest, x, y)
      ensures y in Ids(a) + Ids(b[..more])
    {
      assert ([step] + rest)[1..] == rest;
      CanPrecedeIgnoresOrder(doc, d1, step.to, open, rest, x, y);
    }
  }

  /** For every route to `x` some order of items makes the walk meet all that can precede `x` on it first. */
  lemma {:induction false} CanComeAfter(doc: Doc, m: Id, prefix: seq<string>, seen: set<Id>, route: seq<Step>,
                                        r: Record)
    returns (d: Doc, n: nat)
    requires IsModule(doc, m) && Reaches(doc, m, prefix, seen, route, r)
    ensures Permuted(doc, d) && IsModule(d, m) && forall k :: k in doc && k !in Opened(m, route) ==> d[k] == doc[k]
    ensures FirstAt(Walked(d, m, prefix, seen), r.id, n)
    ensures forall y :: CanPrecede(doc, m, seen, route, r.id, y) ==> y in Ids(Walked(d, m, prefix, seen)[..n])
    decreases |route|
  {
    hide *;
    var x := r.id;
    var child := FirstChild(doc, m, prefix, seen, route, r);
    var d1: Doc, f: nat := PutSparesFirst(doc, m, seen + {m}, x, child);
    StartIsOpened(m, route);
    if route == [] {
      d := d1;
      n := EndHere(doc, d, m, prefix, seen, f, x, Follow(doc, child));
    } else {
      var step, rest := route[0], route[1..];
      assert route == [step] + rest;
      RouteSteps(doc, m, prefix, seen, step, rest, r);
      PermutedIsReordered(doc, d1);
      RoutesIgnoreOrder(doc, d1, step.to, prefix + step.part, seen + {m}, rest, r);
      StaysModule(doc, d1, step.to);
      var more: nat;
      d, more := CanComeAfter(d1, step.to, prefix + step.part, seen + {m}, rest, r);
      assert m in d1 && m in doc by { ModuleIsThere(d1, m); ModuleIsThere(doc, m); }
      n := GoOn(doc, d1, d, m, prefix, seen, f, step, rest, x, more);
      PermutedTransitive(doc, d1, d);
      UnchangedElsewhere(doc, d1, d, m, step, rest);
    }
  }

  lemma {:induction false} StartIsOpened(m: Id, route: seq<Step>)
    ensures m in Opened(m, route)
  {
    assert Opened(m, route)[0] == m;
  }

  lemma {:induction false} ModuleIsThere(doc: Doc, m: Id)
    requires IsModule(doc, m)
    ensures m in doc
  {
  }

  lemma {:induction false} StaysModule(a: Doc, b: Doc, m: Id)
    requires Permuted(a, b) && IsModule(a, m)
    ensures IsModule(b, m)
  {
    assert SameButOrder(a[m], b[m]);
  }

  lemma {:induction false} UnchangedElsewhere(doc: Doc, d1: Doc, d: Doc, m: Id, step: Step, rest: seq<Step>)
    requires Permuted(doc, d1) && Permuted(d1, d) && (forall k :: k in doc && k != m ==> d1[k] == doc[k])
    requires forall k :: k in d1 && k !in Opened(step.to, rest) ==> d[k] == d1[k]
    ensures forall k :: k in doc && k !in Opened(m, [step] + rest) ==> d[k] == doc[k]
  {
    OpenedLonger(m, step, rest);
    hide Opened;
    assert m in [m] + Opened(step.to, rest);
    forall k | k in doc && k !in [m] + Opened(step.to, rest)
      ensures d[k] == doc[k]
    {
      assert k !in Opened(step.to, rest) && k != m;
    }
  }

  // ---------------------------------------------------------------- which types the table can show

  /** The types met up to the first record of `x` stand before it in the list of types. */
  lemma {:induction false} FirstMetSplit(log: seq<Record>, x: Id, n: nat) returns (i: nat)
    requires FirstAt(log, x, n)
    ensures i < |FirstMet(log)| && FirstMet(log)[i] == x && FirstMet(log)[..i] == FirstMet(log[..n])
  {
    var front := log[..|log| - 1];
    FirstMetIsEachOnce(front);
    if n == |log| - 1 {
      i := |FirstMet(front)|;
      assert x !in FirstMet(front);
    } else {
      assert front[..n] == log[..n];
      i := FirstMetSplit(front, x, n);
    }
  }

  lemma {:induction false} FirstOf(log: seq<Record>, x: Id) returns (n: nat)
    requires x in Ids(log)
    ensures FirstAt(log, x, n)
  {
    if x in Ids(log[..|log| - 1]) {
      n := FirstOf(log[..|log| - 1], x);
      assert log[..|log| - 1][..n] == log[..n];
    } else {
      assert log == log[..|log| - 1] + [log[|log| - 1]];
      n := |log| - 1;
    }
  }

  /** Every other type at the path of `x` can precede it on this route. */
  ghost predicate AllCanPrecede(doc: Doc, root: Id, route: seq<Step>, x: Id)
    requires IsModule(doc, root) && x in FirstMet(Log(doc, root))
  {
    forall y :: y in FirstMet(Log(doc, root)) && y != x && PathFor(doc, root, y) == PathFor(doc, root, x) ==>
      CanPrecede(doc, root, {}, route, x, y)
  }

  /** Some route to `x` lets all others at its path come first: the table can show `x`. */
  ghost predicate MayBeShown(doc: Doc, root: Id, x: Id)
    requires IsModule(doc, root)
  {
    && x in FirstMet(Log(doc, root))
    && exists route, names ::
       Reaches(doc, root, ["aitp"], {}, route, Record(x, names)) && AllCanPrecede(doc, root, route, x)
  }

  /** The table shows `x` when all others at its path are met before it. */
  lemma {:induction false} LastMetIsShown(doc: Doc, root: Id, x: Id, n: nat)
    requires IsModule(doc, root) && x in FirstMet(Log(doc, root)) && FirstAt(Log(doc, root), x, n)
    requires forall y :: y in FirstMet(Log(doc, root)) && y != x && PathFor(doc, root, y) == PathFor(doc, root, x) ==>
               y in Ids(Log(doc, root)[..n])
    ensures var p := PathFor(doc, root, x); p in TableFor(doc, root) && TableFor(doc, root)[p] == ShapeFor(doc, root, x)
  {
    hide Best, PathsOf, ShapeOf, Walked, TableOf, FirstMet;
    LogIsListable(doc, root);
    var log, ids := Log(doc, root), FirstMet(Log(doc, root));
    var i := FirstMetSplit(log, x, n);
    FirstMetIsEachOnce(log);
    FirstMetIsEachOnce(log[..n]);
    forall j | i < j < |ids|
      ensures Best(PathsOf(log, ids[j])) != Best(PathsOf(log, x))
    {
      assert ids[j] in ids && ids[j] != ids[i];
      assert ids[j] !in ids[..i];
      assert PathFor(doc, root, ids[j]) != PathFor(doc, root, x);
    }
    LastWins(doc, log, ids, i);
  }

  /** What can be shown is shown in some order. */
  lemma {:induction false} IsShownInSomeOrder(doc: Doc, root: Id, x: Id) returns (d: Doc)
    requires IsModule(doc, root) && MayBeShown(doc, root, x)
    ensures IsModule(d, root) && Permuted(doc, d)
    ensures var p := PathFor(doc, root, x); p in TableFor(d, root) && TableFor(d, root)[p] == ShapeFor(doc, root, x)
  {
    hide Reaches, FirstMet, TableFor, CanPrecede, PathFor, ShapeFor, Permuted, Walked;
    var route, names :| Reaches(doc, root, ["aitp"], {}, route, Record(x, names)) && AllCanPrecede(doc, root, route, x);
    var n: nat;
    d, n := CanComeAfter(doc, root, ["aitp"], {}, route, Record(x, names));
    PermutedTypes(doc, d, root);
    LastMetIsShown(d, root, x, n);
  }

  /** What is shown could be. */
  lemma {:induction false} ShownMayBe(doc: Doc, root: Id, p: Path) returns (x: Id)
    requires IsModule(doc, root) && p in TableFor(doc, root)
    ensures MayBeShown(doc, root, x) && PathFor(doc, root, x) == p && TableFor(doc, root)[p] == ShapeFor(doc, root, x)
  {
    hide Best, PathsOf, ShapeOf, Walked, TableOf, FirstMet, Reaches, CanPrecede;
    LogIsListable(doc, root);
    var log, ids := Log(doc, root), FirstMet(Log(doc, root));
    var i := LastAt(doc, log, ids, p);
    x := ids[i];
    FirstMetIsEachOnce(log);
    LastWins(doc, log, ids, i);
    var n := FirstOf(log, x);
    var route, r := FirstMeetingHasRoute(doc, root, ["aitp"], {}, x, n);
    assert r == Record(x, r.names);
    var k := FirstMetSplit(log, x, n);
    assert k == i;
    FirstMetIsEachOnce(log[..n]);
    forall y | y in ids && y != x && PathFor(doc, root, y) == PathFor(doc, root, x)
      ensures CanPrecede(doc, root, {}, route, x, y)
    {
      var j :| 0 <= j < |ids| && ids[j] == y;
      assert Best(PathsOf(log, ids[j])) == p;
      assert j < i;
      assert y in ids[..i];
    }
    assert AllCanPrecede(doc, root, route, x);
    assert Reaches(doc, root, ["aitp"], {}, route, Record(x, r.names));
  }

  /** The last type with this preferred path. */
  lemma {:induction false} LastAt(doc: Doc, log: seq<Record>, ids: seq<Id>, p: Path) returns (i: nat)
    requires Listable(doc, log, ids) && p in TableOf(doc, log, ids)
    ensures i < |ids| && Best(PathsOf(log, ids[i])) == p
    ensures forall j :: i < j < |ids| ==> Best(PathsOf(log, ids[j])) != p
  {
    hide Best, PathsOf, ShapeOf;
    if Best(PathsOf(log, ids[|ids| - 1])) == p {
      i := |ids| - 1;
    } else {
      i := LastAt(doc, log, ids[..|ids| - 1], p);
    }
  }

  lemma {:induction false} MayBeShownIgnoresOrder(a: Doc, b: Doc, root: Id, x: Id)
    requires IsModule(a, root) && IsModule(b, root) && Permuted(a, b) && MayBeShown(b, root, x)
    ensures MayBeShown(a, root, x)
  {
    hide Reaches, FirstMet, CanPrecede, PathFor, Permuted, Reordered, Log;
    PermutedTypes(a, b, root);
    PermutedIsReordered(a, b);
    var route, names :| Reaches(b, root, ["aitp"], {}, route, Record(x, names)) && AllCanPrecede(b, root, route, x);
    RoutesIgnoreOrder(a, b, root, ["aitp"], {}, route, Record(x, names));
    forall y
      ensures CanPrecede(a, root, {}, route, x, y) <==> CanPrecede(b, root, {}, route, x, y)
    {
      CanPrecedeIgnoresOrder(a, b, root, {}, route, x, y);
    }
    assert AllCanPrecede(a, root, route, x);
  }

  /** Types at one path that the table can show have one shape. */
  ghost predicate ShownShapesAgree(doc: Doc, root: Id)
    requires IsModule(doc, root)
  {
    forall x, y ::
      (MayBeShown(doc, root, x) && MayBeShown(doc, root, y) && PathFor(doc, root, x) == PathFor(doc, root, y)) ==>
      ShapeFor(doc, root, x) == ShapeFor(doc, root, y)
  }

  /** The table is the same for every order of items exactly when the types it can show at each path have one shape. */
  lemma {:induction false} OrderIsIrrelevantExactlyWhen(doc: Doc, root: Id)
    requires IsModule(doc, root)
    ensures (forall d :: IsModule(d, root) && Permuted(doc, d) ==> TableFor(d, root) == TableFor(doc, root))
      <==> ShownShapesAgree(doc, root)
  {
    hide AllCanPrecede, Reaches, FirstMet, TableFor, PathFor, ShapeFor, Permuted, Log;
    if ShownShapesAgree(doc, root) {
      forall d | IsModule(d, root) && Permuted(doc, d)
        ensures TableFor(d, root) == TableFor(doc, root)
      {
        AgreeingTables(doc, d, root);
      }
    } else {
      var x, y :| MayBeShown(doc, root, x) && MayBeShown(doc, root, y)
                  && PathFor(doc, root, x) == PathFor(doc, root, y) && ShapeFor(doc, root, x) != ShapeFor(doc, root, y);
      var dx := IsShownInSomeOrder(doc, root, x);
      var dy := IsShownInSomeOrder(doc, root, y);
      assert TableFor(dx, root) != TableFor(dy, root);
    }
  }

  lemma {:induction false} AgreeingTables(doc: Doc, d: Doc, root: Id)
    requires IsModule(doc, root) && IsModule(d, root) && Permuted(doc, d) && ShownShapesAgree(doc, root)
    ensures TableFor(d, root) == TableFor(doc, root)
  {
    hide AllCanPrecede, Reaches, FirstMet, PathFor, ShapeFor, Permuted, Log;
    PermutedTypes(doc, d, root);
    var t, u := TableFor(doc, root), TableFor(d, root);
    forall p
      ensures p in t <==> p in u
    {
      SamePaths(doc, d, root, p);
    }
    hide TableFor;
    forall p | p in t
      ensures t[p] == u[p]
    {
      var x := ShownMayBe(doc, root, p);
      var y := ShownMayBe(d, root, p);
      MayBeShownIgnoresOrder(doc, d, root, y);
    }
    assert t.Keys == u.Keys;
  }

  lemma {:induction false} SamePaths(a: Doc, b: Doc, root: Id, p: Path)
    requires IsModule(a, root) && IsModule(b, root) && Permuted(a, b)
    ensures p in TableFor(a, root) <==> p in TableFor(b, root)
  {
    hide FirstMet, Best, PathsOf, ShapeOf, Permuted, Walked, TableOf;
    LogIsListable(a, root);
    LogIsListable(b, root);
    TableMember(a, Log(a, root), FirstMet(Log(a, root)), p);
    TableMember(b, Log(b, root), FirstMet(Log(b, root)), p);
    PermutedTypes(a, b, root);
    assert forall id :: id in FirstMet(Log(a, root)) ==> PathFor(a, root, id) == PathFor(b, root, id);
  }
}
