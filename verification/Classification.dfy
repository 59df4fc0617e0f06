/**
 Which public path stands for each struct and enum of the stable surface: a walk over the
 modules of the rustdoc index, following re-exports and globs.
 */
module Classification {
  import opened Basics
  import opened Ordering

  datatype Id = Id(number: nat)

  datatype Fields = Unit | Plain(stripped: bool) | Tuple(fields: seq<Option<Id>>)

  datatype Inner =
    | Module(items: seq<Id>)
    | Struct(fields: Fields)
    | Enum
    | Use(target: Option<Id>, alias: string, glob: bool)
    | Other

  datatype Item = Item(public: bool, local: bool, name: string, nonExhaustive: bool, inner: Inner)

  /** The index of a crate's rustdoc JSON. */
  type Doc = map<Id, Item>

  // ---------------------------------------------------------------- one child of a module

  /** What one child of a module leads to: a module whose items it adds below `part`, a type, or nothing. */
  datatype Lead = Nothing | Inside(id: Id, part: seq<string>) | Type(id: Id, name: string)

  predicate IsModule(doc: Doc, m: Id) {
    m in doc && doc[m].inner.Module?
  }

  predicate IsType(doc: Doc, t: Id) {
    t in doc && (doc[t].inner.Struct? || doc[t].inner.Enum?)
  }

  /** The module or type `id`, under the name its parent gives it. */
  function Named(doc: Doc, id: Id, name: string): (l: Lead) {
    if IsModule(doc, id) then Inside(id, [name]) else if IsType(doc, id) then Type(id, name) else Nothing
  }

  function Follow(doc: Doc, child: Id): (l: Lead) {
    if child !in doc || (!doc[child].public && !doc[child].inner.Use?) then Nothing
    else
      match doc[child].inner
      case Use(target, alias, glob) =>
        if target.None? || target.value !in doc || !doc[target.value].local then Nothing
        else if glob then (if IsModule(doc, target.value) then Inside(target.value, []) else Nothing)
        else Named(doc, target.value, alias)
      case _ => Named(doc, child, doc[child].name)
  }

  lemma {:induction false} LeadsAreInTheIndex(doc: Doc, child: Id)
    ensures Follow(doc, child).Inside? ==> IsModule(doc, Follow(doc, child).id)
    ensures Follow(doc, child).Type? ==> IsType(doc, Follow(doc, child).id)
  {
  }

  /** A child leads on when it is public, or re-exports: by name, or a whole module's items by a glob. */
  ghost predicate ReExports(doc: Doc, child: Id, target: Id, glob: bool) {
    && child in doc && doc[child].inner.Use? && doc[child].inner.target == Some(target)
    && target in doc && doc[target].local && doc[child].inner.glob == glob
  }

  ghost predicate Declares(doc: Doc, child: Id) {
    child in doc && doc[child].public && !doc[child].inner.Use?
  }

  /** Which modules and types a child leads to, and under which name. */
  lemma {:induction false} LeadsExactly(doc: Doc, child: Id, id: Id, name: string)
    ensures Follow(doc, child) == Inside(id, [name]) <==>
      && IsModule(doc, id)
      && ((child == id && Declares(doc, id) && doc[id].name == name)
          || (ReExports(doc, child, id, false) && doc[child].inner.alias == name))
    ensures Follow(doc, child) == Inside(id, []) <==> IsModule(doc, id) && ReExports(doc, child, id, true)
    ensures Follow(doc, child) == Type(id, name) <==>
      && IsType(doc, id)
      && ((child == id && Declares(doc, id) && doc[id].name == name)
          || (ReExports(doc, child, id, false) && doc[child].inner.alias == name))
  {
  }

  // ---------------------------------------------------------------- what the walk records

  datatype Record = Record(id: Id, names: seq<string>)

  ghost function Unseen(doc: Doc, seen: set<Id>): nat {
    |doc.Keys - seen|
  }

  lemma {:induction false} SeeingOne(doc: Doc, seen: set<Id>, m: Id)
    requires m in doc && m !in seen
    ensures Unseen(doc, seen + {m}) < Unseen(doc, seen)
  {
    assert doc.Keys - seen == (doc.Keys - (seen + {m})) + {m};
  }

  /** Everything the walk of module `m` records, in order, when the modules in `seen` are already open. */
  ghost function Walked(doc: Doc, m: Id, prefix: seq<string>, seen: set<Id>): (r: seq<Record>)
    requires IsModule(doc, m)
    decreases Unseen(doc, seen), 0, 0
  {
    if m in seen then []
    else
      SeeingOne(doc, seen, m);
      WalkedItems(doc, doc[m].inner.items, prefix, seen + {m})
  }

  ghost function WalkedItems(doc: Doc, items: seq<Id>, prefix: seq<string>, seen: set<Id>): (r: seq<Record>)
    decreases Unseen(doc, seen), 1, |items|
  {
    if items == [] then []
    else WalkedItems(doc, items[..|items| - 1], prefix, seen) + WalkedItem(doc, items[|items| - 1], prefix, seen)
  }

  ghost function WalkedItem(doc: Doc, child: Id, prefix: seq<string>, seen: set<Id>): (r: seq<Record>)
    decreases Unseen(doc, seen), 1, 0
  {
    LeadsAreInTheIndex(doc, child);
    match Follow(doc, child)
    case Nothing => []
    case Type(id, name) => [Record(id, prefix + [name])]
    case Inside(id, part) => Walked(doc, id, prefix + part, seen)
  }

  // ---------------------------------------------------------------- routes

  /** One step from an open module into another. */
  datatype Step = Step(to: Id, part: seq<string>)

  /** `child` of module `m` leads into another module. */
  ghost predicate CanStep(doc: Doc, m: Id, s: Step) {
    IsModule(doc, m) && exists child :: child in doc[m].inner.items && Follow(doc, child) == Inside(s.to, s.part)
  }

  ghost predicate HasType(doc: Doc, m: Id, id: Id, name: string) {
    IsModule(doc, m) && exists child :: child in doc[m].inner.items && Follow(doc, child) == Type(id, name)
  }

  /** The modules a route opens. */
  ghost function Opened(m: Id, route: seq<Step>): (r: seq<Id>)
    ensures |r| == |route| + 1 && r[0] == m
    decreases |route|
  {
    if route == [] then [m] else [m] + Opened(route[0].to, route[1..])
  }

  ghost function Parts(route: seq<Step>): seq<string> {
    if route == [] then [] else route[0].part + Parts(route[1..])
  }

  /** Each step of the route is one some child of the module it leaves makes. */
  ghost predicate Follows(doc: Doc, m: Id, route: seq<Step>) {
    forall i :: 0 <= i < |route| ==> CanStep(doc, Opened(m, route)[i], route[i])
  }

  /** `r` is the type at the end of a route from `m` that opens no module twice and none of `seen`. */
  ghost predicate Reaches(doc: Doc, m: Id, prefix: seq<string>, seen: set<Id>, route: seq<Step>, r: Record) {
    && Follows(doc, m, route) && Distinct(Opened(m, route))
    && (forall k :: k in Opened(m, route) ==> k !in seen)
    && exists name :: EndsAt(doc, m, prefix, route, r, name)
  }

  ghost predicate EndsAt(doc: Doc, m: Id, prefix: seq<string>, route: seq<Step>, r: Record, name: string) {
    HasType(doc, Opened(m, route)[|route|], r.id, name) && r.names == prefix + Parts(route) + [name]
  }

  lemma {:induction false} RecordHasRoute(doc: Doc, m: Id, prefix: seq<string>, seen: set<Id>, r: Record)
    returns (route: seq<Step>)
    requires IsModule(doc, m) && r in Walked(doc, m, prefix, seen)
    ensures Reaches(doc, m, prefix, seen, route, r)
    decreases Unseen(doc, seen)
  {
    SeeingOne(doc, seen, m);
    var child := RecordHasItem(doc, doc[m].inner.items, prefix, seen + {m}, r);
    LeadsAreInTheIndex(doc, child);
    var lead := Follow(doc, child);
    if lead.Type? {
      route := [];
      assert HasType(doc, m, r.id, lead.name);
      assert EndsAt(doc, m, prefix, route, r, lead.name);
    } else {
      var rest := RecordHasRoute(doc, lead.id, prefix + lead.part, seen + {m}, r);
      route := [Step(lead.id, lead.part)] + rest;
      LongerRoute(doc, m, prefix, seen, Step(lead.id, lead.part), rest, r);
    }
  }

  lemma {:induction false} RecordHasItem(doc: Doc, items: seq<Id>, prefix: seq<string>, seen: set<Id>, r: Record)
    returns (child: Id)
    requires r in WalkedItems(doc, items, prefix, seen)
    ensures child in items && r in WalkedItem(doc, child, prefix, seen)
  {
    child := items[|items| - 1];
    if r !in WalkedItem(doc, child, prefix, seen) {
      child := RecordHasItem(doc, items[..|items| - 1], prefix, seen, r);
    }
  }

  lemma {:induction false} ItemIsWalked(doc: Doc, items: seq<Id>, prefix: seq<string>, seen: set<Id>, child: Id,
                                        r: Record)
    requires child in items && r in WalkedItem(doc, child, prefix, seen)
    ensures r in WalkedItems(doc, items, prefix, seen)
  {
    if child != items[|items| - 1] {
      ItemIsWalked(doc, items[..|items| - 1], prefix, seen, child, r);
    }
  }

  /** A route is its first step and the route after it, which opens none of what came before. */
  lemma {:induction false} LongerRoute(doc: Doc, m: Id, prefix: seq<string>, seen: set<Id>, step: Step, rest: seq<Step>,
                                       r: Record)
    requires m !in seen && CanStep(doc, m, step)
    ensures Reaches(doc, step.to, prefix + step.part, seen + {m}, rest, r)
       <==> Reaches(doc, m, prefix, seen, [step] + rest, r)
  {
    hide Follows, EndsAt, CanStep;
    var more, all := Opened(step.to, rest), Opened(m, [step] + rest);
    LongerFollows(doc, m, step, rest);
    assert all == [m] + more;
    hide Opened;
    assert Distinct(all) <==> Distinct(more) && m !in more by {
      assert forall i :: 0 <= i < |more| ==> more[i] == all[i + 1];
    }
    forall name
      ensures EndsAt(doc, m, prefix, [step] + rest, r, name)
        <==> EndsAt(doc, step.to, prefix + step.part, rest, r, name)
    {
      LongerEnd(doc, m, prefix, step, rest, r, name);
    }
  }

  lemma {:induction false} LongerFollows(doc: Doc, m: Id, step: Step, rest: seq<Step>)
    requires CanStep(doc, m, step)
    ensures Follows(doc, m, [step] + rest) <==> Follows(doc, step.to, rest)
    ensures Opened(m, [step] + rest) == [m] + Opened(step.to, rest)
  {
    hide CanStep, Opened;
    OpenedLonger(m, step, rest);
    var more, all, route := Opened(step.to, rest), Opened(m, [step] + rest), [step] + rest;
    if Follows(doc, m, route) {
      forall i | 0 <= i < |rest|
        ensures CanStep(doc, more[i], rest[i])
      {
        assert CanStep(doc, all[i + 1], route[i + 1]);
      }
    }
    if Follows(doc, step.to, rest) {
      forall i | 0 <= i < |route|
        ensures CanStep(doc, all[i], route[i])
      {
        assert i > 0 ==> CanStep(doc, more[i - 1], rest[i - 1]);
      }
    }
  }

  lemma {:induction false} OpenedLonger(m: Id, step: Step, rest: seq<Step>)
    ensures Opened(m, [step] + rest) == [m] + Opened(step.to, rest)
  {
    assert ([step] + rest)[1..] == rest;
  }

  lemma {:induction false} LongerEnd(doc: Doc, m: Id, prefix: seq<string>, step: Step, rest: seq<Step>, r: Record,
                                     name: string)
    ensures EndsAt(doc, m, prefix, [step] + rest, r, name) <==> EndsAt(doc, step.to, prefix + step.part, rest, r, name)
  {
    hide HasType;
    var route := [step] + rest;
    assert route[1..] == rest && Opened(m, route) == [m] + Opened(step.to, rest);
    assert prefix + Parts(route) + [name] == prefix + step.part + Parts(rest) + [name];
  }

  lemma {:induction false} RouteIsRecorded(doc: Doc, m: Id, prefix: seq<string>, seen: set<Id>, route: seq<Step>,
                                           r: Record)
    requires IsModule(doc, m) && Reaches(doc, m, prefix, seen, route, r)
    ensures r in Walked(doc, m, prefix, seen)
    decreases |route|
  {
    assert m == Opened(m, route)[0];
    SeeingOne(doc, seen, m);
    if route == [] {
      var name :| EndsAt(doc, m, prefix, route, r, name);
      var child :| child in doc[m].inner.items && Follow(doc, child) == Type(r.id, name);
      assert r == Record(r.id, prefix + [name]);
      ItemIsWalked(doc, doc[m].inner.items, prefix, seen + {m}, child, r);
    } else {
      var step, rest := route[0], route[1..];
      assert route == [step] + rest;
      assert CanStep(doc, Opened(m, route)[0], route[0]);
      LongerRoute(doc, m, prefix, seen, step, rest, r);
      var child :| child in doc[m].inner.items && Follow(doc, child) == Inside(step.to, step.part);
      LeadsAreInTheIndex(doc, child);
      RouteIsRecorded(doc, step.to, prefix + step.part, seen + {m}, rest, r);
      ItemIsWalked(doc, doc[m].inner.items, prefix, seen + {m}, child, r);
    }
  }

  /** The walk of a module graph, cycles and all, records exactly the ends of the routes that open no module twice. */
  lemma {:induction false} RecordsAreRoutes(doc: Doc, root: Id, prefix: seq<string>, r: Record)
    requires IsModule(doc, root)
    ensures r in Walked(doc, root, prefix, {}) <==> exists route :: Reaches(doc, root, prefix, {}, route, r)
  {
    if r in Walked(doc, root, prefix, {}) {
      var route := RecordHasRoute(doc, root, prefix, {}, r);
    }
    if exists route :: Reaches(doc, root, prefix, {}, route, r) {
      var route :| Reaches(doc, root, prefix, {}, route, r);
      RouteIsRecorded(doc, root, prefix, {}, route, r);
    }
  }

  // ---------------------------------------------------------------- the order of items

  /** The same index with the items of its modules in another order (or repeated). */
  ghost predicate Reordered(a: Doc, b: Doc) {
    a.Keys == b.Keys && forall id :: id in a ==> SameItem(a[id], b[id])
  }

  ghost predicate SameItem(x: Item, y: Item) {
    if x.inner.Module? then
      && y.inner.Module? && x == y.(inner := x.inner)
      && forall id :: id in x.inner.items <==> id in y.inner.items
    else x == y
  }

  lemma {:induction false} LeadsIgnoreOrder(a: Doc, b: Doc, child: Id)
    requires Reordered(a, b)
    ensures Follow(a, child) == Follow(b, child)
  {
    assert forall id ::
        && (id in a ==> SameItem(a[id], b[id]))
        && (IsModule(a, id) <==> IsModule(b, id))
        && (IsType(a, id) <==> IsType(b, id));
    if child in a && a[child].inner.Use? {
      var target := a[child].inner.target;
      assert target.Some? && target.value in a ==> a[target.value].local == b[target.value].local;
    }
  }

  lemma {:induction false} RecordsIgnoreOrder(a: Doc, b: Doc, root: Id, prefix: seq<string>, r: Record)
    requires Reordered(a, b) && IsModule(a, root) && IsModule(b, root)
    ensures r in Walked(a, root, prefix, {}) <==> r in Walked(b, root, prefix, {})
  {
    RecordsAreRoutes(a, root, prefix, r);
    RecordsAreRoutes(b, root, prefix, r);
    forall route
      ensures Reaches(a, root, prefix, {}, route, r) <==> Reaches(b, root, prefix, {}, route, r)
    {
      RoutesIgnoreOrder(a, b, root, prefix, {}, route, r);
    }
  }

  lemma {:induction false} RoutesIgnoreOrder(a: Doc, b: Doc, root: Id, prefix: seq<string>, seen: set<Id>,
                                             route: seq<Step>, r: Record)
    requires Reordered(a, b)
    ensures Reaches(a, root, prefix, seen, route, r) <==> Reaches(b, root, prefix, seen, route, r)
  {
    forall m, s
      ensures CanStep(a, m, s) <==> CanStep(b, m, s)
    {
      StepsIgnoreOrder(a, b, m, Inside(s.to, s.part));
    }
    forall m, id, name
      ensures HasType(a, m, id, name) <==> HasType(b, m, id, name)
    {
      StepsIgnoreOrder(a, b, m, Type(id, name));
    }
    hide CanStep, HasType, SameItem;
    assert forall name :: EndsAt(a, root, prefix, route, r, name) <==> EndsAt(b, root, prefix, route, r, name);
    assert Follows(a, root, route) <==> Follows(b, root, route);
  }

  lemma {:induction false} StepsIgnoreOrder(a: Doc, b: Doc, m: Id, lead: Lead)
    requires Reordered(a, b)
    ensures (IsModule(a, m) && exists child :: child in a[m].inner.items && Follow(a, child) == lead)
       <==> (IsModule(b, m) && exists child :: child in b[m].inner.items && Follow(b, child) == lead)
  {
    hide Follow;
    assert m in a ==> SameItem(a[m], b[m]);
    forall child
      ensures Follow(a, child) == Follow(b, child)
    {
      LeadsIgnoreOrder(a, b, child);
    }
  }

  // ---------------------------------------------------------------- the walk itself

  function Joined(names: seq<string>): string {
    if names == [] then ""
    else if |names| == 1 then names[0]
    else names[0] + "::" + Joined(names[1..])
  }

  /** Printed paths put together as their names do. */
  lemma {:induction false} JoinedTogether(a: seq<string>, b: seq<string>)
    requires a != [] && b != []
    ensures Joined(a + b) == Joined(a) + "::" + Joined(b)
    ensures forall name :: Joined([name]) == name
  {
    assert (a + b)[1..] == a[1..] + b;
    if |a| > 1 {
      JoinedTogether(a[1..], b);
    } else {
      assert a[1..] + b == b;
    }
  }

  /** And tell those names apart, which are identifiers. */
  lemma {:induction false} JoinedOnce(a: seq<string>, b: seq<string>)
    requires forall i :: 0 <= i < |a| ==> a[i] != "" && ':' !in a[i]
    requires forall i :: 0 <= i < |b| ==> b[i] != "" && ':' !in b[i]
    requires Joined(a) == Joined(b)
    ensures a == b
  {
    if a != [] && b != [] {
      FirstName(a);
      FirstName(b);
      assert |a[0]| == |b[0]|;
      assert a[0] == Joined(a)[..|a[0]|] == b[0];
      if |a| > 1 {
        assert Joined(a)[|a[0]| + 2..] == Joined(a[1..]) && Joined(b)[|a[0]| + 2..] == Joined(b[1..]);
        JoinedOnce(a[1..], b[1..]);
      }
    }
  }

  /** The first name ends at the first colon, if there is one. */
  lemma {:induction false} FirstName(a: seq<string>)
    requires a != [] && a[0] != "" && ':' !in a[0]
    ensures var s := Joined(a);
      && s != "" && |a[0]| <= |s| && s[..|a[0]|] == a[0] && (forall i :: 0 <= i < |a[0]| ==> s[i] != ':')
      && if |a| == 1 then |s| == |a[0]|
         else |a[0]| + 2 <= |s| && s[|a[0]|] == ':' && s[|a[0]| + 2..] == Joined(a[1..])
  {
    if |a| > 1 {
      assert Joined(a) == a[0] + ("::" + Joined(a[1..]));
    }
    forall i | 0 <= i < |a[0]|
      ensures Joined(a)[i] != ':'
    {
      assert Joined(a)[i] == a[0][i];
    }
  }

  ghost function Ids(log: seq<Record>): set<Id> {
    set r | r in log :: r.id
  }

  /** The paths recorded for one type, in order. */
  ghost function PathsOf(log: seq<Record>, id: Id): seq<Path> {
    if log == [] then []
    else PathsOf(log[..|log| - 1], id) + if log[|log| - 1].id == id then [Path(Joined(log[|log| - 1].names))] else []
  }

  lemma {:induction false} PathsOfMember(log: seq<Record>, id: Id, p: Path)
    ensures p in PathsOf(log, id) <==> exists r :: r in log && r.id == id && Path(Joined(r.names)) == p
  {
    if log != [] {
      PathsOfMember(log[..|log| - 1], id, p);
      assert log == log[..|log| - 1] + [log[|log| - 1]];
    }
  }

  /** The types recorded, in the order they first come up. */
  ghost function FirstMet(log: seq<Record>): seq<Id> {
    if log == [] then []
    else
      var before := FirstMet(log[..|log| - 1]);
      if log[|log| - 1].id in before then before else before + [log[|log| - 1].id]
  }

  lemma {:induction false} FirstMetIsEachOnce(log: seq<Record>)
    ensures Distinct(FirstMet(log)) && forall id :: id in FirstMet(log) <==> id in Ids(log)
  {
    if log != [] {
      FirstMetIsEachOnce(log[..|log| - 1]);
      assert log == log[..|log| - 1] + [log[|log| - 1]];
      assert Ids(log) == Ids(log[..|log| - 1]) + {log[|log| - 1].id};
    }
  }

  ghost predicate Holds(log: seq<Record>, ids: seq<Id>, out: map<Id, seq<Path>>) {
    && ids == FirstMet(log) && (forall id :: id in ids <==> id in out)
    && (forall id :: id in out ==> id in Ids(log) && out[id] == PathsOf(log, id))
  }

  lemma {:induction false} HoldsOneMore(log: seq<Record>, ids: seq<Id>, out: map<Id, seq<Path>>, r: Record)
    requires Holds(log, ids, out)
    ensures var p := Path(Joined(r.names));
            if r.id in out then Holds(log + [r], ids, out[r.id := out[r.id] + [p]])
            else Holds(log + [r], ids + [r.id], out[r.id := [p]])
  {
    hide PathsOf, Ids, FirstMet, Joined;
    OneMoreRecord(log, r);
    FirstMetIsEachOnce(log);
    if r.id !in out {
      NoPaths(log, r.id);
    }
  }

  lemma {:induction false} OneMoreRecord(log: seq<Record>, r: Record)
    ensures Ids(log + [r]) == Ids(log) + {r.id}
    ensures FirstMet(log + [r]) == FirstMet(log) + if r.id in FirstMet(log) then [] else [r.id]
    ensures forall id :: PathsOf(log + [r], id) == PathsOf(log, id) + if id == r.id then [Path(Joined(r.names))] else []
  {
    var next := log + [r];
    assert next[..|next| - 1] == log && next[|next| - 1] == r;
  }

  /** Every public path of each type, and the types in the order they were first met. */
  class PublicPaths {
    var out: map<Id, seq<Path>>
    var ids: seq<Id>
    ghost var log: seq<Record>

    ghost predicate Valid()
      reads this
    {
      Holds(log, ids, out)
    }

    constructor ()
      ensures Valid() && log == []
    {
      out, ids, log := map[], [], [];
    }

    method Add(id: Id, names: seq<string>)
      requires Valid()
      modifies this
      ensures Valid() && log == old(log) + [Record(id, names)]
    {
      hide Holds, Joined;
      HoldsOneMore(log, ids, out, Record(id, names));
      var p := Path(Joined(names));
      if id in out {
        out := out[id := out[id] + [p]];
      } else {
        out, ids := out[id := [p]], ids + [id];
      }
      log := log + [Record(id, names)];
    }

    method Walk(doc: Doc, m: Id, prefix: seq<string>, seen: set<Id>)
      requires Valid() && IsModule(doc, m)
      modifies this
      ensures Valid() && log == old(log) + Walked(doc, m, prefix, seen)
      decreases Unseen(doc, seen), 0
    {
      SeenModule(doc, m, prefix, seen);
      var items := doc[m].inner.items;
      hide *;
      if m in seen {
        return;
      }
      SeeingOne(doc, seen, m);
      var i := 0;
      assert items[..i] == [];
      while i < |items|
        invariant i <= |items| && Valid()
        invariant log == old(log) + WalkedItems(doc, items[..i], prefix, seen + {m})
      {
        Visit(doc, items[i], prefix, seen + {m});
        OneMoreItem(doc, items, i, prefix, seen + {m});
        i := i + 1;
      }
      ModuleWalked(doc, m, prefix, seen);
      assert items[..i] == items;
    }

    method Visit(doc: Doc, child: Id, prefix: seq<string>, seen: set<Id>)
      requires Valid()
      modifies this
      ensures Valid() && log == old(log) + WalkedItem(doc, child, prefix, seen)
      decreases Unseen(doc, seen), 1
    {
      hide *;
      LeadsAreInTheIndex(doc, child);
      ItemWalked(doc, child, prefix, seen);
      match Follow(doc, child) {
        case Nothing =>
        case Type(id, name) => Add(id, prefix + [name]);
        case Inside(id, part) => Walk(doc, id, prefix + part, seen);
      }
    }
  }

  lemma {:induction false} SeenModule(doc: Doc, m: Id, prefix: seq<string>, seen: set<Id>)
    requires IsModule(doc, m)
    ensures m in seen ==> Walked(doc, m, prefix, seen) == []
    ensures WalkedItems(doc, [], prefix, seen + {m}) == []
  {
  }

  lemma {:induction false} ModuleWalked(doc: Doc, m: Id, prefix: seq<string>, seen: set<Id>)
    requires IsModule(doc, m) && m !in seen
    ensures Walked(doc, m, prefix, seen) == WalkedItems(doc, doc[m].inner.items, prefix, seen + {m})
  {
  }

  lemma {:induction false} ItemWalked(doc: Doc, child: Id, prefix: seq<string>, seen: set<Id>)
    ensures match Follow(doc, child)
            case Nothing => WalkedItem(doc, child, prefix, seen) == []
            case Type(id, name) => WalkedItem(doc, child, prefix, seen) == [Record(id, prefix + [name])]
            case Inside(id, part) =>
              IsModule(doc, id) && WalkedItem(doc, child, prefix, seen) == Walked(doc, id, prefix + part, seen)
  {
    LeadsAreInTheIndex(doc, child);
  }

  lemma {:induction false} OneMoreItem(doc: Doc, items: seq<Id>, i: nat, prefix: seq<string>, seen: set<Id>)
    requires i < |items|
    ensures WalkedItems(doc, items[..i + 1], prefix, seen)
         == WalkedItems(doc, items[..i], prefix, seen) + WalkedItem(doc, items[i], prefix, seen)
  {
    assert items[..i + 1][..i] == items[..i];
  }

  lemma {:induction false} NoPaths(log: seq<Record>, id: Id)
    requires id !in Ids(log)
    ensures PathsOf(log, id) == []
  {
    if log != [] {
      assert log[|log| - 1] in log;
      NoPaths(log[..|log| - 1], id);
    }
  }

  // ---------------------------------------------------------------- the table

  /** How often `::` comes up, read left to right without overlap. */
  function Depth(text: string): (n: nat) {
    if |text| < 2 then 0
    else if text[0] == ':' && text[1] == ':' then 1 + Depth(text[2..])
    else Depth(text[1..])
  }

  /** The shorter path first, then the smaller text. */
  predicate Preferable(a: Path, b: Path) {
    Depth(a.text) < Depth(b.text) || (Depth(a.text) == Depth(b.text) && PathLeq(a, b))
  }

  lemma {:induction false} PreferenceOrder()
    ensures TotalOrder(Preferable)
  {
    hide Depth, PathLeq;
    PathOrder();
  }

  method Preferred(paths: seq<Path>) returns (best: Path)
    requires paths != []
    ensures IsPreferred(paths, best)
  {
    hide Preferable;
    PreferenceOrder();
    best := paths[0];
    var i := 1;
    while i < |paths|
      invariant 1 <= i <= |paths| && best in paths[..i]
      invariant forall q :: q in paths[..i] ==> Preferable(best, q)
    {
      assert paths[..i + 1] == paths[..i] + [paths[i]];
      if Preferable(paths[i], best) && paths[i] != best {
        best := paths[i];
      }
      i := i + 1;
    }
    assert paths[..i] == paths;
  }

  ghost predicate IsPreferred(paths: seq<Path>, best: Path) {
    best in paths && forall q :: q in paths ==> Preferable(best, q)
  }

  lemma {:induction false} PreferredIsUnique(a: seq<Path>, b: seq<Path>, p: Path, q: Path)
    requires (forall x :: x in a <==> x in b) && IsPreferred(a, p) && IsPreferred(b, q)
    ensures p == q
  {
    hide Preferable;
    PreferenceOrder();
    assert Preferable(p, q) && Preferable(q, p);
  }

  ghost function Best(paths: seq<Path>): (best: Path)
    requires paths != []
    ensures IsPreferred(paths, best)
  {
    PreferenceOrder();
    var n := |paths| - 1;
    assert paths == paths[..n] + [paths[n]];
    if n == 0 then paths[0]
    else
      var best := Best(paths[..n]);
      if Preferable(paths[n], best) then paths[n] else best
  }

  /** Names without a colon: the shorter printed path is the one through fewer modules. */
  lemma {:induction false} DepthCountsModules(names: seq<string>)
    requires names != [] && forall i :: 0 <= i < |names| ==> ':' !in names[i]
    ensures Depth(Joined(names)) == |names| - 1
  {
    if |names| == 1 {
      PlainDepth(names[0], "");
      assert names[0] + "" == names[0];
    } else {
      DepthCountsModules(names[1..]);
      PlainDepth(names[0], "::" + Joined(names[1..]));
      assert ("::" + Joined(names[1..]))[2..] == Joined(names[1..]);
      assert names[0] + ("::" + Joined(names[1..])) == Joined(names);
    }
  }

  lemma {:induction false} PlainDepth(name: string, rest: string)
    requires ':' !in name
    ensures Depth(name + rest) == Depth(rest)
  {
    if name == [] {
      assert name + rest == rest;
    } else {
      var all := name + rest;
      assert all[0] == name[0] && name[0] in name;
      assert all[1..] == name[1..] + rest;
      PlainDepth(name[1..], rest);
      if |all| < 2 {
        assert rest == [];
      }
    }
  }

  datatype Kind = AStruct | AnEnum
  datatype Class = NonExhaustive | PrivateFields | Exhaustive
  datatype Shape = Shape(kind: Kind, cls: Class)

  function ShapeOf(item: Item): (s: Shape)
    requires item.inner.Struct? || item.inner.Enum?
    ensures s.kind == AStruct <==> item.inner.Struct?
    ensures s.cls == NonExhaustive <==> item.nonExhaustive
    ensures s.cls == Exhaustive <==> !item.nonExhaustive && CallersSeeAll(item.inner)
  {
    var kind := if item.inner.Struct? then AStruct else AnEnum;
    if item.nonExhaustive then Shape(kind, NonExhaustive)
    else if item.inner.Struct? && HasPrivateField(item.inner.fields) then Shape(kind, PrivateFields)
    else Shape(kind, Exhaustive)
  }

  /** Callers can match or build the type in full: an enum, or a struct no field of which is hidden from them. */
  ghost predicate CallersSeeAll(inner: Inner)
    requires inner.Struct? || inner.Enum?
  {
    inner.Enum? || inner.fields.Unit? || inner.fields == Plain(false)
    || (inner.fields.Tuple? && forall i :: 0 <= i < |inner.fields.fields| ==> inner.fields.fields[i].Some?)
  }

  /** rustdoc flags a private named field and leaves a private tuple field out. */
  predicate HasPrivateField(fields: Fields) {
    match fields
    case Unit => false
    case Plain(stripped) => stripped
    case Tuple(ids) => None in ids
  }

  type Table = map<Path, Shape>

  lemma {:induction false} RecordsAreTypes(doc: Doc, root: Id, prefix: seq<string>)
    requires IsModule(doc, root)
    ensures forall id :: id in Ids(Walked(doc, root, prefix, {})) ==> IsType(doc, id)
  {
    forall r | r in Walked(doc, root, prefix, {})
      ensures IsType(doc, r.id)
    {
      var route := RecordHasRoute(doc, root, prefix, {}, r);
      var name :| EndsAt(doc, root, prefix, route, r, name);
      var m := Opened(root, route)[|route|];
      var child :| child in doc[m].inner.items && Follow(doc, child) == Type(r.id, name);
      LeadsAreInTheIndex(doc, child);
    }
  }

  lemma {:induction false} RecordedHavePaths(log: seq<Record>)
    ensures forall id :: id in Ids(log) ==> PathsOf(log, id) != []
  {
    forall r | r in log
      ensures PathsOf(log, r.id) != []
    {
      PathsOfMember(log, r.id, Path(Joined(r.names)));
    }
  }

  ghost predicate Listable(doc: Doc, log: seq<Record>, ids: seq<Id>) {
    forall id :: id in ids ==> IsType(doc, id) && PathsOf(log, id) != []
  }

  /** The table of these types, filled in order: a later type with the same preferred path wins. */
  ghost function TableOf(doc: Doc, log: seq<Record>, ids: seq<Id>): Table
    requires Listable(doc, log, ids)
  {
    if ids == [] then map[]
    else
      var id := ids[|ids| - 1];
      TableOf(doc, log, ids[..|ids| - 1])[Best(PathsOf(log, id)) := ShapeOf(doc[id])]
  }

  ghost function Log(doc: Doc, root: Id): seq<Record>
    requires IsModule(doc, root)
  {
    Walked(doc, root, ["aitp"], {})
  }

  lemma {:induction false} LogIsListable(doc: Doc, root: Id)
    requires IsModule(doc, root)
    ensures Listable(doc, Log(doc, root), FirstMet(Log(doc, root)))
  {
    RecordsAreTypes(doc, root, ["aitp"]);
    RecordedHavePaths(Log(doc, root));
    FirstMetIsEachOnce(Log(doc, root));
  }

  /** The table of a surface: its types in the order the walk meets them. */
  ghost function TableFor(doc: Doc, root: Id): Table
    requires IsModule(doc, root)
  {
    LogIsListable(doc, root);
    TableOf(doc, Log(doc, root), FirstMet(Log(doc, root)))
  }

  /** The shape of every public type, at the path preferred for it. */
  method Current(doc: Doc, root: Id) returns (table: Table)
    requires IsModule(doc, root)
    ensures table == TableFor(doc, root)
  {
    hide IsPreferred, PathsOf, FirstMet, Walked;
    LogIsListable(doc, root);
    ghost var log := Log(doc, root);
    var paths := new PublicPaths();
    paths.Walk(doc, root, ["aitp"], {});
    assert paths.log == log;
    var ids, out := paths.ids, paths.out;
    table := map[];
    var i := 0;
    while i < |ids|
      invariant i <= |ids| && table == TableOf(doc, log, ids[..i])
    {
      var id := ids[i];
      assert ids[..i + 1][..i] == ids[..i];
      assert id in out;
      var best := Preferred(out[id]);
      PreferredIsUnique(out[id], out[id], best, Best(out[id]));
      table := table[best := ShapeOf(doc[id])];
      i := i + 1;
    }
    assert ids[..i] == ids;
  }

  // ---------------------------------------------------------------- when the table can be trusted

  /** Two types that the table would list at one path with different shapes. */
  ghost predicate Clash(doc: Doc, log: seq<Record>, x: Id, y: Id)
    requires Listable(doc, log, [x, y])
  {
    Best(PathsOf(log, x)) == Best(PathsOf(log, y)) && ShapeOf(doc[x]) != ShapeOf(doc[y])
  }

  ghost predicate ClashFree(doc: Doc, log: seq<Record>, ids: seq<Id>)
    requires Listable(doc, log, ids)
  {
    forall x, y :: x in ids && y in ids ==> !Clash(doc, log, x, y)
  }

  ghost predicate IsClashFree(doc: Doc, root: Id)
    requires IsModule(doc, root)
  {
    LogIsListable(doc, root);
    ClashFree(doc, Log(doc, root), FirstMet(Log(doc, root)))
  }

  /** The table lists this type with its own shape. */
  ghost predicate ListedAs(doc: Doc, log: seq<Record>, table: Table, id: Id)
    requires Listable(doc, log, [id])
  {
    var p := Best(PathsOf(log, id));
    p in table && table[p] == ShapeOf(doc[id])
  }

  ghost predicate ListsEveryType(doc: Doc, root: Id)
    requires IsModule(doc, root)
  {
    LogIsListable(doc, root);
    forall id :: id in FirstMet(Log(doc, root)) ==> ListedAs(doc, Log(doc, root), TableFor(doc, root), id)
  }

  lemma {:induction false} TableMember(doc: Doc, log: seq<Record>, ids: seq<Id>, p: Path)
    requires Listable(doc, log, ids)
    ensures p in TableOf(doc, log, ids) <==> exists id :: id in ids && Best(PathsOf(log, id)) == p
    ensures p in TableOf(doc, log, ids) ==>
              (exists id :: id in ids && Best(PathsOf(log, id)) == p && TableOf(doc, log, ids)[p] == ShapeOf(doc[id]))
  {
    hide Best, PathsOf, ShapeOf;
    if ids != [] {
      TableMember(doc, log, ids[..|ids| - 1], p);
      assert ids == ids[..|ids| - 1] + [ids[|ids| - 1]];
      assert ids[|ids| - 1] in ids;
    }
  }

  lemma {:induction false} ListedExactlyWhen(doc: Doc, log: seq<Record>, ids: seq<Id>)
    requires Listable(doc, log, ids)
    ensures (forall id :: id in ids ==> ListedAs(doc, log, TableOf(doc, log, ids), id)) <==> ClashFree(doc, log, ids)
  {
    hide Best, PathsOf, ShapeOf, TableOf;
    forall id | id in ids
      ensures ListedAs(doc, log, TableOf(doc, log, ids), id) || !ClashFree(doc, log, ids)
    {
      TableMember(doc, log, ids, Best(PathsOf(log, id)));
      assert !Clash(doc, log, id, id);
    }
    if !ClashFree(doc, log, ids) {
      var x, y :| x in ids && y in ids && Clash(doc, log, x, y);
      var table := TableOf(doc, log, ids);
      assert !(ListedAs(doc, log, table, x) && ListedAs(doc, log, table, y));
    }
  }

  /** The table shows every public type's own shape in exactly the surfaces without a clash. */
  lemma {:induction false} ListsEveryTypeExactlyWhen(doc: Doc, root: Id)
    requires IsModule(doc, root)
    ensures ListsEveryType(doc, root) <==> IsClashFree(doc, root)
  {
    hide Listable, ListedAs, ClashFree, Walked, FirstMet;
    LogIsListable(doc, root);
    ListedExactlyWhen(doc, Log(doc, root), FirstMet(Log(doc, root)));
  }

  /** Two lists of one set of types, each at one path and with one shape, make one table if none clash. */
  lemma {:induction false} TablesAgree(a: Doc, la: seq<Record>, ia: seq<Id>, b: Doc, lb: seq<Record>, ib: seq<Id>)
    requires Listable(a, la, ia) && Listable(b, lb, ib) && (forall id :: id in ia <==> id in ib) && ClashFree(a, la, ia)
    requires forall id :: id in ia ==>
      Best(PathsOf(la, id)) == Best(PathsOf(lb, id)) && ShapeOf(a[id]) == ShapeOf(b[id])
    ensures TableOf(a, la, ia) == TableOf(b, lb, ib)
  {
    hide Best, PathsOf, ShapeOf, TableOf;
    var ta, tb := TableOf(a, la, ia), TableOf(b, lb, ib);
    forall p
      ensures p in ta <==> p in tb
      ensures p in ta && p in tb ==> ta[p] == tb[p]
    {
      TableMember(a, la, ia, p);
      TableMember(b, lb, ib, p);
      if p in ta && p in tb {
        var x :| x in ia && Best(PathsOf(la, x)) == p && ta[p] == ShapeOf(a[x]);
        var y :| y in ib && Best(PathsOf(lb, y)) == p && tb[p] == ShapeOf(b[y]);
        assert !Clash(a, la, x, y);
      }
    }
    assert ta.Keys == tb.Keys;
  }

  /** Without a clash, the order of items inside modules makes no difference to the table. */
  lemma {:induction false} TableIgnoresOrder(a: Doc, b: Doc, root: Id)
    requires Reordered(a, b) && IsModule(a, root) && IsModule(b, root) && IsClashFree(a, root)
    ensures TableFor(a, root) == TableFor(b, root)
  {
    hide Listable, ClashFree, Reordered, Walked, FirstMet;
    LogIsListable(a, root);
    LogIsListable(b, root);
    ReorderedTypes(a, b, root);
    TablesAgree(a, Log(a, root), FirstMet(Log(a, root)), b, Log(b, root), FirstMet(Log(b, root)));
  }

  lemma {:induction false} ReorderedTypes(a: Doc, b: Doc, root: Id)
    requires Reordered(a, b) && IsModule(a, root) && IsModule(b, root)
    requires Listable(a, Log(a, root), FirstMet(Log(a, root))) && Listable(b, Log(b, root), FirstMet(Log(b, root)))
    ensures forall id :: id in FirstMet(Log(a, root)) <==> id in FirstMet(Log(b, root))
    ensures forall id :: id in FirstMet(Log(a, root)) ==>
              Best(PathsOf(Log(a, root), id)) == Best(PathsOf(Log(b, root), id)) && ShapeOf(a[id]) == ShapeOf(b[id])
  {
    hide Best, ShapeOf, Walked;
    var la, lb := Log(a, root), Log(b, root);
    forall r
      ensures r in la <==> r in lb
    {
      RecordsIgnoreOrder(a, b, root, ["aitp"], r);
    }
    FirstMetIsEachOnce(la);
    FirstMetIsEachOnce(lb);
    assert Ids(la) == Ids(lb);
    forall id | id in FirstMet(la)
      ensures Best(PathsOf(la, id)) == Best(PathsOf(lb, id)) && ShapeOf(a[id]) == ShapeOf(b[id])
    {
      forall p
        ensures p in PathsOf(la, id) <==> p in PathsOf(lb, id)
      {
        PathsOfMember(la, id, p);
        PathsOfMember(lb, id, p);
      }
      PreferredIsUnique(PathsOf(la, id), PathsOf(lb, id), Best(PathsOf(la, id)), Best(PathsOf(lb, id)));
      assert SameItem(a[id], b[id]);
    }
  }

  /** A root module whose own `pub struct Foo` stands beside a glob of a private module's `pub struct Foo`. */
  function ShadowedGlob(items: seq<Id>): Doc {
    map[Id(0) := Item(true, true, "aitp", false, Module(items)),
        Id(1) := Item(true, true, "", false, Use(Some(Id(3)), "inner", true)),
        Id(2) := Item(true, true, "Foo", false, Struct(Unit)),
        Id(3) := Item(false, true, "inner", false, Module([Id(4)])),
        Id(4) := Item(true, true, "Foo", true, Struct(Unit))]
  }

  /** The two are listed at one path, and the order of the root's items picks the class written there. */
  lemma {:induction false} ClashMakesOrderMatter()
    ensures var a, b, p := ShadowedGlob([Id(1), Id(2)]), ShadowedGlob([Id(2), Id(1)]), Path("aitp::Foo");
            && Reordered(a, b)
            && TableFor(a, Id(0)) == map[p := Shape(AStruct, Exhaustive)]
            && TableFor(b, Id(0)) == map[p := Shape(AStruct, NonExhaustive)]
  {
    hide Walked, TableOf, FirstMet, Joined, Best, PathsOf;
    assert forall id :: id in [Id(1), Id(2)] <==> id in [Id(2), Id(1)];
    ShadowedGlobTable(Id(1), Id(2));
    ShadowedGlobTable(Id(2), Id(1));
  }

  lemma {:induction false} ShadowedGlobTable(first: Id, second: Id)
    requires (first, second) == (Id(1), Id(2)) || (first, second) == (Id(2), Id(1))
    ensures var doc := ShadowedGlob([first, second]);
            TableFor(doc, Id(0)) ==
                 map[Path("aitp::Foo") := Shape(AStruct, if second == Id(2) then Exhaustive else NonExhaustive)]
  {
    hide WalkedItems, WalkedItem, Walked, TableOf, FirstMet;
    var doc := ShadowedGlob([first, second]);
    var foo, top, open := ["aitp", "Foo"], ["aitp"], {Id(0)};
    assert top + [] == top && top + ["Foo"] == foo && {} + {Id(0)} == open;
    ModuleWalked(doc, Id(3), top, open);
    ItemWalked(doc, Id(4), top, open + {Id(3)});
    OneChild(doc, Id(4), top, open + {Id(3)});
    assert Walked(doc, Id(3), top, open) == [Record(Id(4), foo)];
    ItemWalked(doc, Id(1), top, open);
    ItemWalked(doc, Id(2), top, open);
    ModuleWalked(doc, Id(0), top, {});
    OneChild(doc, first, top, open);
    OneMoreItem(doc, [first, second], 1, top, open);
    assert [first, second][..2] == [first, second] && [first, second][..1] == [first];
    var x, y := if first == Id(1) then Id(4) else Id(2), if first == Id(1) then Id(2) else Id(4);
    assert WalkedItem(doc, Id(1), top, open) == [Record(Id(4), foo)];
    assert WalkedItem(doc, Id(2), top, open) == [Record(Id(2), foo)];
    assert WalkedItems(doc, [first, second], top, open) == [Record(x, foo), Record(y, foo)];
    assert Log(doc, Id(0)) == [Record(x, foo), Record(y, foo)];
    TwoAtOnePath(doc, x, y, foo);
    assert Joined(foo[1..]) == "Foo" && Joined(foo) == "aitp::Foo";
  }

  lemma {:induction false} OneChild(doc: Doc, child: Id, prefix: seq<string>, seen: set<Id>)
    ensures WalkedItems(doc, [child], prefix, seen) == WalkedItem(doc, child, prefix, seen)
  {
    assert [child][..0] == [];
  }

  lemma {:induction false} BestOfOne(p: Path)
    ensures Best([p]) == p
  {
  }

  lemma {:induction false} TwoAtOnePath(doc: Doc, x: Id, y: Id, names: seq<string>)
    requires x != y && IsType(doc, x) && IsType(doc, y)
    ensures var log := [Record(x, names), Record(y, names)];
            && FirstMet(log) == [x, y] && Listable(doc, log, [x, y])
            && TableOf(doc, log, [x, y]) == map[Path(Joined(names)) := ShapeOf(doc[y])]
  {
    hide Joined, ShapeOf;
    var log := [Record(x, names), Record(y, names)];
    hide Best;
    assert log[..1] == [Record(x, names)] && log[..1][..0] == [];
    assert PathsOf(log[..1], x) == [Path(Joined(names))] && PathsOf(log[..1], y) == [];
    assert PathsOf(log, x) == [Path(Joined(names))] && PathsOf(log, y) == [Path(Joined(names))];
    assert FirstMet(log[..1]) == [x] && FirstMet(log) == [x, y];
    hide FirstMet, PathsOf;
    BestOfOne(Path(Joined(names)));
    assert [x, y][..1] == [x] && [x][..0] == [];
    assert TableOf(doc, log, [x]) == map[Path(Joined(names)) := ShapeOf(doc[x])];
  }

  // ---------------------------------------------------------------- the committed table

  function ClassText(c: Class): (text: string) {
    match c
    case NonExhaustive => "non_exhaustive"
    case PrivateFields => "private fields"
    case Exhaustive => "exhaustive"
  }

  /** A row of the committed table. */
  datatype Row = Row(kind: string, cls: string, reason: string)

  datatype Problem =
    | Unclassified(path: Path)
    | WrongClass(path: Path, listed: string)
    | NoReason(path: Path)
    | NotStable(path: Path)

  /** What is wrong with one path of the table. */
  function ProblemAt(types: Table, rows: map<Path, Row>, p: Path): Option<Problem> {
    if p !in types then (if p in rows then Some(NotStable(p)) else None)
    else if p !in rows then Some(Unclassified(p))
    else if rows[p].cls != ClassText(types[p].cls) then Some(WrongClass(p, rows[p].cls))
    else if types[p].cls == Exhaustive && rows[p].reason == "" then Some(NoReason(p))
    else None
  }

  /** How the table writes a class. */
  ghost predicate IsTextOf(text: string, c: Class) {
    || (c == NonExhaustive && text == "non_exhaustive")
    || (c == PrivateFields && text == "private fields")
    || (c == Exhaustive && text == "exhaustive")
  }

  /** A stable type without a row, or whose row has another class or lacks its reason; or a row of no stable type. */
  ghost predicate IsProblem(types: Table, rows: map<Path, Row>, x: Problem) {
    match x
    case Unclassified(p) => p in types && p !in rows
    case WrongClass(p, listed) => p in types && p in rows && listed == rows[p].cls && !IsTextOf(listed, types[p].cls)
    case NoReason(p) =>
      p in types && p in rows && types[p].cls == Exhaustive && rows[p].cls == "exhaustive" && rows[p].reason == ""
    case NotStable(p) => p in rows && p !in types
  }

  lemma {:induction false} TextsExactly()
    ensures forall text, c :: IsTextOf(text, c) <==> text == ClassText(c)
  {
  }

  lemma {:induction false} ProblemExactlyWhen(types: Table, rows: map<Path, Row>, x: Problem)
    ensures IsProblem(types, rows, x) <==> ProblemAt(types, rows, x.path) == Some(x)
  {
  }

  /** The order problems are printed in: those of stable types first, each part by path. */
  ghost predicate Before(x: Problem, y: Problem) {
    if x.NotStable? == y.NotStable? then x.path != y.path && PathLeq(x.path, y.path) else y.NotStable?
  }

  ghost predicate InOrder(out: seq<Problem>) {
    forall i, j :: 0 <= i < j < |out| ==> Before(out[i], out[j])
  }

  /** These are the problems of the paths looked at so far. */
  ghost predicate Reported(types: Table, rows: map<Path, Row>, looked: seq<Path>, out: seq<Problem>) {
    InOrder(out) && forall x :: x in out <==> x.path in looked && ProblemAt(types, rows, x.path) == Some(x)
  }

  /** Stable types come first, each part by path. */
  ghost predicate Earlier(types: Table, p: Path, q: Path) {
    if p in types <==> q in types then p != q && PathLeq(p, q) else p in types
  }

  lemma {:induction false} LookAtOne(types: Table, rows: map<Path, Row>, looked: seq<Path>, out: seq<Problem>, p: Path)
    requires Reported(types, rows, looked, out) && forall q :: q in looked ==> Earlier(types, q, p)
    ensures var found := ProblemAt(types, rows, p);
            Reported(types, rows, looked + [p], if found.Some? then out + [found.value] else out)
  {
    hide PathLeq, ClassText;
    var found := ProblemAt(types, rows, p);
    forall x | x in out && found.Some?
      ensures Before(x, found.value)
    {
      assert Earlier(types, x.path, p);
    }
    hide ProblemAt, Before;
    assert found.Some? ==> found.value.path == p;
  }

  /** Every problem of the committed table, once, in order; none exactly when the table is right. */
  method Problems(types: Table, rows: map<Path, Row>) returns (out: seq<Problem>)
    ensures InOrder(out)
    ensures forall x :: x in out <==> IsProblem(types, rows, x)
    ensures out == [] <==> Agrees(types, rows)
  {
    hide PathLeq, Before, ClassText, InOrder, IsProblem;
    PathOrder();
    var listed := SortedSet(PathLeq, types.Keys);
    out := [];
    assert Reported(types, rows, [], out) by { NothingReported(types, rows); }
    var i := 0;
    while i < |listed|
      invariant i <= |listed| && Reported(types, rows, listed[..i], out)
    {
      assert listed[..i + 1] == listed[..i] + [listed[i]];
      LookAtOne(types, rows, listed[..i], out, listed[i]);
      var found := ProblemAt(types, rows, listed[i]);
      if found.Some? {
        out := out + [found.value];
      }
      i := i + 1;
    }
    var extra := SortedSet(PathLeq, rows.Keys - types.Keys);
    i := 0;
    assert listed[..|listed|] == listed == listed + extra[..0];
    while i < |extra|
      invariant i <= |extra| && Reported(types, rows, listed + extra[..i], out)
    {
      assert listed + extra[..i + 1] == listed + extra[..i] + [extra[i]];
      assert extra[i] in extra;
      LookAtOne(types, rows, listed + extra[..i], out, extra[i]);
      out := out + [NotStable(extra[i])];
      i := i + 1;
    }
    assert extra[..i] == extra;
    NoProblems(types, rows, out);
    forall x
      ensures x in out <==> IsProblem(types, rows, x)
    {
      ProblemExactlyWhen(types, rows, x);
    }
  }

  lemma {:induction false} NothingReported(types: Table, rows: map<Path, Row>)
    ensures Reported(types, rows, [], [])
  {
  }

  /** The committed table has a row for exactly the stable types, with their class, and a reason when exhaustive. */
  ghost predicate Agrees(types: Table, rows: map<Path, Row>) {
    && types.Keys == rows.Keys
    && forall p :: p in types && p in rows ==>
         IsTextOf(rows[p].cls, types[p].cls) && (types[p].cls == Exhaustive ==> rows[p].reason != "")
  }

  lemma {:induction false} NoProblems(types: Table, rows: map<Path, Row>, out: seq<Problem>)
    requires forall x :: x in out <==> ProblemAt(types, rows, x.path) == Some(x)
    ensures out == [] <==> Agrees(types, rows)
  {
    TextsExactly();
    hide ClassText, IsTextOf;
    forall p
      ensures ProblemAt(types, rows, p).Some? ==> ProblemAt(types, rows, p).value in out
    {
    }
    if out != [] {
      assert out[0] in out;
    } else {
      forall p
        ensures p in types <==> p in rows
        ensures p in types ==>
          IsTextOf(rows[p].cls, types[p].cls) && (types[p].cls == Exhaustive ==> rows[p].reason != "")
      {
        assert ProblemAt(types, rows, p) == None;
      }
      assert types.Keys == rows.Keys;
    }
  }
}
