/** When the order of items inside modules decides what the classification table says. */
module ClassificationOrder {
  import opened Ordering
  import opened Classification

  /** The same index with each module's items in another order. */
  ghost predicate Permuted(a: Doc, b: Doc) {
    a.Keys == b.Keys && forall id :: id in a ==> SameButOrder(a[id], b[id])
  }

  ghost predicate SameButOrder(x: Item, y: Item) {
    if x.inner.Module? then
      y.inner.Module? && x == y.(inner := x.inner) && multiset(x.inner.items) == multiset(y.inner.items)
    else x == y
  }

  lemma {:induction false} PermutedIsReordered(a: Doc, b: Doc)
    requires Permuted(a, b)
    ensures Reordered(a, b)
  {
    forall id | id in a
      ensures SameItem(a[id], b[id])
    {
      assert SameButOrder(a[id], b[id]);
      if a[id].inner.Module? {
        SameMembers(a[id].inner.items, b[id].inner.items);
      }
    }
  }

  /** Moves one child of a module to the front of its items. */
  ghost function Fronted(doc: Doc, m: Id, i: nat): Doc
    requires IsModule(doc, m) && i < |doc[m].inner.items|
  {
    var items := doc[m].inner.items;
    doc[m := doc[m].(inner := Module([items[i]] + Without(items, i)))]
  }

  lemma {:induction false} FrontedIsPermuted(doc: Doc, m: Id, i: nat)
    requires IsModule(doc, m) && i < |doc[m].inner.items|
    ensures Permuted(doc, Fronted(doc, m, i))
  {
    hide Without;
    var items := doc[m].inner.items;
    RemoveOne(items, i);
    var d := Fronted(doc, m, i);
    forall id | id in doc
      ensures SameButOrder(doc[id], d[id])
    {
    }
    assert d.Keys == doc.Keys;
  }

  lemma {:induction false} PermutedTransitive(a: Doc, b: Doc, c: Doc)
    requires Permuted(a, b) && Permuted(b, c)
    ensures Permuted(a, c)
  {
    forall id | id in a
      ensures SameButOrder(a[id], c[id])
    {
      assert SameButOrder(a[id], b[id]) && SameButOrder(b[id], c[id]);
    }
  }

  /** A walk's first record is its first child's, if that child leads to any. */
  lemma {:induction false} FirstChildFirst(doc: Doc, items: seq<Id>, prefix: seq<string>, seen: set<Id>)
    requires items != [] && WalkedItem(doc, items[0], prefix, seen) != []
    ensures WalkedItems(doc, items, prefix, seen) != []
    ensures WalkedItems(doc, items, prefix, seen)[0] == WalkedItem(doc, items[0], prefix, seen)[0]
  {
    hide WalkedItem;
    if |items| > 1 {
      FirstChildFirst(doc, items[..|items| - 1], prefix, seen);
    } else {
      assert items[..0] == [];
    }
  }

  /** Brings a child that leads this way to the front of its module. */
  lemma {:induction false} LeadFirst(doc: Doc, m: Id, lead: Lead) returns (d: Doc)
    requires IsModule(doc, m) && exists child :: child in doc[m].inner.items && Follow(doc, child) == lead
    ensures Permuted(doc, d) && IsModule(d, m) && forall k :: k in doc && k != m ==> d[k] == doc[k]
    ensures d[m].inner.items != [] && Follow(d, d[m].inner.items[0]) == lead
  {
    hide Follow;
    var child :| child in doc[m].inner.items && Follow(doc, child) == lead;
    var i :| 0 <= i < |doc[m].inner.items| && doc[m].inner.items[i] == child;
    d := Fronted(doc, m, i);
    FrontedIsPermuted(doc, m, i);
    PermutedIsReordered(doc, d);
    LeadsIgnoreOrder(doc, d, child);
  }

  /** A walk's first record is the first one its module's first child leads to. */
  lemma {:induction false} FirstIsWalked(d: Doc, m: Id, prefix: seq<string>, seen: set<Id>)
    requires IsModule(d, m) && m !in seen && d[m].inner.items != []
    requires WalkedItem(d, d[m].inner.items[0], prefix, seen + {m}) != []
    ensures Walked(d, m, prefix, seen) != []
    ensures Walked(d, m, prefix, seen)[0] == WalkedItem(d, d[m].inner.items[0], prefix, seen + {m})[0]
  {
    hide Walked, WalkedItems, WalkedItem;
    ModuleWalked(d, m, prefix, seen);
    FirstChildFirst(d, d[m].inner.items, prefix, seen + {m});
  }

  /** A longer route's first module is not opened again, and its next one is a module. */
  lemma {:induction false} RouteSteps(doc: Doc, m: Id, prefix: seq<string>, seen: set<Id>, step: Step, rest: seq<Step>,
                                      r: Record)
    requires Reaches(doc, m, prefix, seen, [step] + rest, r)
    ensures m !in seen && m !in Opened(step.to, rest) && IsModule(doc, step.to) && CanStep(doc, m, step)
    ensures Opened(m, [step] + rest) == [m] + Opened(step.to, rest)
    ensures Reaches(doc, step.to, prefix + step.part, seen + {m}, rest, r)
  {
    hide EndsAt, Follow;
    var route := [step] + rest;
    assert CanStep(doc, Opened(m, route)[0], route[0]);
    LongerFollows(doc, m, step, rest);
    assert Opened(m, route)[0] == m && m in Opened(m, route);
    LongerRoute(doc, m, prefix, seen, step, rest, r);
    var child :| child in doc[m].inner.items && Follow(doc, child) == Inside(step.to, step.part);
    LeadsAreInTheIndex(doc, child);
  }

  /** Any recorded type comes first in some order: bring each step of its route to the front. */
  lemma {:induction false} CanComeFirst(doc: Doc, m: Id, prefix: seq<string>, seen: set<Id>, route: seq<Step>,
                                        r: Record)
    returns (d: Doc)
    requires IsModule(doc, m) && Reaches(doc, m, prefix, seen, route, r)
    ensures Permuted(doc, d) && IsModule(d, m) && forall k :: k in doc && k !in Opened(m, route) ==> d[k] == doc[k]
    ensures Walked(d, m, prefix, seen) != [] && Walked(d, m, prefix, seen)[0].id == r.id
    decreases |route|
  {
    if route == [] {
      d := OwnTypeFirst(doc, m, prefix, seen, r);
    } else {
      hide *;
      var step, rest := route[0], route[1..];
      assert route == [step] + rest;
      RouteSteps(doc, m, prefix, seen, step, rest, r);
      var d1 := StepFirst(doc, m, prefix, seen, step, rest, r);
      d := CanComeFirst(d1, step.to, prefix + step.part, seen + {m}, rest, r);
      KeepStepFirst(doc, d1, d, m, prefix, seen, step, rest);
    }
  }

  lemma {:induction false} OwnTypeFirst(doc: Doc, m: Id, prefix: seq<string>, seen: set<Id>, r: Record) returns (d: Doc)
    requires IsModule(doc, m) && Reaches(doc, m, prefix, seen, [], r)
    ensures Permuted(doc, d) && IsModule(d, m) && forall k :: k in doc && k !in Opened(m, []) ==> d[k] == doc[k]
    ensures Walked(d, m, prefix, seen) != [] && Walked(d, m, prefix, seen)[0].id == r.id
  {
    hide Walked, WalkedItem, Follow;
    assert m in Opened(m, []);
    var name :| EndsAt(doc, m, prefix, [], r, name);
    d := LeadFirst(doc, m, Type(r.id, name));
    ItemWalked(d, d[m].inner.items[0], prefix, seen + {m});
    FirstIsWalked(d, m, prefix, seen);
  }

  lemma {:induction false} StepFirst(doc: Doc, m: Id, prefix: seq<string>, seen: set<Id>, step: Step, rest: seq<Step>,
                                     r: Record) returns (d: Doc)
    requires IsModule(doc, m) && CanStep(doc, m, step) && IsModule(doc, step.to)
    requires Reaches(doc, step.to, prefix + step.part, seen + {m}, rest, r)
    ensures Permuted(doc, d) && IsModule(d, m) && IsModule(d, step.to)
      && forall k :: k in doc && k != m ==> d[k] == doc[k]
    ensures d[m].inner.items != [] && Follow(d, d[m].inner.items[0]) == Inside(step.to, step.part)
    ensures Reaches(d, step.to, prefix + step.part, seen + {m}, rest, r)
  {
    hide Follow, Reaches;
    d := LeadFirst(doc, m, Inside(step.to, step.part));
    PermutedIsReordered(doc, d);
    RoutesIgnoreOrder(doc, d, step.to, prefix + step.part, seen + {m}, rest, r);
    LeadsAreInTheIndex(d, d[m].inner.items[0]);
  }

  lemma {:induction false} KeepStepFirst(doc: Doc, d1: Doc, d: Doc, m: Id, prefix: seq<string>, seen: set<Id>,
                                         step: Step, rest: seq<Step>)
    requires Permuted(doc, d1) && Permuted(d1, d) && IsModule(d1, m) && IsModule(d, step.to)
    requires m !in seen && m !in Opened(step.to, rest) && Opened(m, [step] + rest) == [m] + Opened(step.to, rest)
    requires forall k :: k in doc && k != m ==> d1[k] == doc[k]
    requires forall k :: k in d1 && k !in Opened(step.to, rest) ==> d[k] == d1[k]
    requires d1[m].inner.items != [] && Follow(d1, d1[m].inner.items[0]) == Inside(step.to, step.part)
    requires Walked(d, step.to, prefix + step.part, seen + {m}) != []
    ensures Permuted(doc, d) && IsModule(d, m)
      && forall k :: k in doc && k !in Opened(m, [step] + rest) ==> d[k] == doc[k]
    ensures Walked(d, m, prefix, seen) != []
    ensures Walked(d, m, prefix, seen)[0] == Walked(d, step.to, prefix + step.part, seen + {m})[0]
  {
    hide Walked, WalkedItem, Follow;
    PermutedTransitive(doc, d1, d);
    assert d[m] == d1[m];
    var child := d[m].inner.items[0];
    PermutedIsReordered(d1, d);
    LeadsIgnoreOrder(d1, d, child);
    ItemWalked(d, child, prefix, seen + {m});
    FirstIsWalked(d, m, prefix, seen);
  }

  // ---------------------------------------------------------------- which type the table lists

  lemma {:induction false} LastWins(doc: Doc, log: seq<Record>, ids: seq<Id>, i: nat)
    requires Listable(doc, log, ids) && i < |ids|
    requires forall j :: i < j < |ids| ==> Best(PathsOf(log, ids[j])) != Best(PathsOf(log, ids[i]))
    ensures var p := Best(PathsOf(log, ids[i]));
      p in TableOf(doc, log, ids) && TableOf(doc, log, ids)[p] == ShapeOf(doc[ids[i]])
  {
    hide Best, PathsOf, ShapeOf;
    if i < |ids| - 1 {
      LastWins(doc, log, ids[..|ids| - 1], i);
    }
  }

  ghost function PathFor(doc: Doc, root: Id, id: Id): Path
    requires IsModule(doc, root) && id in FirstMet(Log(doc, root))
  {
    LogIsListable(doc, root);
    Best(PathsOf(Log(doc, root), id))
  }

  ghost function ShapeFor(doc: Doc, root: Id, id: Id): Shape
    requires IsModule(doc, root) && id in FirstMet(Log(doc, root))
  {
    LogIsListable(doc, root);
    ShapeOf(doc[id])
  }

  /** `x` and `y` are the only two types preferring their path, and their shapes differ. */
  ghost predicate ClashAlone(doc: Doc, root: Id, x: Id, y: Id)
    requires IsModule(doc, root)
  {
    var ids := FirstMet(Log(doc, root));
    && x in ids && y in ids && PathFor(doc, root, x) == PathFor(doc, root, y)
    && ShapeFor(doc, root, x) != ShapeFor(doc, root, y)
    && forall z :: z in ids && PathFor(doc, root, z) == PathFor(doc, root, x) ==> z == x || z == y
  }

  /** When the walk meets `x` first, the table lists the other. */
  lemma {:induction false} FirstMetLoses(doc: Doc, root: Id, x: Id, y: Id)
    requires IsModule(doc, root) && ClashAlone(doc, root, x, y) && Log(doc, root) != [] && Log(doc, root)[0].id == x
    ensures var p := PathFor(doc, root, x); p in TableFor(doc, root) && TableFor(doc, root)[p] == ShapeFor(doc, root, y)
  {
    hide Best, PathsOf, ShapeOf, Walked, TableOf, FirstMet;
    LogIsListable(doc, root);
    var log, ids := Log(doc, root), FirstMet(Log(doc, root));
    FirstMetStarts(log);
    FirstMetIsEachOnce(log);
    var i :| 0 <= i < |ids| && ids[i] == y;
    forall j | i < j < |ids|
      ensures Best(PathsOf(log, ids[j])) != Best(PathsOf(log, y))
    {
      assert ids[j] in ids && ids[j] != ids[0] && ids[j] != ids[i];
      assert PathFor(doc, root, ids[j]) != PathFor(doc, root, x);
    }
    LastWins(doc, log, ids, i);
  }

  lemma {:induction false} FirstMetStarts(log: seq<Record>)
    requires log != []
    ensures FirstMet(log) != [] && FirstMet(log)[0] == log[0].id
  {
    if |log| > 1 {
      FirstMetStarts(log[..|log| - 1]);
    } else {
      assert log[..0] == [];
    }
  }

  /** The order of items changes neither the types, nor the path each prefers, nor their shapes. */
  lemma {:induction false} PermutedTypes(a: Doc, b: Doc, root: Id)
    requires IsModule(a, root) && IsModule(b, root) && Permuted(a, b)
    ensures forall id :: id in FirstMet(Log(a, root)) <==> id in FirstMet(Log(b, root))
    ensures forall id :: id in FirstMet(Log(a, root)) ==>
              PathFor(a, root, id) == PathFor(b, root, id) && ShapeFor(a, root, id) == ShapeFor(b, root, id)
  {
    hide Best, PathsOf, ShapeOf, Walked, FirstMet, Reordered;
    PermutedIsReordered(a, b);
    LogIsListable(a, root);
    LogIsListable(b, root);
    ReorderedTypes(a, b, root);
  }

  /** An order of the surface's items under which the walk meets this type first. */
  lemma {:induction false} MeetFirst(doc: Doc, root: Id, x: Id) returns (d: Doc)
    requires IsModule(doc, root) && x in FirstMet(Log(doc, root))
    ensures IsModule(d, root) && Permuted(doc, d) && Log(d, root) != [] && Log(d, root)[0].id == x
  {
    hide Walked, FirstMet, Reaches;
    FirstMetIsEachOnce(Log(doc, root));
    var r :| r in Log(doc, root) && r.id == x;
    var route := RecordHasRoute(doc, root, ["aitp"], {}, r);
    d := CanComeFirst(doc, root, ["aitp"], {}, route, r);
  }

  /** Two types that clash, with no third at their path: the order of items decides which one the table shows. */
  lemma {:induction false} ClashShowsInSomeOrder(doc: Doc, root: Id, x: Id, y: Id)
    requires IsModule(doc, root) && ClashAlone(doc, root, x, y)
    ensures exists d :: IsModule(d, root) && Permuted(doc, d) && TableFor(d, root) != TableFor(doc, root)
  {
    hide ShapeFor, FirstMet, TableFor, Log, PathFor, Permuted;
    var dx := MeetFirst(doc, root, x);
    var dy := MeetFirst(doc, root, y);
    PermutedTypes(doc, dx, root);
    PermutedTypes(doc, dy, root);
    FirstMetLoses(dx, root, x, y);
    FirstMetLoses(dy, root, y, x);
    assert TableFor(dx, root) != TableFor(dy, root);
  }

  /** No path is the preferred one of three types. */
  ghost predicate NoThird(doc: Doc, root: Id)
    requires IsModule(doc, root)
  {
    var ids := FirstMet(Log(doc, root));
    forall x, y, z ::
      (x in ids && y in ids && z in ids && PathFor(doc, root, x) == PathFor(doc, root, y) == PathFor(doc, root, z)) ==>
      x == y || y == z || z == x
  }

  /** Where paths are shared by two types at most, the table is the same for every order exactly when no two clash. */
  lemma {:induction false} ClashDecidesForTwo(doc: Doc, root: Id)
    requires IsModule(doc, root) && NoThird(doc, root)
    ensures (forall d :: IsModule(d, root) && Permuted(doc, d) ==> TableFor(d, root) == TableFor(doc, root))
      <==> IsClashFree(doc, root)
  {
    hide Best, PathsOf, ShapeOf, Walked, FirstMet, TableFor, Permuted, Reordered, Log;
    if IsClashFree(doc, root) {
      forall d | IsModule(d, root) && Permuted(doc, d)
        ensures TableFor(d, root) == TableFor(doc, root)
      {
        PermutedIsReordered(doc, d);
        TableIgnoresOrder(doc, d, root);
      }
    } else {
      var x, y := FindClash(doc, root);
      ClashShowsInSomeOrder(doc, root, x, y);
    }
  }

  lemma {:induction false} FindClash(doc: Doc, root: Id) returns (x: Id, y: Id)
    requires IsModule(doc, root) && NoThird(doc, root) && !IsClashFree(doc, root)
    ensures ClashAlone(doc, root, x, y)
  {
    hide Best, PathsOf, ShapeOf, Walked, FirstMet;
    LogIsListable(doc, root);
    var log := Log(doc, root);
    var ids := FirstMet(log);
    x, y :| x in ids && y in ids && Clash(doc, log, x, y);
    assert PathFor(doc, root, x) == PathFor(doc, root, y);
  }
}
