/** The gate on the stable API: what a later snapshot may add to an earlier one, and what breaks it. */
module BreakGate {
  import opened Basics

  /** A primary path, split at `::`. */
  type Path = seq<string>

  /** What a line declares: a struct or enum, another item, an impl or re-export, or a member of a type. */
  datatype Shape =
    | TypeDef(isEnum: bool, nonExhaustive: bool)
    | OtherItem
    | ImplOrUse
    | Member

  datatype Line = Line(text: string, shape: Shape, path: Path)

  datatype Break =
    | Removed(line: Line)
    | AddedToExhaustive(line: Line, parent: Path)

  // ---------------------------------------------------------------- the gate

  /** The definition the gate keeps for each type: that of its last line. */
  type Types = map<Path, Shape>

  function TypesOf(lines: seq<Line>): (types: Types) {
    if lines == [] then map[]
    else
      var l := lines[|lines| - 1];
      var before := TypesOf(lines[..|lines| - 1]);
      if l.shape.TypeDef? then before[l.path := l.shape] else before
  }

  method ReadTypes(lines: seq<Line>) returns (types: Types)
    ensures types == TypesOf(lines)
  {
    types := map[];
    var i := 0;
    while i < |lines|
      invariant i <= |lines| && types == TypesOf(lines[..i])
    {
      assert lines[..i + 1][..i] == lines[..i];
      if lines[i].shape.TypeDef? {
        types := types[lines[i].path := lines[i].shape];
      }
      i := i + 1;
    }
    assert lines[..i] == lines;
  }

  /** The path without its last `n` names. */
  function Parent(path: Path, n: nat): Path {
    if n <= |path| then path[..|path| - n] else []
  }

  predicate InBoth(base: Types, head: Types, p: Path) {
    p in head && p in base
  }

  /** The type in both snapshots that a member line belongs to: the nearer of its two parents. */
  function Owner(base: Types, head: Types, path: Path): Option<Path> {
    if InBoth(base, head, Parent(path, 1)) then Some(Parent(path, 1))
    else if InBoth(base, head, Parent(path, 2)) then Some(Parent(path, 2))
    else None
  }

  /** A variant's field is two names below its enum; nothing else is looked at from that far. */
  predicate Counts(head: Types, p: Path, path: Path)
    requires p in head
  {
    head[p].TypeDef? && !head[p].nonExhaustive && (head[p].isEnum || p == Parent(path, 1))
  }

  predicate IsAddition(base: seq<Line>, l: Line) {
    l !in base && l.shape.Member? && forall m :: m in base ==> m.path != l.path
  }

  method FindBreaks(base: seq<Line>, head: seq<Line>) returns (breaks: seq<Break>)
    ensures forall b :: b in breaks <==> IsBreak(base, head, b)
    ensures breaks == [] <==> Passes(base, head)
  {
    hide Counts, Owner, IsAddition;
    breaks := [];
    var i := 0;
    while i < |base|
      invariant i <= |base|
      invariant forall b :: b in breaks <==> b.Removed? && b.line in base[..i] && IsBreak(base, head, b)
    {
      assert base[..i + 1] == base[..i] + [base[i]];
      if base[i] !in head {
        breaks := breaks + [Removed(base[i])];
      }
      i := i + 1;
    }
    assert base[..i] == base;
    var headTypes := ReadTypes(head);
    var baseTypes := ReadTypes(base);
    i := 0;
    while i < |head|
      invariant i <= |head|
      invariant forall b :: b in breaks <==> (b.Removed? || b.line in head[..i]) && IsBreak(base, head, b)
    {
      assert head[..i + 1] == head[..i] + [head[i]];
      var l := head[i];
      if IsAddition(base, l) {
        var parent := Owner(baseTypes, headTypes, l.path);
        OwnerIsInBoth(baseTypes, headTypes, l.path);
        if parent.Some? && Counts(headTypes, parent.value, l.path) {
          breaks := breaks + [AddedToExhaustive(l, parent.value)];
        }
      }
      i := i + 1;
    }
    assert head[..i] == head;
    NoneIsPassing(base, head, breaks);
  }

  lemma {:induction false} OwnerIsInBoth(base: Types, head: Types, path: Path)
    ensures var p := Owner(base, head, path); p.Some? ==> p.value in head && p.value in base
  {
  }

  ghost predicate IsBreak(base: seq<Line>, head: seq<Line>, b: Break) {
    match b
    case Removed(l) => l in base && l !in head
    case AddedToExhaustive(l, p) =>
      && l in head && IsAddition(base, l) && p in TypesOf(head)
      && Owner(TypesOf(base), TypesOf(head), l.path) == Some(p) && Counts(TypesOf(head), p, l.path)
  }

  ghost predicate Passes(base: seq<Line>, head: seq<Line>) {
    forall b :: !IsBreak(base, head, b)
  }

  lemma {:induction false} NoneIsPassing(base: seq<Line>, head: seq<Line>, breaks: seq<Break>)
    requires forall b :: b in breaks <==> IsBreak(base, head, b)
    ensures breaks == [] <==> Passes(base, head)
  {
    hide IsBreak;
    if breaks != [] {
      assert breaks[0] in breaks;
    }
  }

  // ---------------------------------------------------------------- what passing means

  /** A member line is the only line at its path. */
  ghost predicate MembersAreAlone(lines: seq<Line>) {
    forall l, m :: l in lines && m in lines && l.shape.Member? && l.path == m.path ==> l == m
  }

  /** A type has one definition. */
  ghost predicate TypesAreDefinedOnce(lines: seq<Line>) {
    forall l, m :: l in lines && m in lines && l.shape.TypeDef? && m.shape.TypeDef? && l.path == m.path ==>
      l.shape == m.shape
  }

  /** No type sits directly under the path of another. */
  ghost predicate TypesDoNotNest(lines: seq<Line>) {
    forall l, m :: l in lines && m in lines && l.shape.TypeDef? && m.shape.TypeDef? && l.path != [] ==>
      m.path != Parent(l.path, 1)
  }

  ghost predicate IsTidy(lines: seq<Line>) {
    TypesAreDefinedOnce(lines) && TypesDoNotNest(lines)
  }

  ghost predicate HasPath(lines: seq<Line>, p: Path) {
    exists m :: m in lines && m.path == p
  }

  /** The type `p` is defined by one of these lines. */
  ghost predicate Defines(lines: seq<Line>, p: Path, shape: Shape) {
    exists l :: l in lines && l.shape == shape && l.shape.TypeDef? && l.path == p
  }

  /** `l` is a field or variant of the type at `p`, or a field of one of its variants. */
  ghost predicate IsMemberOf(l: Line, p: Path, shape: Shape) {
    l.shape.Member? && shape.TypeDef? && (p == Parent(l.path, 1) || (shape.isEnum && p == Parent(l.path, 2)))
  }

  /** Every line stays, and a type whose definition invites exhaustive use keeps exactly its members. */
  ghost predicate IsCompatible(base: seq<Line>, head: seq<Line>) {
    && (forall l :: l in base ==> l in head)
    && (forall p, shape, l :: l in head && MustStay(base, head, p, shape, l) ==> l in base)
  }

  ghost predicate MustStay(base: seq<Line>, head: seq<Line>, p: Path, shape: Shape, l: Line) {
    Defines(head, p, shape) && !shape.nonExhaustive && (exists was :: Defines(base, p, was)) && IsMemberOf(l, p, shape)
  }

  lemma {:induction false} TypesAreDefined(lines: seq<Line>, p: Path)
    ensures p in TypesOf(lines) ==> Defines(lines, p, TypesOf(lines)[p])
    ensures p !in TypesOf(lines) ==> forall shape :: !Defines(lines, p, shape)
  {
    if lines != [] {
      var front, l := lines[..|lines| - 1], lines[|lines| - 1];
      assert lines == front + [l];
      TypesAreDefined(front, p);
      if p in TypesOf(front) && (!l.shape.TypeDef? || l.path != p) {
        assert Defines(front, p, TypesOf(lines)[p]);
      }
      if p !in TypesOf(lines) {
        forall shape
          ensures !Defines(lines, p, shape)
        {
          assert !Defines(front, p, shape);
        }
      }
    }
  }

  /** A member added to a type that must keep its members. */
  ghost predicate IsAddedTo(base: seq<Line>, head: seq<Line>, p: Path, shape: Shape, l: Line) {
    l in head && l !in base && MustStay(base, head, p, shape, l)
  }

  /** An added member at the path of some base line: the gate takes it for a change of that line. */
  ghost predicate IsHidden(base: seq<Line>, head: seq<Line>, p: Path, shape: Shape, l: Line) {
    IsAddedTo(base, head, p, shape, l) && HasPath(base, l.path)
  }

  /** Every line stays, and members added where they must not be are hidden. */
  ghost predicate LooksCompatible(base: seq<Line>, head: seq<Line>) {
    && (forall l :: l in base ==> l in head)
    && (forall p, shape, l :: IsAddedTo(base, head, p, shape, l) ==> HasPath(base, l.path))
  }

  /** The gate passes exactly the changes that keep every line and hide each member they add. */
  lemma {:induction false} PassesExactlyWhen(base: seq<Line>, head: seq<Line>)
    requires IsTidy(head)
    ensures Passes(base, head) <==> LooksCompatible(base, head)
  {
    if Passes(base, head) {
      PassingLooksCompatible(base, head);
    }
    if LooksCompatible(base, head) {
      CompatiblePasses(base, head);
    }
  }

  /** So a change is compatible exactly when it passes and hides nothing. */
  lemma {:induction false} IsCompatibleExactlyWhen(base: seq<Line>, head: seq<Line>)
    requires IsTidy(head)
    ensures IsCompatible(base, head) <==>
            Passes(base, head) && forall p, shape, l :: !IsHidden(base, head, p, shape, l)
  {
    hide IsTidy, Passes, MustStay, HasPath;
    PassesExactlyWhen(base, head);
    if Passes(base, head) && forall p, shape, l :: !IsHidden(base, head, p, shape, l) {
      forall p, shape, l | l in head && MustStay(base, head, p, shape, l)
        ensures l in base
      {
        assert l !in base ==> IsAddedTo(base, head, p, shape, l);
        assert !IsHidden(base, head, p, shape, l);
      }
    }
  }

  /** Where members stand alone nothing is hidden, and the gate passes exactly the compatible changes. */
  lemma {:induction false} PassesExactlyWhenCompatible(base: seq<Line>, head: seq<Line>)
    requires IsTidy(head) && MembersAreAlone(head)
    ensures Passes(base, head) <==> IsCompatible(base, head)
  {
    hide IsTidy, Passes;
    PassesExactlyWhen(base, head);
    IsCompatibleExactlyWhen(base, head);
    if Passes(base, head) {
      forall p, shape, l
        ensures !IsHidden(base, head, p, shape, l)
      {
      }
    }
  }

  /** What looks compatible passes, tidy or not. */
  lemma {:induction false} CompatiblePasses(base: seq<Line>, head: seq<Line>)
    requires LooksCompatible(base, head)
    ensures Passes(base, head)
  {
    forall b
      ensures !IsBreak(base, head, b)
    {
      if b.AddedToExhaustive? && IsBreak(base, head, b) {
        BreakIsAddedTo(base, head, b.line, b.parent);
        assert false;
      }
    }
  }

  lemma {:induction false} BreakIsAddedTo(base: seq<Line>, head: seq<Line>, l: Line, p: Path)
    requires IsBreak(base, head, AddedToExhaustive(l, p))
    ensures IsAddedTo(base, head, p, TypesOf(head)[p], l) && !HasPath(base, l.path)
  {
    hide TypesOf, Defines;
    TypesAreDefined(head, p);
    TypesAreDefined(base, p);
  }

  lemma {:induction false} PassingLooksCompatible(base: seq<Line>, head: seq<Line>)
    requires IsTidy(head) && Passes(base, head)
    ensures LooksCompatible(base, head)
  {
    hide IsTidy, MustStay;
    forall l | l in base
      ensures l in head
    {
      assert !IsBreak(base, head, Removed(l));
    }
    forall p, shape, l | IsAddedTo(base, head, p, shape, l)
      ensures HasPath(base, l.path)
    {
      if !HasPath(base, l.path) {
        OwnerOfMember(base, head, p, shape, l);
        assert false;
      }
    }
  }

  lemma {:induction false} OwnerOfMember(base: seq<Line>, head: seq<Line>, p: Path, shape: Shape, l: Line)
    requires IsTidy(head) && forall m :: m in base ==> m in head
    requires IsAddedTo(base, head, p, shape, l) && !HasPath(base, l.path)
    ensures IsBreak(base, head, AddedToExhaustive(l, p))
  {
    hide TypesOf;
    TypesAreDefined(head, p);
    TypesAreDefined(base, p);
    var d := Parent(l.path, 1);
    TypesAreDefined(head, d);
    assert Defines(head, p, TypesOf(head)[p]);
    assert TypesOf(head)[p] == shape;
    if d in TypesOf(head) && d != [] {
      NotNested(head, d, TypesOf(head)[d], p, shape);
    }
  }

  lemma {:induction false} NotNested(lines: seq<Line>, d: Path, inner: Shape, p: Path, outer: Shape)
    requires TypesDoNotNest(lines) && Defines(lines, d, inner) && Defines(lines, p, outer) && d != []
    ensures p != Parent(d, 1)
  {
    var x :| x in lines && x.shape.TypeDef? && x.path == d;
    var y :| y in lines && y.shape.TypeDef? && y.path == p;
  }

  /** A member that only the second change adds, and that a line only the first one adds hides. */
  ghost predicate IsSheltered(a: seq<Line>, b: seq<Line>, c: seq<Line>, p: Path, shape: Shape, l: Line) {
    l in c && l !in b && MustStay(a, c, p, shape, l) && HasPath(b, l.path) && !HasPath(a, l.path)
  }

  /** Two changes the gate passes make one it passes exactly when the first hides nothing that the second adds. */
  lemma {:induction false} PassesComposeExactlyWhen(a: seq<Line>, b: seq<Line>, c: seq<Line>)
    requires IsTidy(c) && Passes(a, b) && Passes(b, c)
    ensures Passes(a, c) <==> forall p, shape, l :: !IsSheltered(a, b, c, p, shape, l)
  {
    hide Passes;
    PassesExactlyWhen(b, c);
    SmallerIsTidy(b, c);
    PassesExactlyWhen(a, b);
    PassesExactlyWhen(a, c);
    hide IsTidy, MustStay, HasPath;
    if Passes(a, c) {
      forall p, shape, l
        ensures !IsSheltered(a, b, c, p, shape, l)
      {
        assert IsSheltered(a, b, c, p, shape, l) ==> IsAddedTo(a, c, p, shape, l);
      }
    }
    if forall p, shape, l :: !IsSheltered(a, b, c, p, shape, l) {
      forall p, shape, l | IsAddedTo(a, c, p, shape, l)
        ensures HasPath(a, l.path)
      {
        AddedBefore(a, b, c, p, shape, l);
        assert !IsSheltered(a, b, c, p, shape, l);
      }
    }
  }

  /** Where members stand alone two changes the gate passes always make one it passes. */
  lemma {:induction false} PassesCompose(a: seq<Line>, b: seq<Line>, c: seq<Line>)
    requires IsTidy(c) && MembersAreAlone(c) && Passes(a, b) && Passes(b, c)
    ensures Passes(a, c)
  {
    hide IsTidy, Passes;
    PassesComposeExactlyWhen(a, b, c);
    PassesExactlyWhen(b, c);
    forall p, shape, l
      ensures !IsSheltered(a, b, c, p, shape, l)
    {
    }
  }

  /** A type that must keep its members over both changes must over each. */
  lemma {:induction false} AddedBefore(a: seq<Line>, b: seq<Line>, c: seq<Line>, p: Path, shape: Shape, l: Line)
    requires IsTidy(c) && (forall m :: m in a ==> m in b) && (forall m :: m in b ==> m in c)
    requires IsAddedTo(a, c, p, shape, l)
    ensures if l in b then IsAddedTo(a, b, p, shape, l) else IsAddedTo(b, c, p, shape, l)
  {
    var was :| Defines(a, p, was);
    var m :| m in a && m.shape == was && m.path == p;
    assert m in b;
    assert Defines(b, p, was);
    var n :| n in c && n.shape == shape && shape.TypeDef? && n.path == p;
    assert was == shape;
  }

  lemma {:induction false} SmallerIsTidy(few: seq<Line>, many: seq<Line>)
    requires IsTidy(many) && forall l :: l in few ==> l in many
    ensures IsTidy(few)
  {
  }

  // ---------------------------------------------------------------- any three snapshots

  /** The member was new to the second change only, and had a line of its path in the first one's head. */
  ghost predicate WasSheltered(b: seq<Line>, l: Line) {
    l !in b && HasPath(b, l.path)
  }

  /** The first change brought in a type between the member and its type, which then owned it. */
  ghost predicate WasAdopted(a: seq<Line>, b: seq<Line>, c: seq<Line>, l: Line, p: Path) {
    var d := Parent(l.path, 1);
    l !in b && d != p && d !in TypesOf(a) && InBoth(TypesOf(b), TypesOf(c), d)
  }

  /** The first change let the member in, and the second no longer would. */
  ghost predicate WasRetracted(b: seq<Line>, c: seq<Line>, l: Line, p: Path)
    requires p in TypesOf(b) && p in TypesOf(c)
  {
    l in b && !Counts(TypesOf(b), p, l.path) && Counts(TypesOf(c), p, l.path)
  }

  /** Whatever two passing changes break together is an added member, for one of these three reasons. */
  lemma {:induction false} BreaksTogetherOnlyBy(a: seq<Line>, b: seq<Line>, c: seq<Line>, x: Break)
    requires Passes(a, b) && Passes(b, c) && IsBreak(a, c, x)
    ensures x.AddedToExhaustive? && x.parent in TypesOf(b) && x.parent in TypesOf(c)
    ensures WasSheltered(b, x.line) || WasAdopted(a, b, c, x.line, x.parent) || WasRetracted(b, c, x.line, x.parent)
  {
    PassingKeepsTypes(a, b);
    PassingKeepsTypes(b, c);
    hide TypesOf, Counts;
    assert x.AddedToExhaustive?;
    var l, p := x.line, x.parent;
    if l in b {
      assert !IsBreak(a, b, AddedToExhaustive(l, p));
    } else if !HasPath(b, l.path) {
      assert IsAddition(b, l);
      var q := Owner(TypesOf(b), TypesOf(c), l.path);
      assert !IsBreak(b, c, AddedToExhaustive(l, q.value));
    }
  }

  lemma {:induction false} PassingKeepsTypes(base: seq<Line>, head: seq<Line>)
    requires Passes(base, head)
    ensures forall l :: l in base ==> l in head
    ensures forall p :: p in TypesOf(base) ==> p in TypesOf(head)
  {
    forall l | l in base
      ensures l in head
    {
      assert !IsBreak(base, head, Removed(l));
    }
    hide TypesOf;
    forall p | p in TypesOf(base)
      ensures p in TypesOf(head)
    {
      TypesAreDefined(base, p);
      TypesAreDefined(head, p);
      assert Defines(head, p, TypesOf(base)[p]);
    }
  }

  /** A snapshot never breaks itself, however its lines are ordered or repeated. */
  lemma {:induction false} PassesItself(a: seq<Line>, b: seq<Line>)
    requires forall l :: l in a <==> l in b
    ensures Passes(a, b)
  {
    CompatiblePasses(a, b);
  }

  // ---------------------------------------------------------------- what untidy snapshots hide

  lemma {:induction false} AdditionBreaks(base: seq<Line>, head: seq<Line>, l: Line, p: Path, shape: Shape)
    requires l in head && IsAddition(base, l) && p == Parent(l.path, 1) && IsMemberOf(l, p, shape)
      && !shape.nonExhaustive
    requires p in TypesOf(base) && p in TypesOf(head) && TypesOf(head)[p] == shape
    ensures !Passes(base, head)
  {
    assert IsBreak(base, head, AddedToExhaustive(l, p));
  }

  lemma {:induction false} LastDefinition(lines: seq<Line>, p: Path, at: nat)
    requires at < |lines| && lines[at].shape.TypeDef? && lines[at].path == p
    requires forall j :: at < j < |lines| ==> !(lines[j].shape.TypeDef? && lines[j].path == p)
    ensures p in TypesOf(lines) && TypesOf(lines)[p] == lines[at].shape
  {
    if at < |lines| - 1 {
      LastDefinition(lines[..|lines| - 1], p, at);
    }
  }

  /**
   A method and a field of one name have one primary path, so a public field added beside a
   method of its name is taken for a change of the method, and the change is not reported.
   */
  lemma {:induction false} MethodHidesAddedField(t: Line, getter: Line, field: Line)
    requires t.shape == TypeDef(false, false) && getter.shape == OtherItem && field.shape == Member
    requires t.path != [] && getter.path == field.path == t.path + ["f"]
    ensures TypesAreDefinedOnce([t, getter, field]) && TypesDoNotNest([t, getter, field])
    ensures Passes([t], [t, getter]) && Passes([t, getter], [t, getter, field]) && !Passes([t], [t, getter, field])
  {
    hide TypesOf;
    var a, b, c := [t], [t, getter], [t, getter, field];
    assert getter in b && field in c;
    assert forall l :: IsAddition(a, l) ==> l !in b;
    assert forall l :: IsAddition(b, l) ==> l !in c;
    LastDefinition(a, t.path, 0);
    LastDefinition(c, t.path, 0);
    AdditionBreaks(a, c, field, t.path, t.shape);
  }

  /** With two definitions of a type the later line decides, and a member let in before it counts as added. */
  lemma {:induction false} SecondDefinitionRetracts(open: Line, closed: Line, field: Line)
    requires open.shape == TypeDef(false, true) && closed.shape == TypeDef(false, false) && field.shape == Member
    requires open.path == closed.path != [] && field.path == open.path + ["f"]
    ensures MembersAreAlone([open, closed, field]) && TypesDoNotNest([open, closed, field])
    ensures Passes([open], [open, field]) && Passes([open, field], [open, closed, field])
      && !Passes([open], [open, closed, field])
  {
    hide TypesOf;
    var p := open.path;
    var a, b, c := [open], [open, field], [open, closed, field];
    assert field in b && field in c;
    LastDefinition(a, p, 0);
    LastDefinition(b, p, 0);
    LastDefinition(c, p, 1);
    forall x
      ensures !IsBreak(a, b, x)
    {
      assert x.AddedToExhaustive? && x.line in b && IsAddition(a, x.line) ==> x.line == field;
    }
    assert forall l :: IsAddition(b, l) ==> l !in c;
    AdditionBreaks(a, c, field, p, closed.shape);
  }

  /** A type nested in an enum owns its members only once both snapshots have it. */
  lemma {:induction false} NestedTypeChangesOwner(outer: Line, inner: Line, field: Line)
    requires outer.shape == TypeDef(true, false) && inner.shape == TypeDef(false, true) && field.shape == Member
    requires outer.path != [] && inner.path == outer.path + ["D"] && field.path == inner.path + ["f"]
    ensures MembersAreAlone([outer, inner, field]) && TypesAreDefinedOnce([outer, inner, field])
    ensures Passes([outer], [outer, inner]) && Passes([outer, inner], [outer, inner, field])
    ensures !Passes([outer], [outer, inner, field])
  {
    hide TypesOf;
    var a, b, c := [outer], [outer, inner], [outer, inner, field];
    assert field in c && inner in b;
    LastDefinition(a, outer.path, 0);
    LastDefinition(b, inner.path, 1);
    LastDefinition(c, outer.path, 0);
    LastDefinition(c, inner.path, 1);
    assert Parent(field.path, 1) == inner.path && Parent(field.path, 2) == outer.path;
    assert forall l :: IsAddition(a, l) ==> l !in b;
    forall x
      ensures !IsBreak(b, c, x)
    {
      assert x.AddedToExhaustive? && x.line in c && IsAddition(b, x.line) ==> x.line == field;
    }
    TypesAreDefined(a, inner.path);
    if inner.path in TypesOf(a) {
      assert false;
    }
    assert IsBreak(a, c, AddedToExhaustive(field, outer.path));
  }
}
