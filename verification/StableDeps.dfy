/** The gate on pre-1.0 dependencies: the crates `aitp` reaches, and the ones its stable surface names. */
module StableDeps {
  import opened Basics
  import opened Ordering

  datatype Id = Id(text: string)

  /** A dependency edge, with the kind of each way it is declared: none is a normal dependency. */
  datatype Dep = Dep(package: Id, kinds: seq<Option<string>>)

  datatype Target = Target(name: string, isLib: bool)

  /** A package and its node in the resolved graph. */
  datatype Package = Package(name: string, version: string, targets: seq<Target>, deps: seq<Dep>)

  type Graph = map<Id, Package>

  predicate IsNormal(d: Dep) {
    None in d.kinds
  }

  // ---------------------------------------------------------------- reachability

  ghost predicate IsEdge(g: Graph, a: Id, b: Id) {
    a in g && exists d :: d in g[a].deps && IsNormal(d) && d.package == b
  }

  ghost predicate IsChain(g: Graph, chain: seq<Id>) {
    chain != [] && forall i, j :: 0 <= i < |chain| - 1 && j == i + 1 ==> IsEdge(g, chain[i], chain[j])
  }

  ghost predicate Leads(g: Graph, chain: seq<Id>, a: Id, b: Id) {
    IsChain(g, chain) && chain[0] == a && chain[|chain| - 1] == b
  }

  /** Normal dependencies lead from `root` to `p`. */
  ghost predicate Reaches(g: Graph, root: Id, p: Id) {
    exists chain :: Leads(g, chain, root, p)
  }

  lemma {:induction false} ReachesItself(g: Graph, root: Id)
    ensures Reaches(g, root, root)
  {
    assert Leads(g, [root], root, root);
  }

  lemma {:induction false} ReachesOneMore(g: Graph, root: Id, p: Id, q: Id)
    requires Reaches(g, root, p) && IsEdge(g, p, q)
    ensures Reaches(g, root, q)
  {
    hide IsEdge;
    var chain :| Leads(g, chain, root, p);
    assert Leads(g, chain + [q], root, q);
  }

  lemma {:induction false} ClosedHoldsChain(g: Graph, seen: set<Id>, chain: seq<Id>)
    requires IsChain(g, chain) && chain[0] in seen
    requires forall p, q :: p in seen && IsEdge(g, p, q) ==> q in seen
    ensures chain[|chain| - 1] in seen
  {
    hide IsEdge;
    if |chain| > 1 {
      var front := chain[..|chain| - 1];
      ClosedHoldsChain(g, seen, front);
      assert IsEdge(g, chain[|chain| - 2], chain[|chain| - 1]);
    }
  }

  // ---------------------------------------------------------------- the worklist

  /** What is still to visit may hold a package more than once, and packages already seen. */
  ghost predicate Exploring(g: Graph, root: Id, seen: set<Id>, todo: seq<Id>) {
    && seen <= g.Keys && (root in seen || root in todo)
    && (forall p :: p in seen || p in todo ==> Reaches(g, root, p))
    && (forall p, q :: p in seen && IsEdge(g, p, q) ==> q in seen || q in todo)
  }

  lemma {:induction false} Explored(g: Graph, root: Id, seen: set<Id>)
    requires Exploring(g, root, seen, [])
    ensures forall p :: p in seen <==> Reaches(g, root, p)
  {
    hide IsEdge;
    forall p | Reaches(g, root, p)
      ensures p in seen
    {
      var chain :| Leads(g, chain, root, p);
      ClosedHoldsChain(g, seen, chain);
    }
  }

  lemma {:induction false} SkipSeen(g: Graph, root: Id, seen: set<Id>, todo: seq<Id>)
    requires todo != [] && Exploring(g, root, seen, todo) && todo[|todo| - 1] in seen
    ensures Exploring(g, root, seen, todo[..|todo| - 1])
  {
    hide IsEdge, Reaches;
    assert todo == todo[..|todo| - 1] + [todo[|todo| - 1]];
  }

  lemma {:induction false} Expand(g: Graph, root: Id, seen: set<Id>, todo: seq<Id>, more: seq<Id>)
    requires todo != [] && Exploring(g, root, seen, todo) && todo[|todo| - 1] in g
    requires forall q :: q in more <==> IsEdge(g, todo[|todo| - 1], q)
    ensures Exploring(g, root, seen + {todo[|todo| - 1]}, todo[..|todo| - 1] + more)
  {
    hide IsEdge, Reaches;
    var p := todo[|todo| - 1];
    assert todo == todo[..|todo| - 1] + [p];
    forall q | q in more
      ensures Reaches(g, root, q)
    {
      ReachesOneMore(g, root, p, q);
    }
  }

  method NormalDeps(g: Graph, p: Id) returns (more: seq<Id>)
    requires p in g
    ensures forall q :: q in more <==> IsEdge(g, p, q)
  {
    var deps := g[p].deps;
    more := [];
    var i := 0;
    while i < |deps|
      invariant i <= |deps|
      invariant forall q :: q in more <==> exists d :: d in deps[..i] && IsNormal(d) && d.package == q
    {
      assert deps[..i + 1] == deps[..i] + [deps[i]];
      if IsNormal(deps[i]) {
        more := more + [deps[i].package];
      }
      i := i + 1;
    }
    assert deps[..i] == deps;
  }

  /** Every package the root reaches, or one it reaches that the metadata does not list. */
  method Reached(g: Graph, root: Id) returns (r: Result<set<Id>, Id>)
    ensures r.Ok? <==> forall p :: Reaches(g, root, p) ==> p in g
    ensures r.Ok? ==> forall p :: p in r.value <==> Reaches(g, root, p)
    ensures r.Err? ==> Reaches(g, root, r.error) && r.error !in g
  {
    hide IsEdge, Reaches;
    ReachesItself(g, root);
    var seen, todo := {}, [root];
    while todo != []
      invariant Exploring(g, root, seen, todo)
      decreases |g.Keys - seen|, |todo|
    {
      var p := todo[|todo| - 1];
      assert p in todo;
      if p in seen {
        SkipSeen(g, root, seen, todo);
        todo := todo[..|todo| - 1];
        continue;
      }
      if p !in g {
        return Err(p);
      }
      var more := NormalDeps(g, p);
      Expand(g, root, seen, todo, more);
      assert g.Keys - seen == (g.Keys - (seen + {p})) + {p};
      seen, todo := seen + {p}, todo[..|todo| - 1] + more;
    }
    Explored(g, root, seen);
    r := Ok(seen);
  }

  // ---------------------------------------------------------------- crate names and versions

  /** A crate as paths name it. */
  datatype Crate = Crate(name: string)

  function PathName(name: string): (r: string)
    ensures |r| == |name| && forall i :: 0 <= i < |name| ==> r[i] == if name[i] == '-' then '_' else name[i]
  {
    seq(|name|, i requires 0 <= i < |name| => if name[i] == '-' then '_' else name[i])
  }

  function Names(p: Package): set<Crate> {
    {Crate(PathName(p.name))} + set t | t in p.targets && t.isLib :: Crate(PathName(t.name))
  }

  /** One text is the other with its dashes turned into underscores. */
  ghost predicate IsPathNameOf(path: string, name: string) {
    |path| == |name| && forall i :: 0 <= i < |name| ==> path[i] == if name[i] == '-' then '_' else name[i]
  }

  /** Paths can name a package by its own name or by that of one of its libraries. */
  ghost predicate IsNamedBy(p: Package, c: Crate) {
    IsPathNameOf(c.name, p.name) || exists t :: t in p.targets && t.isLib && IsPathNameOf(c.name, t.name)
  }

  lemma {:induction false} NamesExactly(p: Package, c: Crate)
    ensures c in Names(p) <==> IsNamedBy(p, c)
  {
    forall name | IsPathNameOf(c.name, name)
      ensures c.name == PathName(name)
    {
    }
    if t :| t in p.targets && t.isLib && IsPathNameOf(c.name, t.name) {
      assert Crate(PathName(t.name)) in Names(p);
    }
  }

  type Versions = map<Crate, set<string>>

  /** The versions of a crate among these packages. */
  ghost function VersionsOf(g: Graph, packages: set<Id>, c: Crate): set<string>
    requires packages <= g.Keys
  {
    set p | p in packages && IsNamedBy(g[p], c) :: g[p].version
  }

  ghost predicate Lists(g: Graph, packages: set<Id>, versions: Versions) {
    && packages <= g.Keys
    && forall c :: (c in versions <==> VersionsOf(g, packages, c) != {})
                   && (c in versions ==> versions[c] == VersionsOf(g, packages, c))
  }

  /** Every crate the root reaches, other than the root itself, by the names paths give it. */
  method CrateVersions(g: Graph, root: Id) returns (r: Result<Versions, Id>)
    ensures r.Ok? <==> forall p :: Reaches(g, root, p) ==> p in g
    ensures r.Ok? ==> IsVersionMap(g, root, r.value)
  {
    hide Reaches, Names, IsNamedBy, VersionsOf;
    var seen := Reached(g, root);
    if seen.Err? {
      return Err(seen.error);
    }
    var rest := seen.value - {root};
    ghost var done := {};
    var versions: Versions := map[];
    NoVersions(g);
    while rest != {}
      invariant rest + done == seen.value - {root} && rest !! done && rest <= g.Keys
      invariant Lists(g, done, versions)
    {
      var p :| p in rest;
      AddPackage(g, done, versions, p);
      versions := WithVersion(versions, Names(g[p]), g[p].version);
      rest, done := rest - {p}, done + {p};
    }
    assert done == seen.value - {root};
    assert AreReached(g, root, seen.value);
    r := Ok(versions);
  }

  ghost predicate IsVersionMap(g: Graph, root: Id, versions: Versions) {
    exists reached: set<Id> :: AreReached(g, root, reached) && Lists(g, reached - {root}, versions)
  }

  ghost predicate AreReached(g: Graph, root: Id, reached: set<Id>) {
    forall p :: p in reached <==> Reaches(g, root, p)
  }

  function WithVersion(versions: Versions, names: set<Crate>, version: string): Versions {
    map c | c in versions.Keys + names ::
      (if c in versions then versions[c] else {}) + if c in names then {version} else {}
  }

  lemma {:induction false} NoVersions(g: Graph)
    ensures Lists(g, {}, map[])
  {
  }

  lemma {:induction false} AddPackage(g: Graph, done: set<Id>, versions: Versions, p: Id)
    requires Lists(g, done, versions) && p in g && p !in done
    ensures Lists(g, done + {p}, WithVersion(versions, Names(g[p]), g[p].version))
  {
    hide Names, IsNamedBy;
    forall c
      ensures VersionsOf(g, done + {p}, c) == VersionsOf(g, done, c) + if c in Names(g[p]) then {g[p].version} else {}
    {
      NamesExactly(g[p], c);
    }
  }

  // ---------------------------------------------------------------- what the surface names

  /** A line of the snapshot and the crates its paths start with, in order. */
  datatype Line = Line(text: string, crates: seq<Crate>)

  datatype Problem =
    | NotADependency(crate: Crate, line: string)
    | PreRelease(crate: Crate, versions: set<string>, line: string)

  predicate IsOwn(c: Crate) {
    c.name in {"aitp", "core", "alloc", "std"}
  }

  /** A version's text up to its first dot. */
  function Major(version: string): string {
    if version == "" || version[0] == '.' then "" else [version[0]] + Major(version[1..])
  }

  /** The version is 0, or 0 and more after a dot. */
  ghost predicate IsZero(version: string) {
    version == "0" || (|version| > 1 && version[0] == '0' && version[1] == '.')
  }

  lemma {:induction false} MajorIsZeroExactlyWhen(version: string)
    ensures Major(version) == "0" <==> IsZero(version)
  {
    if version != "" && version[0] != '.' {
      var rest := version[1..];
      assert rest != "" && rest[0] != '.' ==> |Major(rest)| > 0;
      assert Major(version) == [version[0]] + Major(rest);
      assert [version[0]] + "" == [version[0]];
    }
  }

  predicate IsPreRelease(versions: set<string>) {
    exists v :: v in versions && Major(v) == "0"
  }

  /** What is wrong with a crate that is first named on this line. */
  function ProblemOf(versions: Versions, c: Crate, line: string): Option<Problem> {
    if IsOwn(c) then None
    else if c !in versions then Some(NotADependency(c, line))
    else if IsPreRelease(versions[c]) then Some(PreRelease(c, versions[c], line))
    else None
  }

  /** `i` is the first line naming the crate. */
  ghost predicate IsFirstNaming(lines: seq<Line>, c: Crate, i: nat) {
    i < |lines| && c in lines[i].crates && forall j :: 0 <= j < i ==> c !in lines[j].crates
  }

  /** A crate that is neither of the workspace nor of the standard library. */
  ghost predicate IsForeign(c: Crate) {
    c.name != "aitp" && c.name != "core" && c.name != "alloc" && c.name != "std"
  }

  /** A foreign crate that is no dependency, or one of whose versions is 0.x, with the first line that names it. */
  ghost predicate IsProblem(lines: seq<Line>, versions: Versions, x: Problem) {
    && IsForeign(x.crate)
    && (exists i: nat :: IsFirstNaming(lines, x.crate, i) && x.line == lines[i].text)
    && match x
       case NotADependency(c, _) => c !in versions
       case PreRelease(c, vs, _) => c in versions && vs == versions[c] && exists v :: v in vs && IsZero(v)
  }

  lemma {:induction false} ProblemExactlyWhen(lines: seq<Line>, versions: Versions, x: Problem)
    ensures IsProblem(lines, versions, x) <==>
            exists i: nat :: IsFirstNaming(lines, x.crate, i) && ProblemOf(versions, x.crate, lines[i].text) == Some(x)
  {
    hide IsFirstNaming, Major, IsZero;
    PreReleaseExactlyWhen(versions);
    forall i: nat | IsFirstNaming(lines, x.crate, i)
      ensures i < |lines|
    {
      FirstNamingInRange(lines, x.crate, i);
    }
  }

  lemma {:induction false} FirstNamingInRange(lines: seq<Line>, c: Crate, i: nat)
    requires IsFirstNaming(lines, c, i)
    ensures i < |lines|
  {
  }

  lemma {:induction false} PreReleaseExactlyWhen(versions: Versions)
    ensures forall c :: c in versions ==> (IsPreRelease(versions[c]) <==> exists v :: v in versions[c] && IsZero(v))
  {
    forall v
      ensures Major(v) == "0" <==> IsZero(v)
    {
      MajorIsZeroExactlyWhen(v);
    }
  }

  predicate CrateLeq(a: Crate, b: Crate) {
    TextLeq(a.name, b.name)
  }

  lemma {:induction false} CrateOrder()
    ensures TotalOrder(CrateLeq)
  {
    TextOrder();
    forall x: Crate, y: Crate
      ensures CrateLeq(x, x) && (CrateLeq(x, y) || CrateLeq(y, x))
      ensures CrateLeq(x, y) && CrateLeq(y, x) ==> x == y
    {
      assert TextLeq(x.name, y.name) || TextLeq(y.name, x.name);
    }
    forall x: Crate, y: Crate, z: Crate | CrateLeq(x, y) && CrateLeq(y, z)
      ensures CrateLeq(x, z)
    {
      assert TextLeq(x.name, y.name) && TextLeq(y.name, z.name);
    }
  }

  /** The problems found in the first `n` lines and the first `k` crates of the next. */
  ghost predicate Found(lines: seq<Line>, versions: Versions, n: nat, k: nat, found: map<Crate, Problem>)
    requires n <= |lines| && (n < |lines| ==> k <= |lines[n].crates|) && (n == |lines| ==> k == 0)
  {
    forall c ::
      && (c in found ==> found[c].crate == c && IsProblem(lines, versions, found[c]))
      && (c !in found && !IsOwn(c) && IsNamed(lines, n, k, c) ==> c in versions && !IsPreRelease(versions[c]))
  }

  ghost predicate IsNamed(lines: seq<Line>, n: nat, k: nat, c: Crate)
    requires n <= |lines| && (n < |lines| ==> k <= |lines[n].crates|) && (n == |lines| ==> k == 0)
  {
    (exists i :: 0 <= i < n && c in lines[i].crates) || (n < |lines| && c in lines[n].crates[..k])
  }

  lemma {:induction false} LookAtOne(lines: seq<Line>, versions: Versions, n: nat, k: nat, found: map<Crate, Problem>)
    requires n < |lines| && k < |lines[n].crates| && Found(lines, versions, n, k, found)
    ensures var c := lines[n].crates[k];
            var x := ProblemOf(versions, c, lines[n].text);
            Found(lines, versions, n, k + 1, if c in found || x.None? then found else found[c := x.value])
  {
    hide IsPreRelease, IsOwn, IsProblem;
    var c := lines[n].crates[k];
    var x := ProblemOf(versions, c, lines[n].text);
    assert lines[n].crates[..k + 1] == lines[n].crates[..k] + [c];
    if c !in found && x.Some? {
      assert !IsNamed(lines, n, k, c);
      assert IsFirstNaming(lines, c, n);
      ProblemExactlyWhen(lines, versions, x.value);
    }
  }

  /** One problem for each foreign crate the surface should not name, with the first line naming it, by crate. */
  method Problems(lines: seq<Line>, versions: Versions) returns (out: seq<Problem>)
    ensures forall i, j :: 0 <= i < j < |out| ==> out[i].crate != out[j].crate && CrateLeq(out[i].crate, out[j].crate)
    ensures forall x :: x in out <==> IsProblem(lines, versions, x)
  {
    hide IsOwn, IsPreRelease, ProblemOf, IsProblem, IsNamed;
    var found: map<Crate, Problem> := map[];
    assert Found(lines, versions, 0, 0, found) by { NothingNamed(lines); }
    var n := 0;
    while n < |lines|
      invariant n <= |lines| && Found(lines, versions, n, 0, found)
    {
      var k := 0;
      while k < |lines[n].crates|
        invariant k <= |lines[n].crates| && Found(lines, versions, n, k, found)
      {
        var c := lines[n].crates[k];
        LookAtOne(lines, versions, n, k, found);
        if c !in found {
          var x := ProblemOf(versions, c, lines[n].text);
          if x.Some? {
            found := found[c := x.value];
          }
        }
        k := k + 1;
      }
      NextLine(lines, versions, n, found);
      n := n + 1;
    }
    CrateOrder();
    var crates := SortedSet(CrateLeq, found.Keys);
    out := [];
    n := 0;
    while n < |crates|
      invariant n <= |crates| && |out| == n
      invariant forall i :: 0 <= i < n ==> out[i].crate == crates[i] && out[i] == found[crates[i]]
    {
      assert crates[n] in crates;
      out := out + [found[crates[n]]];
      n := n + 1;
    }
    forall x
      ensures x in out <==> IsProblem(lines, versions, x)
    {
      if x in out {
        assert x.crate in crates;
      }
      if IsProblem(lines, versions, x) {
        ProblemIsFound(lines, versions, found, x);
        assert x.crate in crates;
      }
    }
  }

  lemma {:induction false} NothingNamed(lines: seq<Line>)
    ensures forall c :: !IsNamed(lines, 0, 0, c)
  {
  }

  lemma {:induction false} NextLine(lines: seq<Line>, versions: Versions, n: nat, found: map<Crate, Problem>)
    requires n < |lines| && Found(lines, versions, n, |lines[n].crates|, found)
    ensures Found(lines, versions, n + 1, 0, found)
  {
    hide IsOwn, IsPreRelease, IsProblem;
    assert lines[n].crates[..|lines[n].crates|] == lines[n].crates;
    forall c | IsNamed(lines, n + 1, 0, c)
      ensures IsNamed(lines, n, |lines[n].crates|, c)
    {
    }
  }

  lemma {:induction false} ProblemIsFound(lines: seq<Line>, versions: Versions, found: map<Crate, Problem>, x: Problem)
    requires Found(lines, versions, |lines|, 0, found) && IsProblem(lines, versions, x)
    ensures x.crate in found && found[x.crate] == x
  {
    hide IsOwn, IsPreRelease, IsProblem;
    var c := x.crate;
    ProblemExactlyWhen(lines, versions, x);
    var i: nat :| IsFirstNaming(lines, c, i) && ProblemOf(versions, c, lines[i].text) == Some(x);
    assert IsNamed(lines, |lines|, 0, c);
    assert c in found;
    ProblemExactlyWhen(lines, versions, found[c]);
    var j: nat :| IsFirstNaming(lines, c, j) && ProblemOf(versions, c, lines[j].text) == Some(found[c]);
    assert i == j;
  }

  /**
   The surface is clean exactly when every foreign crate it names is, by that name, a package the
   root reaches through normal dependencies, and no such package is 0.x.
   */
  lemma {:induction false} CleanExactlyWhen(g: Graph, root: Id, versions: Versions, lines: seq<Line>)
    requires IsVersionMap(g, root, versions)
    ensures (forall x :: !IsProblem(lines, versions, x)) <==>
            forall l, c :: l in lines && c in l.crates && IsForeign(c) ==> IsReachedAndStable(g, root, c)
  {
    hide IsForeign, IsZero, IsNamedBy, Reaches;
    forall c
      ensures IsReachedAndStable(g, root, c) <==> c in versions && !exists v :: v in versions[c] && IsZero(v)
    {
      StableExactlyWhen(g, root, versions, c);
    }
    hide IsVersionMap, IsReachedAndStable;
    if l, c :| l in lines && c in l.crates && IsForeign(c) && !IsReachedAndStable(g, root, c) {
      var i := FirstNaming(lines, c);
      assert IsProblem(lines, versions, if c in versions then PreRelease(c, versions[c], lines[i].text)
                                        else NotADependency(c, lines[i].text));
    }
    if x :| IsProblem(lines, versions, x) {
      var i: nat :| IsFirstNaming(lines, x.crate, i) && x.line == lines[i].text;
      assert lines[i] in lines;
    }
  }

  lemma {:induction false} FirstNaming(lines: seq<Line>, c: Crate) returns (i: nat)
    requires exists l :: l in lines && c in l.crates
    ensures IsFirstNaming(lines, c, i)
  {
    if c in lines[0].crates {
      i := 0;
    } else {
      i := FirstNaming(lines[1..], c);
      i := i + 1;
    }
  }

  ghost predicate IsReachedAndStable(g: Graph, root: Id, c: Crate) {
    && (exists p :: Provides(g, root, p, c))
    && forall p :: Provides(g, root, p, c) ==> !IsZero(g[p].version)
  }

  ghost predicate Provides(g: Graph, root: Id, p: Id, c: Crate) {
    p != root && Reaches(g, root, p) && p in g && IsNamedBy(g[p], c)
  }

  lemma {:induction false} StableExactlyWhen(g: Graph, root: Id, versions: Versions, c: Crate)
    requires IsVersionMap(g, root, versions)
    ensures IsReachedAndStable(g, root, c) <==> c in versions && !exists v :: v in versions[c] && IsZero(v)
  {
    hide IsZero, IsNamedBy, Reaches;
    var reached: set<Id> :| AreReached(g, root, reached) && Lists(g, reached - {root}, versions);
    var packages := reached - {root};
    assert forall p :: Provides(g, root, p, c) <==> p in packages && IsNamedBy(g[p], c);
    var vs := VersionsOf(g, packages, c);
    assert forall p :: Provides(g, root, p, c) ==> g[p].version in vs;
    assert c in versions <==> vs != {};
  }
}
