/**
 The single-path gate's partition: paths whose definition lines agree are one
 item when one path's members are a subset of the other's, and so on along any
 chain of such paths.
 */
module SinglePath {
  import opened Basics
  import opened Ordering

  /** Which paths of a group are directly one item. Symmetric, but not transitive. */
  type Fingerprints = map<Path, set<string>>

  predicate Related(fps: Fingerprints, a: Path, b: Path)
    requires a in fps && b in fps
  {
    fps[a] <= fps[b] || fps[b] <= fps[a]
  }

  // ---------------------------------------------------------------- the intended classes

  ghost predicate IsChain(fps: Fingerprints, chain: seq<Path>) {
    && chain != []
    && (forall i :: 0 <= i < |chain| ==> chain[i] in fps)
    && (forall i :: 0 <= i < |chain| - 1 ==> Related(fps, chain[i], chain[i + 1]))
  }

  ghost predicate Links(fps: Fingerprints, chain: seq<Path>, a: Path, b: Path) {
    IsChain(fps, chain) && chain[0] == a && chain[|chain| - 1] == b
  }

  /** `a` and `b` are one item: a chain of related paths of the group leads from one to the other. */
  ghost predicate OneItem(fps: Fingerprints, a: Path, b: Path) {
    exists chain :: Links(fps, chain, a, b)
  }

  lemma {:induction false} OneItemSelf(fps: Fingerprints, a: Path)
    requires a in fps
    ensures OneItem(fps, a, a)
  {
    assert Links(fps, [a], a, a);
  }

  lemma {:induction false} OneItemStep(fps: Fingerprints, a: Path, b: Path)
    requires a in fps && b in fps && Related(fps, a, b)
    ensures OneItem(fps, a, b)
  {
    assert Links(fps, [a, b], a, b);
  }

  lemma {:induction false} OneItemTransitive(fps: Fingerprints, a: Path, b: Path, c: Path)
    requires OneItem(fps, a, b) && OneItem(fps, b, c)
    ensures OneItem(fps, a, c)
  {
    var x :| Links(fps, x, a, b);
    var y :| Links(fps, y, b, c);
    var z := x + y[1..];
    forall i | 0 <= i < |z| - 1
      ensures Related(fps, z[i], z[i + 1])
    {
      if i >= |x| - 1 {
        assert z[i] == y[i - (|x| - 1)] && z[i + 1] == y[i - (|x| - 1) + 1];
      } else {
        assert z[i] == x[i] && z[i + 1] == x[i + 1];
      }
    }
    assert Links(fps, z, a, c);
  }

  lemma {:induction false} OneItemSymmetric(fps: Fingerprints, a: Path, b: Path)
    requires OneItem(fps, a, b)
    ensures OneItem(fps, b, a)
  {
    var x :| Links(fps, x, a, b);
    var n := |x|;
    var y := seq(n, i requires 0 <= i < n => x[n - 1 - i]);
    forall i | 0 <= i < |y| - 1
      ensures Related(fps, y[i], y[i + 1])
    {
      var j := n - 2 - i;
      assert Related(fps, x[j], x[j + 1]);
    }
    assert Links(fps, y, b, a);
  }

  // ---------------------------------------------------------------- the forest

  /** `parent` is a forest: every node reaches its root, one smaller depth at a time. */
  ghost predicate Forest(parent: map<Path, Path>, root: map<Path, Path>, depth: map<Path, nat>) {
    && parent.Keys == root.Keys == depth.Keys
    && forall p :: p in parent ==> Placed(parent, root, depth, p)
  }

  ghost predicate Placed(parent: map<Path, Path>, root: map<Path, Path>, depth: map<Path, nat>, p: Path)
    requires parent.Keys == root.Keys == depth.Keys && p in parent
  {
    && parent[p] in parent && root[p] in parent
    && root[parent[p]] == root[p] && parent[root[p]] == root[p] && root[root[p]] == root[p]
    && (parent[p] == p ==> root[p] == p)
    && (parent[p] != p ==> depth[parent[p]] < depth[p])
  }

  method Find(parent: map<Path, Path>, p: Path, ghost root: map<Path, Path>, ghost depth: map<Path, nat>)
    returns (r: Path)
    requires Forest(parent, root, depth) && p in parent
    ensures r == root[p] && r in parent
  {
    r := p;
    while parent[r] != r
      invariant r in parent && root[r] == root[p]
      decreases depth[r]
    {
      assert Placed(parent, root, depth, r);
      r := parent[r];
    }
    assert Placed(parent, root, depth, r);
  }

  /** Hanging one root under another joins exactly their two trees. */
  ghost function JoinedRoots(root: map<Path, Path>, ra: Path, rb: Path): (r: map<Path, Path>)
    ensures r.Keys == root.Keys
  {
    map p | p in root :: if root[p] == ra then rb else root[p]
  }

  ghost function JoinedDepths(root: map<Path, Path>, depth: map<Path, nat>, ra: Path, rb: Path): (d: map<Path, nat>)
    requires root.Keys == depth.Keys && rb in depth
    ensures d.Keys == root.Keys
  {
    map p | p in root :: if root[p] == ra && ra != rb then depth[p] + depth[rb] + 1 else depth[p]
  }

  lemma {:induction false} JoinKeepsForest(parent: map<Path, Path>, root: map<Path, Path>, depth: map<Path, nat>,
                                           ra: Path, rb: Path)
    requires Forest(parent, root, depth) && ra in parent && rb in parent && root[ra] == ra && root[rb] == rb
    ensures Forest(parent[ra := rb], JoinedRoots(root, ra, rb), JoinedDepths(root, depth, ra, rb))
  {
    hide JoinedRoots, JoinedDepths;
    var parent', root', depth' := parent[ra := rb], JoinedRoots(root, ra, rb), JoinedDepths(root, depth, ra, rb);
    assert parent'.Keys == parent.Keys;
    assert Placed(parent, root, depth, rb);
    hide Placed;
    forall p | p in parent'
      ensures Placed(parent', root', depth', p)
    {
      NodeStaysPlaced(parent, root, depth, ra, rb, p);
    }
  }

  lemma {:induction false} NodeStaysPlaced(parent: map<Path, Path>, root: map<Path, Path>, depth: map<Path, nat>,
                                           ra: Path, rb: Path, p: Path)
    requires parent.Keys == root.Keys == depth.Keys && p in parent && ra in parent && rb in parent
    requires Placed(parent, root, depth, p) && Placed(parent, root, depth, rb) && root[ra] == ra && root[rb] == rb
    ensures Placed(parent[ra := rb], JoinedRoots(root, ra, rb), JoinedDepths(root, depth, ra, rb), p)
  {
    var root' := JoinedRoots(root, ra, rb);
    var q := parent[p];
    assert root'[q] == root'[p] && root'[rb] == rb;
    if p == ra {
      assert root'[p] == rb;
    } else if root[p] == ra {
      assert root'[p] == rb;
    } else {
      assert root'[p] == root[p] != ra;
    }
  }

  // ---------------------------------------------------------------- the pairwise loop

  /** Pairs the nested loops have dealt with once the outer one is at `i` and the inner at `j`. */
  ghost predicate Done(n: nat, i: nat, j: nat, x: int, y: int) {
    0 <= x < y < n && (x < i || (x == i && y < j))
  }

  /** Every tree so far is part of one class, and every related pair so far is in one tree. */
  ghost predicate Joined(fps: Fingerprints, group: seq<Path>, root: map<Path, Path>, i: nat, j: nat) {
    && root.Keys == fps.Keys && (forall p :: p in group <==> p in fps)
    && (forall p, q :: p in root && q in root && root[p] == root[q] ==> OneItem(fps, p, q))
    && (forall x, y :: Done(|group|, i, j, x, y) && Related(fps, group[x], group[y]) ==>
        root[group[x]] == root[group[y]])
  }

  lemma {:induction false} JoinPair(fps: Fingerprints, group: seq<Path>, root: map<Path, Path>, i: nat, j: nat)
    requires i < j < |group| && Joined(fps, group, root, i, j) && Related(fps, group[i], group[j])
    requires forall p :: p in root ==> root[p] in root && root[root[p]] == root[p]
    ensures Joined(fps, group, JoinedRoots(root, root[group[i]], root[group[j]]), i, j + 1)
  {
    hide IsChain;
    var a, b := group[i], group[j];
    var root' := JoinedRoots(root, root[a], root[b]);
    OneItemStep(fps, a, b);
    OneItemSymmetric(fps, a, b);
    forall p, q | p in root' && q in root' && root'[p] == root'[q]
      ensures OneItem(fps, p, q)
    {
      if root[p] != root[q] {
        if root[p] == root[a] {
          OneItemTransitive(fps, p, a, b);
          OneItemTransitive(fps, p, b, q);
        } else {
          OneItemTransitive(fps, p, b, a);
          OneItemTransitive(fps, p, a, q);
        }
      }
    }
    forall x, y | Done(|group|, i, j + 1, x, y) && Related(fps, group[x], group[y])
      ensures root'[group[x]] == root'[group[y]]
    {
      if x == i && y == j {
      } else {
        assert Done(|group|, i, j, x, y);
      }
    }
  }

  lemma {:induction false} SkipPair(fps: Fingerprints, group: seq<Path>, root: map<Path, Path>, i: nat, j: nat)
    requires i < j < |group| && Joined(fps, group, root, i, j) && !Related(fps, group[i], group[j])
    ensures Joined(fps, group, root, i, j + 1)
  {
    hide OneItem, Related;
    forall x, y | Done(|group|, i, j + 1, x, y) && Related(fps, group[x], group[y])
      ensures root[group[x]] == root[group[y]]
    {
      assert Done(|group|, i, j, x, y);
    }
  }

  lemma {:induction false} NextRow(fps: Fingerprints, group: seq<Path>, root: map<Path, Path>, i: nat)
    requires i < |group| && Joined(fps, group, root, i, |group|)
    ensures Joined(fps, group, root, i + 1, i + 2)
  {
    forall x, y | Done(|group|, i + 1, i + 2, x, y) && Related(fps, group[x], group[y])
      ensures root[group[x]] == root[group[y]]
    {
      assert Done(|group|, i, |group|, x, y);
    }
  }

  /** Once every pair is done the trees are exactly the classes. */
  lemma {:induction false} TreesAreClasses(fps: Fingerprints, group: seq<Path>, root: map<Path, Path>, i: nat, j: nat)
    requires Joined(fps, group, root, i, j) && |group| <= i
    ensures forall p, q :: p in fps && q in fps ==> (root[p] == root[q] <==> OneItem(fps, p, q))
  {
    forall p, q | p in fps && q in fps && OneItem(fps, p, q)
      ensures root[p] == root[q]
    {
      var chain :| Links(fps, chain, p, q);
      ChainStaysInTree(fps, group, root, i, j, chain);
    }
  }

  lemma {:induction false} ChainStaysInTree(fps: Fingerprints, group: seq<Path>, root: map<Path, Path>, i: nat, j: nat,
                                            chain: seq<Path>)
    requires Joined(fps, group, root, i, j) && |group| <= i && IsChain(fps, chain)
    ensures root[chain[0]] == root[chain[|chain| - 1]]
  {
    if |chain| > 1 {
      var rest := chain[1..];
      assert forall k :: 0 <= k < |rest| - 1 ==> Related(fps, rest[k], rest[k + 1]) by {
        forall k | 0 <= k < |rest| - 1
          ensures Related(fps, rest[k], rest[k + 1])
        {
          assert Related(fps, chain[k + 1], chain[k + 1 + 1]);
        }
      }
      ChainStaysInTree(fps, group, root, i, j, rest);
      assert Related(fps, chain[0], chain[0 + 1]);
      var x :| 0 <= x < |group| && group[x] == chain[0];
      var y :| 0 <= y < |group| && group[y] == chain[1];
      if x < y {
        assert Done(|group|, i, j, x, y);
      } else if y < x {
        assert Done(|group|, i, j, y, x);
      }
    }
  }

  /** Joins the trees of every related pair of the group; what is left are the group's classes. */
  method Unite(fps: Fingerprints, group: seq<Path>)
    returns (parent: map<Path, Path>, ghost root: map<Path, Path>, ghost depth: map<Path, nat>)
    requires forall p :: p in group <==> p in fps
    ensures Forest(parent, root, depth) && parent.Keys == fps.Keys
    ensures forall p, q :: p in fps && q in fps ==> (root[p] == root[q] <==> OneItem(fps, p, q))
  {
    hide OneItem, JoinedRoots, JoinedDepths, Forest, Joined, Placed;
    parent := map p | p in group :: p;
    root := map p | p in group :: p;
    depth := map p | p in group :: 0;
    Alone(fps, group);
    var i := 0;
    while i < |group|
      invariant i <= |group| && parent.Keys == fps.Keys
      invariant Forest(parent, root, depth) && Joined(fps, group, root, i, i + 1)
    {
      var j := i + 1;
      while j < |group|
        invariant i < j <= |group| && parent.Keys == fps.Keys
        invariant Forest(parent, root, depth) && Joined(fps, group, root, i, j)
      {
        var a, b := group[i], group[j];
        if fps[a] <= fps[b] || fps[b] <= fps[a] {
          var rb := Find(parent, b, root, depth);
          var ra := Find(parent, a, root, depth);
          RootsAreFixed(parent, root, depth);
          JoinPair(fps, group, root, i, j);
          JoinKeepsForest(parent, root, depth, ra, rb);
          parent, depth, root := parent[ra := rb], JoinedDepths(root, depth, ra, rb), JoinedRoots(root, ra, rb);
        } else {
          SkipPair(fps, group, root, i, j);
        }
        j := j + 1;
      }
      NextRow(fps, group, root, i);
      i := i + 1;
    }
    TreesAreClasses(fps, group, root, i, i + 1);
  }

  lemma {:induction false} RootsAreFixed(parent: map<Path, Path>, root: map<Path, Path>, depth: map<Path, nat>)
    requires Forest(parent, root, depth)
    ensures parent.Keys == root.Keys == depth.Keys
      && forall p :: p in root ==> root[p] in root && root[root[p]] == root[p]
  {
    forall p | p in root
      ensures root[p] in root && root[root[p]] == root[p]
    {
      assert Placed(parent, root, depth, p);
    }
  }

  lemma {:induction false} Alone(fps: Fingerprints, group: seq<Path>)
    requires forall p :: p in group <==> p in fps
    ensures Joined(fps, group, map p | p in group :: p, 0, 1)
    ensures Forest(map p | p in group :: p, map p | p in group :: p, map p | p in group :: 0)
  {
    forall p | p in fps
      ensures OneItem(fps, p, p)
    {
      OneItemSelf(fps, p);
    }
  }

  // ---------------------------------------------------------------- components

  /** The elements of `s` that are in `keep`, in order. */
  ghost function Kept(s: seq<Path>, keep: set<Path>): (r: seq<Path>) {
    if s == [] then [] else Kept(s[..|s| - 1], keep) + if s[|s| - 1] in keep then [s[|s| - 1]] else []
  }

  lemma {:induction false} KeptMember(s: seq<Path>, keep: set<Path>, p: Path)
    ensures p in Kept(s, keep) <==> p in s && p in keep
  {
    if s != [] {
      KeptMember(s[..|s| - 1], keep, p);
      assert s == s[..|s| - 1] + [s[|s| - 1]];
    }
  }

  ghost function Tree(root: map<Path, Path>, r: Path): set<Path> {
    set p | p in root && root[p] == r
  }

  /** The first `n` of the group, sorted into trees. */
  ghost predicate Collected(group: seq<Path>, n: nat, root: map<Path, Path>,
                            roots: seq<Path>, components: map<Path, seq<Path>>)
    requires n <= |group|
  {
    && Distinct(roots) && (forall r :: r in roots <==> r in components)
    && (forall r :: r in components ==> components[r] != [] && components[r] == Kept(group[..n], Tree(root, r)))
    && (forall i :: 0 <= i < n ==> group[i] in root && root[group[i]] in components)
  }

  lemma {:induction false} CollectOne(group: seq<Path>, n: nat, root: map<Path, Path>,
                   roots: seq<Path>, components: map<Path, seq<Path>>, r: Path)
    requires n < |group| && Collected(group, n, root, roots, components)
    requires group[n] in root && root[group[n]] == r
    ensures r in components ==>
              Collected(group, n + 1, root, roots, components[r := components[r] + [group[n]]])
    ensures r !in components ==>
              Collected(group, n + 1, root, roots + [r], components[r := [group[n]]])
  {
    hide Kept, Tree;
    forall k
      ensures Kept(group[..n + 1], Tree(root, k)) == Kept(group[..n], Tree(root, k)) + if k == r then [group[n]] else []
    {
      KeptOneMore(group, n, root, k);
    }
    if r !in components {
      NoneYet(group, n, root, roots, components, r);
      DistinctSnoc(roots, r);
      hide Distinct;
    }
  }

  lemma {:induction false} KeptOneMore(group: seq<Path>, n: nat, root: map<Path, Path>, k: Path)
    requires n < |group| && group[n] in root
    ensures Kept(group[..n + 1], Tree(root, k))
         == Kept(group[..n], Tree(root, k)) + if root[group[n]] == k then [group[n]] else []
  {
    var more := group[..n + 1];
    assert more[..|more| - 1] == group[..n] && more[|more| - 1] == group[n];
  }

  lemma {:induction false} NoneYet(group: seq<Path>, n: nat, root: map<Path, Path>,
                roots: seq<Path>, components: map<Path, seq<Path>>, r: Path)
    requires n <= |group| && Collected(group, n, root, roots, components) && r !in components
    ensures Kept(group[..n], Tree(root, r)) == []
  {
    var k := Kept(group[..n], Tree(root, r));
    if k != [] {
      KeptMember(group[..n], Tree(root, r), k[0]);
      assert false;
    }
  }

  lemma {:induction false} NothingCollected(group: seq<Path>, root: map<Path, Path>)
    ensures Collected(group, 0, root, [], map[])
  {
  }

  method Collect(group: seq<Path>, parent: map<Path, Path>, ghost root: map<Path, Path>, ghost depth: map<Path, nat>)
    returns (roots: seq<Path>, components: map<Path, seq<Path>>)
    requires Forest(parent, root, depth) && forall p :: p in group ==> p in parent
    ensures Collected(group, |group|, root, roots, components)
  {
    hide *;
    RootsAreFixed(parent, root, depth);
    roots, components := [], map[];
    NothingCollected(group, root);
    var n := 0;
    while n < |group|
      invariant n <= |group| && Collected(group, n, root, roots, components)
    {
      var p := group[n];
      assert p in group;
      var r := Find(parent, p, root, depth);
      CollectOne(group, n, root, roots, components, r);
      if r in components {
        components := components[r := components[r] + [p]];
      } else {
        roots, components := roots + [r], components[r := [p]];
      }
      n := n + 1;
    }
  }

  // ---------------------------------------------------------------- the items of one group

  predicate PathsLeq(a: seq<Path>, b: seq<Path>) {
    Lex(PathLeq, a, b)
  }

  lemma {:induction false} PathOrders()
    ensures TotalOrder(PathLeq) && TotalOrder(PathsLeq)
  {
    PathOrder();
    LexIsTotalOrder(PathLeq);
    var lex := (a: seq<Path>, b: seq<Path>) => Lex(PathLeq, a, b);
    assert forall a: seq<Path>, b: seq<Path> :: PathsLeq(a, b) == lex(a, b);
  }

  /** Every path of the group that is one item with `p`. */
  ghost function Class(fps: Fingerprints, p: Path): set<Path> {
    set q | q in fps && OneItem(fps, p, q)
  }

  /** `c` is an item of the group at more than one path: one whole class, sorted. */
  ghost predicate IsItem(fps: Fingerprints, group: seq<Path>, c: seq<Path>) {
    |c| > 1 && exists p :: p in fps && c == Sorted(PathLeq, Kept(group, Class(fps, p)))
  }

  lemma {:induction false} TreesAreItems(fps: Fingerprints, group: seq<Path>, root: map<Path, Path>,
                      roots: seq<Path>, components: map<Path, seq<Path>>)
    requires (forall p :: p in group <==> p in fps) && root.Keys == fps.Keys
    requires forall p, q :: p in fps && q in fps ==> (root[p] == root[q] <==> OneItem(fps, p, q))
    requires Collected(group, |group|, root, roots, components)
    ensures forall r :: r in components ==>
              (exists p :: p in fps && root[p] == r && components[r] == Kept(group, Class(fps, p)))
    ensures forall p :: p in fps ==> root[p] in components && components[root[p]] == Kept(group, Class(fps, p))
  {
    hide OneItem, Kept;
    assert group[..|group|] == group;
    forall p | p in fps
      ensures root[p] in components && components[root[p]] == Kept(group, Class(fps, p))
    {
      assert Tree(root, root[p]) == Class(fps, p);
      assert p in group;
    }
    forall r | r in components
      ensures exists p :: p in fps && root[p] == r && components[r] == Kept(group, Class(fps, p))
    {
      var p := components[r][0];
      KeptMember(group, Tree(root, r), p);
      assert p in fps && root[p] == r;
    }
  }

  /** Different components of a group are different lists, so no item is reported twice. */
  lemma {:induction false} TreesDiffer(group: seq<Path>, root: map<Path, Path>, roots: seq<Path>,
                                       components: map<Path, seq<Path>>, r: Path, t: Path)
    requires Collected(group, |group|, root, roots, components) && r in components && t in components
    requires Sorted(PathLeq, components[r]) == Sorted(PathLeq, components[t])
    ensures r == t
  {
    assert group[..|group|] == group;
    var p := components[r][0];
    assert p in components[r];
    SameMembers(components[r], components[t]);
    KeptMember(group, Tree(root, r), p);
    KeptMember(group, Tree(root, t), p);
  }

  /** The first `n` components are dealt with. */
  ghost predicate Listed(fps: Fingerprints, group: seq<Path>, roots: seq<Path>, components: map<Path, seq<Path>>,
                         n: nat, found: seq<seq<Path>>)
    requires n <= |roots| && forall r :: r in roots <==> r in components
  {
    && (forall c :: c in found ==>
        exists i :: 0 <= i < n && |components[roots[i]]| > 1 && c == Sorted(PathLeq, components[roots[i]]))
    && (forall i :: 0 <= i < n && |components[roots[i]]| > 1 ==> Sorted(PathLeq, components[roots[i]]) in found)
    && Distinct(found)
  }

  lemma {:induction false} ListOne(fps: Fingerprints, group: seq<Path>, root: map<Path, Path>, roots: seq<Path>,
                                   components: map<Path, seq<Path>>, n: nat, found: seq<seq<Path>>)
    requires Collected(group, |group|, root, roots, components) && n < |roots|
    requires |components[roots[n]]| > 1 && Listed(fps, group, roots, components, n, found)
    ensures Listed(fps, group, roots, components, n + 1, found + [Sorted(PathLeq, components[roots[n]])])
  {
    hide Kept, Sorted;
    var c := Sorted(PathLeq, components[roots[n]]);
    if c in found {
      var i :| 0 <= i < n && c == Sorted(PathLeq, components[roots[i]]);
      TreesDiffer(group, root, roots, components, roots[i], roots[n]);
      assert false;
    }
    DistinctSnoc(found, c);
  }

  /** The items of one group that have more than one path. */
  method ItemsOf(fps: Fingerprints, group: seq<Path>) returns (found: seq<seq<Path>>)
    requires forall p :: p in group <==> p in fps
    ensures Distinct(found)
    ensures forall c :: c in found <==> IsItem(fps, group, c)
  {
    hide OneItem, Kept, Forest, Sorted;
    var parent, root, depth := Unite(fps, group);
    assert root.Keys == parent.Keys by { RootsAreFixed(parent, root, depth); }
    var roots, components := Collect(group, parent, root, depth);
    found := [];
    var n := 0;
    while n < |roots|
      invariant n <= |roots| && Listed(fps, group, roots, components, n, found)
    {
      var c := components[roots[n]];
      if |c| > 1 {
        ListOne(fps, group, root, roots, components, n, found);
        found := found + [Sorted(PathLeq, c)];
      }
      n := n + 1;
    }
    TreesAreItems(fps, group, root, roots, components);
    forall c
      ensures c in found <==> IsItem(fps, group, c)
    {
      ListedAreItems(fps, group, root, roots, components, found, c);
    }
  }

  lemma {:induction false} ListedAreItems(fps: Fingerprints, group: seq<Path>, root: map<Path, Path>,
                       roots: seq<Path>, components: map<Path, seq<Path>>, found: seq<seq<Path>>, c: seq<Path>)
    requires (forall r :: r in roots <==> r in components) && Listed(fps, group, roots, components, |roots|, found)
    requires root.Keys == fps.Keys
    requires forall r :: r in components ==>
               (exists p :: p in fps && root[p] == r && components[r] == Kept(group, Class(fps, p)))
    requires forall p :: p in fps ==> root[p] in components && components[root[p]] == Kept(group, Class(fps, p))
    ensures c in found <==> IsItem(fps, group, c)
  {
    hide OneItem, Kept, Class;
    if c in found {
      var i :| 0 <= i < |roots| && |components[roots[i]]| > 1 && c == Sorted(PathLeq, components[roots[i]]);
      assert roots[i] in components;
    }
    if IsItem(fps, group, c) {
      var p :| p in fps && c == Sorted(PathLeq, Kept(group, Class(fps, p)));
      assert root[p] in roots;
      var i :| 0 <= i < |roots| && roots[i] == root[p];
      assert |components[roots[i]]| > 1;
    }
  }

  // ---------------------------------------------------------------- a whole snapshot

  /** A line starting `pub mod `, a line defining any other item, or anything else. */
  datatype Kind = Module | Item | Other

  /** An item's definition line without its module path. */
  datatype Key = Key(text: string)

  /**
   A snapshot line as the gate reads it: the path it prints, that path's parent, its key, the
   path whose member or impl it is, and the line with that path written as `Self`.
   */
  datatype Line = Line(kind: Kind, path: Path, parent: Path, key: Key, owner: Path, shape: string)

  function Modules(lines: seq<Line>): set<Path> {
    set l | l in lines && l.kind.Module? :: l.path
  }

  predicate InModule(l: Line, modules: set<Path>) {
    l.kind.Item? && l.parent in modules
  }

  /** The paths of the module-level items with this key, in line order. */
  function GroupOf(lines: seq<Line>, modules: set<Path>, key: Key): (r: seq<Path>) {
    if lines == [] then []
    else
      var l := lines[|lines| - 1];
      GroupOf(lines[..|lines| - 1], modules, key) + if InModule(l, modules) && l.key == key then [l.path] else []
  }

  function Fingerprint(lines: seq<Line>, p: Path): set<string> {
    set l | l in lines && l.owner == p :: l.shape
  }

  function FingerprintsOf(lines: seq<Line>, group: seq<Path>): Fingerprints {
    map p | p in group :: Fingerprint(lines, p)
  }

  function KeysOf(lines: seq<Line>): set<Key> {
    set l | l in lines :: l.key
  }

  ghost predicate IsItemOf(lines: seq<Line>, key: Key, c: seq<Path>) {
    var group := GroupOf(lines, Modules(lines), key);
    IsItem(FingerprintsOf(lines, group), group, c)
  }

  /** The keys under which `c` is one item: it is reported once for each. */
  ghost function KeysFor(lines: seq<Line>, c: seq<Path>): set<Key> {
    set key | key in KeysOf(lines) && IsItemOf(lines, key, c)
  }

  ghost function KeysAmong(lines: seq<Line>, keys: seq<Key>, c: seq<Path>): set<Key> {
    set key | key in keys && IsItemOf(lines, key, c)
  }

  /** The groups of a snapshot's first `n` lines, their keys in the order they first come up. */
  ghost predicate Grouped(lines: seq<Line>, modules: set<Path>, n: nat, keys: seq<Key>, groups: map<Key, seq<Path>>)
    requires n <= |lines|
  {
    && Distinct(keys) && (forall key :: key in keys <==> key in groups)
    && (forall key :: key in groups ==> groups[key] == GroupOf(lines[..n], modules, key))
    && (forall i :: 0 <= i < n && InModule(lines[i], modules) ==> lines[i].key in groups)
  }

  lemma {:induction false} NoGroup(lines: seq<Line>, modules: set<Path>, key: Key)
    requires forall l :: l in lines && InModule(l, modules) ==> l.key != key
    ensures GroupOf(lines, modules, key) == []
  {
    if lines != [] {
      NoGroup(lines[..|lines| - 1], modules, key);
      assert lines[|lines| - 1] in lines;
    }
  }

  lemma {:induction false} GroupOne(lines: seq<Line>, modules: set<Path>, n: nat, keys: seq<Key>,
                                    groups: map<Key, seq<Path>>)
    requires n < |lines| && Grouped(lines, modules, n, keys, groups)
    ensures var l := lines[n];
            if !InModule(l, modules) then Grouped(lines, modules, n + 1, keys, groups)
            else if l.key in groups then Grouped(lines, modules, n + 1, keys, groups[l.key := groups[l.key] + [l.path]])
            else Grouped(lines, modules, n + 1, keys + [l.key], groups[l.key := [l.path]])
  {
    hide GroupOf, InModule;
    var l := lines[n];
    if l.key !in groups {
      NoGroupYet(lines, modules, n, keys, groups, l.key);
      DistinctSnoc(keys, l.key);
    }
    forall key
      ensures GroupOf(lines[..n + 1], modules, key)
           == GroupOf(lines[..n], modules, key) + if InModule(l, modules) && l.key == key then [l.path] else []
    {
      GroupOfOneMore(lines, modules, n, key);
    }
  }

  lemma {:induction false} NoGroupYet(lines: seq<Line>, modules: set<Path>, n: nat, keys: seq<Key>,
                                      groups: map<Key, seq<Path>>, key: Key)
    requires n <= |lines| && Grouped(lines, modules, n, keys, groups) && key !in groups
    ensures GroupOf(lines[..n], modules, key) == []
  {
    hide GroupOf, InModule, Distinct;
    NoGroup(lines[..n], modules, key);
  }

  lemma {:induction false} GroupOfOneMore(lines: seq<Line>, modules: set<Path>, n: nat, key: Key)
    requires n < |lines|
    ensures GroupOf(lines[..n + 1], modules, key)
         == GroupOf(lines[..n], modules, key)
            + if InModule(lines[n], modules) && lines[n].key == key then [lines[n].path] else []
  {
    var more := lines[..n + 1];
    assert more[..|more| - 1] == lines[..n] && more[|more| - 1] == lines[n];
  }

  method Group(lines: seq<Line>, modules: set<Path>) returns (keys: seq<Key>, groups: map<Key, seq<Path>>)
    ensures Grouped(lines, modules, |lines|, keys, groups)
  {
    keys, groups := [], map[];
    var n := 0;
    while n < |lines|
      invariant n <= |lines| && Grouped(lines, modules, n, keys, groups)
    {
      GroupOne(lines, modules, n, keys, groups);
      var l := lines[n];
      if InModule(l, modules) {
        if l.key in groups {
          groups := groups[l.key := groups[l.key] + [l.path]];
        } else {
          keys, groups := keys + [l.key], groups[l.key := [l.path]];
        }
      }
      n := n + 1;
    }
  }

  /** A list of items in which each stands once for every key it is an item under. */
  ghost predicate Reports(lines: seq<Line>, keys: seq<Key>, found: seq<seq<Path>>) {
    forall c :: multiset(found)[c] == |KeysAmong(lines, keys, c)|
  }

  lemma {:induction false} ReportGroup(lines: seq<Line>, keys: seq<Key>, found: seq<seq<Path>>, key: Key,
                                       more: seq<seq<Path>>)
    requires Reports(lines, keys, found) && key !in keys && Distinct(more)
    requires forall c :: c in more <==> IsItemOf(lines, key, c)
    ensures Reports(lines, keys + [key], found + more)
  {
    hide IsItemOf, KeysAmong;
    forall c
      ensures multiset(found + more)[c] == |KeysAmong(lines, keys + [key], c)|
    {
      assert multiset(found)[c] == |KeysAmong(lines, keys, c)|;
      CountMore(lines, keys, key, more, c);
      assert multiset(found + more) == multiset(found) + multiset(more);
    }
  }

  lemma {:induction false} CountMore(lines: seq<Line>, keys: seq<Key>, key: Key, more: seq<seq<Path>>, c: seq<Path>)
    requires key !in keys && Distinct(more) && (c in more <==> IsItemOf(lines, key, c))
    ensures |KeysAmong(lines, keys + [key], c)| == |KeysAmong(lines, keys, c)| + multiset(more)[c]
  {
    hide IsItemOf;
    DistinctCount(more, c);
    var was, now := KeysAmong(lines, keys, c), KeysAmong(lines, keys + [key], c);
    assert now == if c in more then was + {key} else was;
  }

  /**
   Every item the snapshot shows at more than one path, as its sorted paths, in order. What is
   reported is the whole class: all paths that a chain of subset steps inside one group links.
   */
  method Duplicates(lines: seq<Line>) returns (out: seq<seq<Path>>)
    ensures SortedBy(PathsLeq, out)
    ensures forall c :: multiset(out)[c] == |KeysFor(lines, c)|
  {
    hide IsItem, GroupOf, PathsLeq;
    var modules := Modules(lines);
    var keys, groups := Group(lines, modules);
    assert lines[..|lines|] == lines;
    var found := [];
    var n := 0;
    while n < |keys|
      invariant n <= |keys| && Reports(lines, keys[..n], found)
    {
      var key := keys[n];
      var group := groups[key];
      var fps := FingerprintsOf(lines, group);
      assert key in groups;
      var more := [];
      if |group| < 2 {
        forall c
          ensures !IsItem(fps, group, c)
        {
          SmallGroup(fps, group, c);
        }
      } else {
        more := ItemsOf(fps, group);
      }
      assert keys[..n + 1] == keys[..n] + [key];
      ReportGroup(lines, keys[..n], found, key, more);
      found := found + more;
      n := n + 1;
    }
    assert keys[..n] == keys;
    out := Sorted(PathsLeq, found);
    PathOrders();
    SortedIsSorted(PathsLeq, found);
    forall c
      ensures multiset(out)[c] == |KeysFor(lines, c)|
    {
      KeysForAreGrouped(lines, keys, groups, c);
    }
  }

  lemma {:induction false} KeptLength(s: seq<Path>, keep: set<Path>)
    ensures |Kept(s, keep)| <= |s|
  {
    if s != [] {
      KeptLength(s[..|s| - 1], keep);
    }
  }

  lemma {:induction false} SmallGroup(fps: Fingerprints, group: seq<Path>, c: seq<Path>)
    requires |group| < 2
    ensures !IsItem(fps, group, c)
  {
    forall p | p in fps
      ensures |Sorted(PathLeq, Kept(group, Class(fps, p)))| < 2
    {
      KeptLength(group, Class(fps, p));
    }
  }

  /** A key with no module-level item has no items to report. */
  lemma {:induction false} KeysForAreGrouped(lines: seq<Line>, keys: seq<Key>, groups: map<Key, seq<Path>>,
                                             c: seq<Path>)
    requires Grouped(lines, Modules(lines), |lines|, keys, groups)
    ensures KeysAmong(lines, keys, c) == KeysFor(lines, c)
  {
    hide GroupOf, IsItem;
    assert lines[..|lines|] == lines;
    forall key | IsItemOf(lines, key, c)
      ensures key in keys && key in KeysOf(lines)
    {
      if forall l :: l in lines && InModule(l, Modules(lines)) ==> l.key != key {
        NoGroup(lines, Modules(lines), key);
        SmallGroup(FingerprintsOf(lines, []), [], c);
        assert false;
      }
      var l :| l in lines && InModule(l, Modules(lines)) && l.key == key;
      var i :| 0 <= i < |lines| && lines[i] == l;
    }
  }

  // ---------------------------------------------------------------- order does not matter

  lemma {:induction false} KeptBag(a: seq<Path>, b: seq<Path>, keep: set<Path>)
    requires multiset(a) == multiset(b)
    ensures multiset(Kept(a, keep)) == multiset(Kept(b, keep))
  {
    forall p
      ensures multiset(Kept(a, keep))[p] == multiset(Kept(b, keep))[p]
    {
      KeptCount(a, keep, p);
      KeptCount(b, keep, p);
    }
  }

  lemma {:induction false} KeptCount(s: seq<Path>, keep: set<Path>, p: Path)
    ensures multiset(Kept(s, keep))[p] == if p in keep then multiset(s)[p] else 0
  {
    if s != [] {
      KeptCount(s[..|s| - 1], keep, p);
      assert s == s[..|s| - 1] + [s[|s| - 1]];
    }
  }

  lemma {:induction false} GroupAppend(a: seq<Line>, b: seq<Line>, modules: set<Path>, key: Key)
    ensures GroupOf(a + b, modules, key) == GroupOf(a, modules, key) + GroupOf(b, modules, key)
  {
    if b == [] {
      assert a + b == a;
    } else {
      GroupAppend(a, b[..|b| - 1], modules, key);
      assert (a + b)[..|a + b| - 1] == a + b[..|b| - 1];
    }
  }

  lemma {:induction false} GroupBag(a: seq<Line>, b: seq<Line>, modules: set<Path>, key: Key)
    requires multiset(a) == multiset(b)
    ensures multiset(GroupOf(a, modules, key)) == multiset(GroupOf(b, modules, key))
  {
    assert |multiset(a)| == |a| && |multiset(b)| == |b|;
    if a != [] {
      var n := |a| - 1;
      var l := a[n];
      assert a == a[..n] + [l];
      SameMembers(a, b);
      assert l in a;
      var i :| 0 <= i < |b| && b[i] == l;
      var rest := b[..i] + b[i + 1..];
      assert b == b[..i] + [l] + b[i + 1..];
      assert multiset(rest) == multiset(b) - multiset{l};
      assert multiset(a[..n]) == multiset(a) - multiset{l};
      GroupBag(a[..n], rest, modules, key);
      GroupAppend(a[..n], [l], modules, key);
      GroupAppend(b[..i], b[i + 1..], modules, key);
      GroupAppend(b[..i] + [l], b[i + 1..], modules, key);
      GroupAppend(b[..i], [l], modules, key);
    }
  }

  lemma {:induction false} ItemsIgnoreOrder(a: seq<Line>, b: seq<Line>, key: Key, c: seq<Path>)
    requires multiset(a) == multiset(b) && IsItemOf(a, key, c)
    ensures IsItemOf(b, key, c)
  {
    hide OneItem, GroupOf, Kept;
    SameMembers(a, b);
    var modules := Modules(a);
    assert modules == Modules(b);
    var ga, gb := GroupOf(a, modules, key), GroupOf(b, modules, key);
    GroupBag(a, b, modules, key);
    SameMembers(ga, gb);
    assert forall p :: Fingerprint(a, p) == Fingerprint(b, p);
    var fps := FingerprintsOf(a, ga);
    assert fps == FingerprintsOf(b, gb);
    var p :| p in fps && c == Sorted(PathLeq, Kept(ga, Class(fps, p)));
    KeptBag(ga, gb, Class(fps, p));
    SortedBags(Kept(ga, Class(fps, p)), Kept(gb, Class(fps, p)));
  }

  lemma {:induction false} SortedBags(a: seq<Path>, b: seq<Path>)
    requires multiset(a) == multiset(b)
    ensures Sorted(PathLeq, a) == Sorted(PathLeq, b)
  {
    PathOrders();
    SortedIsSorted(PathLeq, a);
    SortedIsSorted(PathLeq, b);
    SortedUnique(PathLeq, Sorted(PathLeq, a), Sorted(PathLeq, b));
  }

  /** What the gate reports does not depend on the order of the snapshot's lines. */
  lemma {:induction false} ReportsIgnoreOrder(a: seq<Line>, b: seq<Line>, outA: seq<seq<Path>>, outB: seq<seq<Path>>)
    requires multiset(a) == multiset(b)
    requires SortedBy(PathsLeq, outA) && forall c :: multiset(outA)[c] == |KeysFor(a, c)|
    requires SortedBy(PathsLeq, outB) && forall c :: multiset(outB)[c] == |KeysFor(b, c)|
    ensures outA == outB
  {
    hide IsItemOf, PathsLeq;
    SameMembers(a, b);
    forall c
      ensures KeysFor(a, c) == KeysFor(b, c)
    {
      forall key
        ensures IsItemOf(a, key, c) <==> IsItemOf(b, key, c)
      {
        if IsItemOf(a, key, c) {
          ItemsIgnoreOrder(a, b, key, c);
        }
        if IsItemOf(b, key, c) {
          ItemsIgnoreOrder(b, a, key, c);
        }
      }
      assert KeysOf(a) == KeysOf(b);
    }
    PathOrders();
    assert multiset(outA) == multiset(outB);
    SortedUnique(PathsLeq, outA, outB);
  }

  // ---------------------------------------------------------------- the documented pairs

  /** `r` is below both, or above both, of two paths that are not related to one another. */
  ghost predicate Bridges(fps: Fingerprints, p: Path, r: Path, q: Path) {
    && p in fps && q in fps && r in fps && !Related(fps, p, q)
    && ((fps[r] <= fps[p] && fps[r] <= fps[q]) || (fps[p] <= fps[r] && fps[q] <= fps[r]))
  }

  /**
   "Two types that each have members the other lacks are distinct": the gate keeps that promise in
   exactly the groups where no third path is below both or above both of two such types.
   */
  lemma {:induction false} ItemsAreRelatedExactlyWhen(fps: Fingerprints)
    ensures (forall p, q :: p in fps && q in fps && OneItem(fps, p, q) ==> Related(fps, p, q))
       <==> (forall p, r, q :: !Bridges(fps, p, r, q))
  {
    if forall p, r, q :: !Bridges(fps, p, r, q) {
      forall p, q | p in fps && q in fps && OneItem(fps, p, q)
        ensures Related(fps, p, q)
      {
        var chain :| Links(fps, chain, p, q);
        ChainIsRelated(fps, chain);
      }
    }
    forall p, r, q | Bridges(fps, p, r, q)
      ensures OneItem(fps, p, q) && !Related(fps, p, q)
    {
      OneItemStep(fps, p, r);
      OneItemStep(fps, r, q);
      OneItemTransitive(fps, p, r, q);
    }
  }

  lemma {:induction false} ChainIsRelated(fps: Fingerprints, chain: seq<Path>)
    requires IsChain(fps, chain) && forall p, r, q :: !Bridges(fps, p, r, q)
    ensures Related(fps, chain[0], chain[|chain| - 1])
  {
    if |chain| > 1 {
      var rest := chain[..|chain| - 1];
      forall k | 0 <= k < |rest| - 1
        ensures Related(fps, rest[k], rest[k + 1])
      {
        assert Related(fps, chain[k], chain[k + 1]);
      }
      ChainIsRelated(fps, rest);
      var p, r, q := chain[0], chain[|chain| - 2], chain[|chain| - 1];
      assert Related(fps, chain[|chain| - 2], chain[|chain| - 2 + 1]);
      assert !Bridges(fps, p, r, q);
    }
  }

  /** One path without members is enough to report two types that share none as one item. */
  lemma {:induction false} BarePathJoinsTwoTypes(a: Path, bare: Path, b: Path, x: string, y: string)
    requires a != b && a != bare && b != bare && x != y
    ensures var fps := map[a := {x}, bare := {}, b := {y}];
            !Related(fps, a, b) && OneItem(fps, a, b)
  {
    var fps := map[a := {x}, bare := {}, b := {y}];
    assert x !in fps[b] && y !in fps[a];
    OneItemStep(fps, a, bare);
    OneItemStep(fps, bare, b);
    OneItemTransitive(fps, a, bare, b);
  }


  // ---------------------------------------------------------------- the report, read off the lines

  /** Line `i` shows a module-level item with this key. */
  ghost predicate IsShown(lines: seq<Line>, i: nat, key: Key) {
    && i < |lines| && lines[i].kind.Item? && lines[i].key == key
    && exists m :: m in lines && m.kind.Module? && m.path == lines[i].parent
  }

  ghost predicate IsListed(lines: seq<Line>, key: Key, p: Path) {
    exists i: nat :: IsShown(lines, i, key) && lines[i].path == p
  }

  ghost function TimesShown(lines: seq<Line>, key: Key, p: Path): nat {
    |set i: nat | i < |lines| && IsShown(lines, i, key) && lines[i].path == p|
  }

  /** Every member of and impl on `a` is printed the same, but for the path, for `b`. */
  ghost predicate MembersWithin(lines: seq<Line>, a: Path, b: Path) {
    forall l :: l in lines && l.owner == a ==> exists m :: m in lines && m.owner == b && m.shape == l.shape
  }

  ghost predicate OneStep(lines: seq<Line>, key: Key, a: Path, b: Path) {
    IsListed(lines, key, a) && IsListed(lines, key, b) && (MembersWithin(lines, a, b) || MembersWithin(lines, b, a))
  }

  ghost predicate IsTrail(lines: seq<Line>, key: Key, trail: seq<Path>, a: Path, b: Path) {
    && trail != [] && trail[0] == a && trail[|trail| - 1] == b
    && (forall i :: 0 <= i < |trail| ==> IsListed(lines, key, trail[i]))
    && forall i :: 0 <= i < |trail| - 1 ==> OneStep(lines, key, trail[i], trail[i + 1])
  }

  ghost predicate IsSameItem(lines: seq<Line>, key: Key, a: Path, b: Path) {
    exists trail :: IsTrail(lines, key, trail, a, b)
  }

  /** `c` holds, sorted and as often as they are shown, the paths that are one item with `p`. */
  ghost predicate IsWholeItem(lines: seq<Line>, key: Key, p: Path, c: seq<Path>) {
    && IsListed(lines, key, p) && SortedBy(PathLeq, c)
    && forall q :: multiset(c)[q] == if IsSameItem(lines, key, p, q) then TimesShown(lines, key, q) else 0
  }

  /** What is reported under a key, in terms of the snapshot's lines alone. */
  lemma {:induction false} ReportedExactlyWhen(lines: seq<Line>, key: Key, c: seq<Path>)
    ensures IsItemOf(lines, key, c) <==> |c| > 1 && exists p :: IsWholeItem(lines, key, p, c)
  {
    hide GroupOf, IsSameItem, OneItem, Kept, IsListed, SortedBy, TimesShown, PathLeq;
    var group := GroupOf(lines, Modules(lines), key);
    var fps := FingerprintsOf(lines, group);
    forall p
      ensures p in group <==> IsListed(lines, key, p)
    {
      GroupIsListed(lines, key, p);
    }
    forall p | p in fps
      ensures c == Sorted(PathLeq, Kept(group, Class(fps, p))) <==> IsWholeItem(lines, key, p, c)
    {
      ItemIsWhole(lines, key, p, c);
    }
  }

  lemma {:induction false} ItemIsWhole(lines: seq<Line>, key: Key, p: Path, c: seq<Path>)
    requires IsListed(lines, key, p)
    ensures var group := GroupOf(lines, Modules(lines), key);
      c == Sorted(PathLeq, Kept(group, Class(FingerprintsOf(lines, group), p))) <==> IsWholeItem(lines, key, p, c)
  {
    hide GroupOf, IsSameItem, OneItem, Kept, IsListed, SortedBy, TimesShown, PathLeq, FingerprintsOf;
    var group := GroupOf(lines, Modules(lines), key);
    var fps := FingerprintsOf(lines, group);
    var kept := Kept(group, Class(fps, p));
    forall q
      ensures multiset(kept)[q] == if IsSameItem(lines, key, p, q) then TimesShown(lines, key, q) else 0
    {
      KeptCount(group, Class(fps, p), q);
      GroupCounts(lines, key, q);
      ClassIsSameItem(lines, key, p, q);
    }
    PathOrder();
    SortedIsSorted(PathLeq, kept);
    if IsWholeItem(lines, key, p, c) {
      assert multiset(c) == multiset(kept);
      SortedUnique(PathLeq, c, Sorted(PathLeq, kept));
    }
  }

  ghost function CountedAt(lines: seq<Line>, modules: set<Path>, key: Key, p: Path): set<nat> {
    set i: nat | i < |lines| && InModule(lines[i], modules) && lines[i].key == key && lines[i].path == p
  }

  lemma {:induction false} GroupCounts(lines: seq<Line>, key: Key, p: Path)
    ensures multiset(GroupOf(lines, Modules(lines), key))[p] == TimesShown(lines, key, p)
  {
    hide GroupOf;
    CountIn(lines, Modules(lines), key, p);
    forall i: nat | i < |lines|
      ensures InModule(lines[i], Modules(lines)) && lines[i].key == key <==> IsShown(lines, i, key)
    {
    }
    assert CountedAt(lines, Modules(lines), key, p)
        == (set i: nat | i < |lines| && IsShown(lines, i, key) && lines[i].path == p);
  }

  lemma {:induction false} CountIn(lines: seq<Line>, modules: set<Path>, key: Key, p: Path)
    ensures multiset(GroupOf(lines, modules, key))[p] == |CountedAt(lines, modules, key, p)|
  {
    if lines != [] {
      var n := |lines| - 1;
      CountIn(lines[..n], modules, key, p);
      CountedOneMore(lines, modules, key, p);
    } else {
      assert CountedAt(lines, modules, key, p) == {};
    }
  }

  lemma {:induction false} CountedOneMore(lines: seq<Line>, modules: set<Path>, key: Key, p: Path)
    requires lines != []
    ensures var n := |lines| - 1;
      |CountedAt(lines, modules, key, p)| == |CountedAt(lines[..n], modules, key, p)|
        + if InModule(lines[n], modules) && lines[n].key == key && lines[n].path == p then 1 else 0
  {
    hide InModule;
    var n := |lines| - 1;
    var was, now := CountedAt(lines[..n], modules, key, p), CountedAt(lines, modules, key, p);
    var counts := InModule(lines[n], modules) && lines[n].key == key && lines[n].path == p;
    forall i: nat
      ensures i in now <==> i in was || (i == n && counts)
    {
      assert i < n ==> lines[..n][i] == lines[i];
    }
    assert n !in was;
    hide CountedAt;
    assert now == if counts then was + {n} else was;
  }

  lemma {:induction false} GroupIsListed(lines: seq<Line>, key: Key, p: Path)
    ensures p in GroupOf(lines, Modules(lines), key) <==> IsListed(lines, key, p)
  {
    hide GroupOf, IsShown;
    GroupCounts(lines, key, p);
    var at := set i: nat | i < |lines| && IsShown(lines, i, key) && lines[i].path == p;
    forall i: nat | IsShown(lines, i, key)
      ensures i < |lines|
    {
      ShownInRange(lines, i, key);
    }
    if IsListed(lines, key, p) {
      var i: nat :| IsShown(lines, i, key) && lines[i].path == p;
      assert i in at;
    } else {
      assert at == {};
    }
  }

  lemma {:induction false} ShownInRange(lines: seq<Line>, i: nat, key: Key)
    requires IsShown(lines, i, key)
    ensures i < |lines|
  {
  }

  lemma {:induction false} RelatedIsWithin(lines: seq<Line>, group: seq<Path>, a: Path, b: Path)
    requires a in group && b in group
    ensures Related(FingerprintsOf(lines, group), a, b) <==> MembersWithin(lines, a, b) || MembersWithin(lines, b, a)
  {
    SubsetIsWithin(lines, a, b);
    SubsetIsWithin(lines, b, a);
  }

  lemma {:induction false} SubsetIsWithin(lines: seq<Line>, a: Path, b: Path)
    ensures Fingerprint(lines, a) <= Fingerprint(lines, b) <==> MembersWithin(lines, a, b)
  {
    forall l | l in lines && l.owner == a
      ensures l.shape in Fingerprint(lines, b) <==> exists m :: m in lines && m.owner == b && m.shape == l.shape
    {
    }
    forall l | l in lines && l.owner == a
      ensures l.shape in Fingerprint(lines, a)
    {
    }
  }

  lemma {:induction false} ClassIsSameItem(lines: seq<Line>, key: Key, p: Path, q: Path)
    ensures var fps := FingerprintsOf(lines, GroupOf(lines, Modules(lines), key));
      q in Class(fps, p) <==> IsSameItem(lines, key, p, q)
  {
    hide GroupOf, IsListed, Related, MembersWithin;
    var group := GroupOf(lines, Modules(lines), key);
    var fps := FingerprintsOf(lines, group);
    forall chain
      ensures Links(fps, chain, p, q) <==> IsTrail(lines, key, chain, p, q)
    {
      forall i | 0 <= i < |chain|
        ensures chain[i] in fps <==> IsListed(lines, key, chain[i])
      {
        GroupIsListed(lines, key, chain[i]);
      }
      forall i | 0 <= i < |chain| - 1 && chain[i] in fps && chain[i + 1] in fps
        ensures Related(fps, chain[i], chain[i + 1])
           <==> MembersWithin(lines, chain[i], chain[i + 1]) || MembersWithin(lines, chain[i + 1], chain[i])
      {
        RelatedIsWithin(lines, group, chain[i], chain[i + 1]);
      }
    }
    if IsSameItem(lines, key, p, q) {
      var trail :| IsTrail(lines, key, trail, p, q);
      assert Links(fps, trail, p, q);
    }
  }

  /** Lines `i` and `j` alone show items with this key, at two paths. */
  ghost predicate IsPair(lines: seq<Line>, i: nat, j: nat, key: Key) {
    && IsShown(lines, i, key) && IsShown(lines, j, key) && lines[i].path != lines[j].path
    && forall k: nat :: IsShown(lines, k, key) ==> k == i || k == j
  }

  /**
   Where two lines share a key and no third does, their paths are reported, and nothing else is under that
   key, exactly when one path's members are all among the other's.
   */
  lemma {:induction false} PairIsReportedExactlyWhen(lines: seq<Line>, i: nat, j: nat, key: Key, c: seq<Path>)
    requires IsPair(lines, i, j, key)
    ensures var a, b := lines[i].path, lines[j].path;
      IsItemOf(lines, key, c) <==>
        && (MembersWithin(lines, a, b) || MembersWithin(lines, b, a))
        && SortedBy(PathLeq, c) && multiset(c) == multiset{a, b}
  {
    var a, b := lines[i].path, lines[j].path;
    hide IsItemOf, IsSameItem, IsShown, MembersWithin, SortedBy, TimesShown, PathLeq;
    ReportedExactlyWhen(lines, key, c);
    forall q
      ensures TimesShown(lines, key, q) == if q == a || q == b then 1 else 0
    {
      PairIsShownOnce(lines, i, j, key, q);
    }
    assert IsListed(lines, key, a) && IsListed(lines, key, b);
    forall p, q | p in {a, b}
      ensures IsSameItem(lines, key, p, q)
         <==> p == q || (q in {a, b} && (MembersWithin(lines, a, b) || MembersWithin(lines, b, a)))
    {
      PairTrails(lines, i, j, key, p, q);
    }
    PairBag(lines, key, a, b, c);
  }

  lemma {:induction false} PairIsShownOnce(lines: seq<Line>, i: nat, j: nat, key: Key, q: Path)
    requires IsPair(lines, i, j, key)
    ensures TimesShown(lines, key, q) == if q == lines[i].path || q == lines[j].path then 1 else 0
    ensures IsListed(lines, key, q) <==> q == lines[i].path || q == lines[j].path
  {
    hide IsShown;
    ShownInRange(lines, i, key);
    ShownInRange(lines, j, key);
    var at := set k: nat | k < |lines| && IsShown(lines, k, key) && lines[k].path == q;
    assert at == if q == lines[i].path then {i} else if q == lines[j].path then {j} else {};
    forall k: nat | IsShown(lines, k, key)
      ensures lines[k].path == lines[i].path || lines[k].path == lines[j].path
    {
    }
  }

  lemma {:induction false} PairTrails(lines: seq<Line>, i: nat, j: nat, key: Key, p: Path, q: Path)
    requires IsPair(lines, i, j, key) && p in {lines[i].path, lines[j].path}
    ensures var a, b := lines[i].path, lines[j].path;
      IsSameItem(lines, key, p, q) <==>
        p == q || (q in {a, b} && (MembersWithin(lines, a, b) || MembersWithin(lines, b, a)))
  {
    var a, b := lines[i].path, lines[j].path;
    hide IsShown, MembersWithin, IsPair;
    PairIsShownOnce(lines, i, j, key, p);
    PairIsShownOnce(lines, i, j, key, q);
    hide IsListed;
    if p == q {
      assert IsTrail(lines, key, [p], p, q);
    } else if q in {a, b} && (MembersWithin(lines, a, b) || MembersWithin(lines, b, a)) {
      assert IsTrail(lines, key, [p, q], p, q);
    } else if IsSameItem(lines, key, p, q) {
      var trail :| IsTrail(lines, key, trail, p, q);
      TrailStays(lines, i, j, key, trail, p, q);
      assert false;
    }
  }

  lemma {:induction false} TrailStays(lines: seq<Line>, i: nat, j: nat, key: Key, trail: seq<Path>, p: Path, q: Path)
    requires IsPair(lines, i, j, key) && IsTrail(lines, key, trail, p, q)
    requires var a, b := lines[i].path, lines[j].path; !(MembersWithin(lines, a, b) || MembersWithin(lines, b, a))
    ensures p == q
    decreases |trail|
  {
    hide IsShown, MembersWithin, IsPair;
    if |trail| > 1 {
      PairIsShownOnce(lines, i, j, key, trail[0]);
      PairIsShownOnce(lines, i, j, key, trail[1]);
      hide IsListed;
      assert OneStep(lines, key, trail[0], trail[0 + 1]);
      var rest := trail[1..];
      forall k | 0 <= k < |rest| - 1
        ensures OneStep(lines, key, rest[k], rest[k + 1])
      {
        assert OneStep(lines, key, trail[k + 1], trail[k + 1 + 1]);
      }
      assert IsTrail(lines, key, rest, trail[1], q);
      TrailStays(lines, i, j, key, rest, trail[1], q);
    }
  }

  lemma {:induction false} PairBag(lines: seq<Line>, key: Key, a: Path, b: Path, c: seq<Path>)
    requires a != b && IsListed(lines, key, a) && IsListed(lines, key, b)
    requires forall p :: IsListed(lines, key, p) ==> p == a || p == b
    requires forall q :: TimesShown(lines, key, q) == if q == a || q == b then 1 else 0
    requires forall p, q :: p in {a, b} ==>
      (IsSameItem(lines, key, p, q) <==>
       p == q || (q in {a, b} && (MembersWithin(lines, a, b) || MembersWithin(lines, b, a))))
    ensures (|c| > 1 && exists p :: IsWholeItem(lines, key, p, c)) <==>
        && (MembersWithin(lines, a, b) || MembersWithin(lines, b, a))
        && SortedBy(PathLeq, c) && multiset(c) == multiset{a, b}
  {
    hide IsListed, IsSameItem, MembersWithin, SortedBy, TimesShown, PathLeq;
    var within := MembersWithin(lines, a, b) || MembersWithin(lines, b, a);
    assert |multiset(c)| == |c|;
    if |c| > 1 && exists p :: IsWholeItem(lines, key, p, c) {
      var p :| IsWholeItem(lines, key, p, c);
      var all := if within then multiset{a, b} else multiset{p};
      assert forall q :: multiset(c)[q] == all[q];
      assert multiset(c) == all;
    }
    if within && SortedBy(PathLeq, c) && multiset(c) == multiset{a, b} {
      assert IsWholeItem(lines, key, a, c);
    }
  }

  /** A path without members or impls beside one of the same key is reported with it. */
  lemma {:induction false} BarePathIsReported(lines: seq<Line>, i: nat, j: nat, key: Key, c: seq<Path>)
    requires IsPair(lines, i, j, key) && forall l :: l in lines ==> l.owner != lines[i].path
    requires SortedBy(PathLeq, c) && multiset(c) == multiset{lines[i].path, lines[j].path}
    ensures key in KeysFor(lines, c)
  {
    hide IsItemOf, SortedBy, PathLeq;
    PairIsReportedExactlyWhen(lines, i, j, key, c);
  }

  /** Two types that each have a member the other lacks are not reported. */
  lemma {:induction false} DistinctTypesAreNot(lines: seq<Line>, i: nat, j: nat, key: Key, l: Line, m: Line,
                                               c: seq<Path>)
    requires IsPair(lines, i, j, key) && l in lines && m in lines
    requires l.owner == lines[i].path && forall n :: n in lines && n.owner == lines[j].path ==> n.shape != l.shape
    requires m.owner == lines[j].path && forall n :: n in lines && n.owner == lines[i].path ==> n.shape != m.shape
    ensures key !in KeysFor(lines, c)
  {
    hide IsItemOf, SortedBy, PathLeq;
    PairIsReportedExactlyWhen(lines, i, j, key, c);
  }
}
