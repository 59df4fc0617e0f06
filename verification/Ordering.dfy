/** Sorting as Python does it: total orders, their lexicographic extension to lists, and `sorted`. */
module Ordering {
  import opened Basics

  ghost predicate TotalOrder<T(!new)>(leq: (T, T) -> bool) {
    && (forall x :: leq(x, x))
    && (forall x, y :: leq(x, y) || leq(y, x))
    && (forall x, y :: leq(x, y) && leq(y, x) ==> x == y)
    && (forall x, y, z :: leq(x, y) && leq(y, z) ==> leq(x, z))
  }

  /** Lists compare by their first difference, a prefix before its extensions. */
  predicate Lex<T(==)>(leq: (T, T) -> bool, a: seq<T>, b: seq<T>) {
    a == [] || (b != [] && if a[0] == b[0] then Lex(leq, a[1..], b[1..]) else leq(a[0], b[0]))
  }

  lemma {:induction false} LexTotal<T(!new)>(leq: (T, T) -> bool, a: seq<T>, b: seq<T>)
    requires TotalOrder(leq)
    ensures Lex(leq, a, a) && (Lex(leq, a, b) || Lex(leq, b, a))
    ensures Lex(leq, a, b) && Lex(leq, b, a) ==> a == b
  {
    if a != [] {
      if b != [] && a[0] == b[0] {
        LexTotal(leq, a[1..], b[1..]);
        assert a == [a[0]] + a[1..] && b == [b[0]] + b[1..];
      } else {
        LexTotal(leq, a[1..], a[1..]);
      }
    }
  }

  lemma {:induction false} LexTransitive<T(!new)>(leq: (T, T) -> bool, a: seq<T>, b: seq<T>, c: seq<T>)
    requires TotalOrder(leq) && Lex(leq, a, b) && Lex(leq, b, c)
    ensures Lex(leq, a, c)
  {
    if a != [] && a[0] == b[0] == c[0] {
      LexTransitive(leq, a[1..], b[1..], c[1..]);
    }
  }

  lemma {:induction false} LexIsTotalOrder<T(!new)>(leq: (T, T) -> bool)
    requires TotalOrder(leq)
    ensures TotalOrder((a: seq<T>, b: seq<T>) => Lex(leq, a, b))
  {
    forall a, b
      ensures Lex(leq, a, a) && (Lex(leq, a, b) || Lex(leq, b, a))
      ensures Lex(leq, a, b) && Lex(leq, b, a) ==> a == b
    {
      LexTotal(leq, a, b);
    }
    forall a, b, c | Lex(leq, a, b) && Lex(leq, b, c)
      ensures Lex(leq, a, c)
    {
      LexTransitive(leq, a, b, c);
    }
  }

  predicate SortedBy<T>(leq: (T, T) -> bool, s: seq<T>) {
    forall i, j :: 0 <= i < j < |s| ==> leq(s[i], s[j])
  }

  function Inserted<T>(leq: (T, T) -> bool, x: T, s: seq<T>): (r: seq<T>)
    ensures multiset(r) == multiset{x} + multiset(s) && |r| == |s| + 1
  {
    if s == [] || leq(x, s[0]) then [x] + s
    else
      assert s == [s[0]] + s[1..];
      [s[0]] + Inserted(leq, x, s[1..])
  }

  /** `sorted(s)`. */
  function Sorted<T>(leq: (T, T) -> bool, s: seq<T>): (r: seq<T>)
    ensures multiset(r) == multiset(s) && |r| == |s|
  {
    if s == [] then []
    else
      assert s == [s[0]] + s[1..];
      Inserted(leq, s[0], Sorted(leq, s[1..]))
  }

  lemma {:induction false} SameMembers<T>(a: seq<T>, b: seq<T>)
    requires multiset(a) == multiset(b)
    ensures forall x :: x in a <==> x in b
  {
    forall x
      ensures x in a <==> x in b
    {
      assert x in a <==> x in multiset(a);
      assert x in b <==> x in multiset(b);
    }
  }

  lemma {:induction false} InsertedSorted<T(!new)>(leq: (T, T) -> bool, x: T, s: seq<T>)
    requires TotalOrder(leq) && SortedBy(leq, s)
    ensures SortedBy(leq, Inserted(leq, x, s))
  {
    if s != [] {
      if leq(x, s[0]) {
        assert forall j :: 0 <= j < |s| ==> leq(x, s[j]);
      } else {
        InsertedSorted(leq, x, s[1..]);
        var rest := Inserted(leq, x, s[1..]);
        forall j | 0 <= j < |rest|
          ensures leq(s[0], rest[j])
        {
          assert rest[j] in multiset(rest);
          if rest[j] != x {
            assert rest[j] in multiset(s[1..]);
            assert rest[j] in s[1..];
          }
        }
      }
    }
  }

  lemma {:induction false} SortedIsSorted<T(!new)>(leq: (T, T) -> bool, s: seq<T>)
    requires TotalOrder(leq)
    ensures SortedBy(leq, Sorted(leq, s))
  {
    if s != [] {
      SortedIsSorted(leq, s[1..]);
      InsertedSorted(leq, s[0], Sorted(leq, s[1..]));
    }
  }

  lemma {:induction false} SortedHead<T(!new)>(leq: (T, T) -> bool, a: seq<T>, b: seq<T>)
    requires TotalOrder(leq) && SortedBy(leq, a) && SortedBy(leq, b) && multiset(a) == multiset(b) && a != []
    ensures b != [] && a[0] == b[0]
  {
    SameMembers(a, b);
    assert a[0] in a && a[0] in b;
    assert b[0] in b && b[0] in a;
    var i :| 0 <= i < |a| && a[i] == b[0];
    var j :| 0 <= j < |b| && b[j] == a[0];
    assert leq(a[0], b[0]) && leq(b[0], a[0]);
  }

  lemma {:induction false} SameTail<T>(x: T, a: seq<T>, b: seq<T>)
    requires multiset([x] + a) == multiset([x] + b)
    ensures multiset(a) == multiset(b)
  {
    assert multiset(a) == multiset([x] + a) - multiset{x};
    assert multiset(b) == multiset([x] + b) - multiset{x};
  }

  /** What is sorted does not depend on the order it came in. */
  lemma {:induction false} SortedUnique<T(!new)>(leq: (T, T) -> bool, a: seq<T>, b: seq<T>)
    requires TotalOrder(leq) && SortedBy(leq, a) && SortedBy(leq, b) && multiset(a) == multiset(b)
    ensures a == b
  {
    if a == [] {
      assert |multiset(b)| == 0;
    } else {
      SortedHead(leq, a, b);
      var x, restA, restB := a[0], a[1..], b[1..];
      assert SortedBy(leq, restA) && SortedBy(leq, restB);
      hide *;
      assert a == [x] + restA && b == [x] + restB;
      SameTail(x, restA, restB);
      SortedUnique(leq, restA, restB);
    }
  }

  /** Text compares by code point. */
  predicate CharLeq(a: char, b: char) {
    a <= b
  }

  predicate TextLeq(a: string, b: string) {
    Lex(CharLeq, a, b)
  }

  lemma {:induction false} TextOrder()
    ensures TotalOrder(TextLeq)
  {
    LexIsTotalOrder(CharLeq);
    var f := (a: string, b: string) => Lex(CharLeq, a, b);
    assert TotalOrder(f);
    forall x, y ensures TextLeq(x, y) == f(x, y) {}
    assert forall x: string, y: string :: TextLeq(x, y) ==> f(x, y);
  }

  /** An item's public path, as printed. */
  datatype Path = Path(text: string)

  predicate PathLeq(a: Path, b: Path) {
    TextLeq(a.text, b.text)
  }

  lemma {:induction false} PathOrder()
    ensures TotalOrder(PathLeq)
  {
    TextOrder();
    forall x: Path, y: Path
      ensures PathLeq(x, x) && (PathLeq(x, y) || PathLeq(y, x))
      ensures PathLeq(x, y) && PathLeq(y, x) ==> x == y
    {
      assert TextLeq(x.text, y.text) || TextLeq(y.text, x.text);
    }
    forall x: Path, y: Path, z: Path | PathLeq(x, y) && PathLeq(y, z)
      ensures PathLeq(x, z)
    {
      assert TextLeq(x.text, y.text) && TextLeq(y.text, z.text);
    }
  }

  lemma {:induction false} DistinctCount<T>(s: seq<T>, x: T)
    requires Distinct(s)
    ensures multiset(s)[x] == if x in s then 1 else 0
  {
    if s != [] {
      DistinctCount(s[1..], x);
      assert s == [s[0]] + s[1..];
    }
  }

  function Without<T>(s: seq<T>, i: nat): seq<T>
    requires i < |s|
  {
    s[..i] + s[i + 1..]
  }

  lemma {:induction false} RemoveOne<T>(s: seq<T>, i: nat)
    requires i < |s|
    ensures multiset(s) == multiset(Without(s, i)) + multiset{s[i]}
    ensures multiset(Without(s, i)) == multiset(s) - multiset{s[i]}
  {
    assert s == s[..i] + [s[i]] + s[i + 1..];
  }

  lemma {:induction false} DistinctBag<T>(a: seq<T>, b: seq<T>)
    requires multiset(a) == multiset(b) && Distinct(a)
    ensures Distinct(b)
  {
    forall i, j | 0 <= i < j < |b|
      ensures b[i] != b[j]
    {
      if b[i] == b[j] {
        assert b == b[..j] + b[j..] && b[i] in b[..j] && b[j] in b[j..];
        assert multiset(b) == multiset(b[..j]) + multiset(b[j..]);
        DistinctCount(a, b[i]);
        assert false;
      }
    }
  }

  /** `sorted` of a set. */
  method SortedSet<T(!new, ==)>(leq: (T, T) -> bool, s: set<T>) returns (r: seq<T>)
    requires TotalOrder(leq)
    ensures SortedBy(leq, r) && Distinct(r) && forall x :: x in r <==> x in s
  {
    var rest, found := s, [];
    while rest != {}
      invariant rest <= s && Distinct(found) && forall x :: x in found <==> x in s - rest
    {
      var x :| x in rest;
      DistinctSnoc(found, x);
      found, rest := found + [x], rest - {x};
    }
    r := Sorted(leq, found);
    SortedIsSorted(leq, found);
    SameMembers(r, found);
    DistinctBag(found, r);
  }
}
