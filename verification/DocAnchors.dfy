/** The anchors a Markdown page exposes: each heading's slug, suffixed until it is unused, and explicit ids. */
module DocAnchors {
  import opened Basics
  import opened CodeMasks

  /** An anchor, or a heading's slug before any suffix. */
  datatype Anchor = Anchor(text: string)

  // ---------------------------------------------------------------- suffixes

  function Digit(d: nat): (c: char)
    requires d < 10
  {
    "0123456789"[d]
  }

  function Decimal(k: nat): string {
    if k < 10 then [Digit(k)] else Decimal(k / 10) + [Digit(k % 10)]
  }

  /** What `Decimal` wrote, read back. */
  ghost function Value(s: string): nat {
    if s == "" then 0 else 10 * Value(s[..|s| - 1]) + DigitValue(s[|s| - 1])
  }

  ghost function DigitValue(c: char): nat {
    if '0' <= c <= '9' then c as nat - '0' as nat else 0
  }

  lemma {:induction false} DecimalReadsBack(k: nat)
    ensures Value(Decimal(k)) == k
  {
    assert forall d: nat :: d < 10 ==> DigitValue(Digit(d)) == d;
    if k < 10 {
      assert Decimal(k)[..0] == "";
    } else {
      DecimalReadsBack(k / 10);
      assert Decimal(k)[..|Decimal(k)| - 1] == Decimal(k / 10);
    }
  }

  /** The `k`th slug tried for a heading. */
  function Candidate(base: Anchor, k: nat): Anchor {
    if k == 0 then base else Anchor(base.text + "-" + Decimal(k))
  }

  lemma {:induction false} CandidatesDiffer(base: Anchor, j: nat, k: nat)
    requires Candidate(base, j) == Candidate(base, k)
    ensures j == k
  {
    var n := |base.text|;
    if j > 0 && k > 0 {
      assert (base.text + "-" + Decimal(j))[n + 1..] == Decimal(j);
      assert (base.text + "-" + Decimal(k))[n + 1..] == Decimal(k);
      DecimalReadsBack(j);
      DecimalReadsBack(k);
    }
  }

  ghost function Tried(base: Anchor, k: nat): (tried: set<Anchor>) {
    set j | 0 <= j < k :: Candidate(base, j)
  }

  /** The candidates before the `k`th are `k` different anchors. */
  lemma {:induction false} TriedAreDifferent(base: Anchor, k: nat)
    ensures |Tried(base, k)| == k
  {
    hide Candidate;
    if k > 0 {
      TriedAreDifferent(base, k - 1);
      assert Tried(base, k) == Tried(base, k - 1) + {Candidate(base, k - 1)};
      if j: nat :| j < k - 1 && Candidate(base, j) == Candidate(base, k - 1) {
        CandidatesDiffer(base, j, k - 1);
      }
    }
  }

  /** So as many candidates as there are anchors in use cannot all be among them. */
  lemma {:induction false} TriesAreBounded(base: Anchor, seen: set<Anchor>, k: nat)
    requires Tried(base, k) <= seen
    ensures k <= |seen|
  {
    TriedAreDifferent(base, k);
    SubsetIsNoLarger(Tried(base, k), seen);
  }

  /** `slug` is the first candidate for `base` not in use. */
  ghost predicate IsFirstUnused(base: Anchor, seen: set<Anchor>, slug: Anchor, k: nat) {
    slug == Candidate(base, k) && slug !in seen && Tried(base, k) <= seen
  }

  method FirstUnused(base: Anchor, seen: set<Anchor>) returns (slug: Anchor, k: nat)
    ensures IsFirstUnused(base, seen, slug, k) && k <= |seen|
  {
    hide Candidate;
    slug, k := base, 0;
    FirstIsBase(base);
    while slug in seen
      invariant slug == Candidate(base, k) && Tried(base, k) <= seen && k <= |seen|
      decreases |seen| - k
    {
      assert Tried(base, k + 1) == Tried(base, k) + {slug};
      TriesAreBounded(base, seen, k + 1);
      k := k + 1;
      slug := Candidate(base, k);
    }
  }

  lemma {:induction false} FirstIsBase(base: Anchor)
    ensures Candidate(base, 0) == base && Tried(base, 0) == {}
  {
  }

  /** What a heading's slug is, given the ones in use, does not depend on how it is found. */
  lemma {:induction false} FirstUnusedIsUnique(base: Anchor, seen: set<Anchor>, x: Anchor, j: nat, y: Anchor, k: nat)
    requires IsFirstUnused(base, seen, x, j) && IsFirstUnused(base, seen, y, k)
    ensures x == y && j == k
  {
    hide Candidate;
    assert j < k ==> Candidate(base, j) in Tried(base, k);
    assert k < j ==> Candidate(base, k) in Tried(base, j);
  }

  // ---------------------------------------------------------------- a page's headings

  ghost function Elements<T>(s: seq<T>): set<T> {
    set x | x in s
  }

  /** `slugs` are the slugs given to headings with these bases, in page order. */
  ghost predicate AreSlugs(bases: seq<Anchor>, slugs: seq<Anchor>) {
    |slugs| == |bases| && forall i :: 0 <= i < |bases| ==> IsSlugAt(bases, slugs, i)
  }

  ghost predicate IsSlugAt(bases: seq<Anchor>, slugs: seq<Anchor>, i: nat)
    requires i < |bases| == |slugs|
  {
    exists k: nat :: IsFirstUnused(bases[i], Elements(slugs[..i]), slugs[i], k)
  }

  lemma {:induction false} OneMoreSlug(bases: seq<Anchor>, slugs: seq<Anchor>, base: Anchor, slug: Anchor, k: nat)
    requires AreSlugs(bases, slugs) && IsFirstUnused(base, Elements(slugs), slug, k)
    ensures AreSlugs(bases + [base], slugs + [slug])
  {
    hide IsFirstUnused;
    var bs, ss := bases + [base], slugs + [slug];
    forall i | 0 <= i < |bs|
      ensures IsSlugAt(bs, ss, i)
    {
      assert ss[..i] == slugs[..i];
      if i < |bases| {
        assert IsSlugAt(bases, slugs, i);
        var j: nat :| IsFirstUnused(bases[i], Elements(slugs[..i]), slugs[i], j);
        assert IsFirstUnused(bs[i], Elements(ss[..i]), ss[i], j);
      } else {
        assert slugs[..i] == slugs;
        assert IsFirstUnused(bs[i], Elements(ss[..i]), ss[i], k);
      }
    }
  }

  /** Every heading of a page gets an anchor of its own. */
  lemma {:induction false} SlugsAreDistinct(bases: seq<Anchor>, slugs: seq<Anchor>)
    requires AreSlugs(bases, slugs)
    ensures Distinct(slugs)
  {
    forall i, j | 0 <= i < j < |slugs|
      ensures slugs[i] != slugs[j]
    {
      assert IsSlugAt(bases, slugs, j);
      assert slugs[..j][i] == slugs[i];
    }
  }

  /** The headings of a page decide their slugs. */
  lemma {:induction false} SlugsAreDetermined(bases: seq<Anchor>, a: seq<Anchor>, b: seq<Anchor>, n: nat)
    requires AreSlugs(bases, a) && AreSlugs(bases, b) && n <= |bases|
    ensures a[..n] == b[..n]
    decreases n
  {
    hide IsFirstUnused;
    if n > 0 {
      SlugsAreDetermined(bases, a, b, n - 1);
      assert IsSlugAt(bases, a, n - 1) && IsSlugAt(bases, b, n - 1);
      var seen := Elements(a[..n - 1]);
      var j: nat :| IsFirstUnused(bases[n - 1], seen, a[n - 1], j);
      var k: nat :| IsFirstUnused(bases[n - 1], seen, b[n - 1], k);
      FirstUnusedIsUnique(bases[n - 1], seen, a[n - 1], j, b[n - 1], k);
      assert a[..n] == a[..n - 1] + [a[n - 1]] && b[..n] == b[..n - 1] + [b[n - 1]];
    }
  }

  /** How often a base came up before. */
  ghost function Earlier(bases: seq<Anchor>, base: Anchor): (n: nat) {
    if bases == [] then 0
    else Earlier(bases[..|bases| - 1], base) + if bases[|bases| - 1] == base then 1 else 0
  }

  /** The slug that numbering repeats from zero would give: a second heading `-1`, a third `-2`, and so on. */
  ghost function Numbered(bases: seq<Anchor>, i: nat): Anchor
    requires i < |bases|
  {
    Candidate(bases[i], Earlier(bases[..i], bases[i]))
  }

  ghost predicate NumbersDiffer(bases: seq<Anchor>) {
    forall i, j :: 0 <= i < j < |bases| ==> Numbered(bases, i) != Numbered(bases, j)
  }

  /** No heading is, before suffixes, what another heading's suffix could make. */
  ghost predicate NoneLooksSuffixed(bases: seq<Anchor>) {
    forall b, c, k: nat :: b in bases && c in bases && 1 <= k ==> c != Candidate(b, k)
  }

  lemma {:induction false} DecimalIsDigits(k: nat, i: nat)
    requires i < |Decimal(k)|
    ensures '0' <= Decimal(k)[i] <= '9'
  {
    assert forall d: nat :: d < 10 ==> '0' <= Digit(d) <= '9';
    if k >= 10 && i < |Decimal(k / 10)| {
      DecimalIsDigits(k / 10, i);
    }
  }

  lemma {:induction false} NoDashAfter(b: Anchor, k: nat, i: nat)
    requires 1 <= k && |b.text| < i < |Candidate(b, k).text|
    ensures Candidate(b, k).text[i] != '-'
  {
    DecimalIsDigits(k, i - |b.text| - 1);
  }

  /** A suffixed slug has one reading. */
  lemma {:induction false} SuffixedOnce(b: Anchor, j: nat, c: Anchor, k: nat)
    requires 1 <= j && 1 <= k && Candidate(b, j) == Candidate(c, k)
    ensures b == c && j == k
  {
    var s := Candidate(b, j).text;
    var m, n := |b.text|, |c.text|;
    assert s == b.text + "-" + Decimal(j) && s == c.text + "-" + Decimal(k);
    assert s[m] == '-' && s[n] == '-';
    if m < n {
      NoDashAfter(b, j, n);
      assert false;
    }
    if n < m {
      NoDashAfter(c, k, m);
      assert false;
    }
    assert s[..m] == b.text && s[..n] == c.text;
    CandidatesDiffer(b, j, k);
  }

  lemma {:induction false} EarlierGrows(bases: seq<Anchor>, t: nat, i: nat)
    requires t < i <= |bases|
    ensures Earlier(bases[..t], bases[t]) < Earlier(bases[..i], bases[t])
  {
    var prefix := bases[..i];
    assert prefix[..|prefix| - 1] == bases[..i - 1] && prefix[|prefix| - 1] == bases[i - 1];
    if t < i - 1 {
      EarlierGrows(bases, t, i - 1);
    }
  }

  /** The heading that came up with `j` of its base before it. */
  lemma {:induction false} EarlierOne(bases: seq<Anchor>, i: nat, base: Anchor, j: nat) returns (t: nat)
    requires i <= |bases| && j < Earlier(bases[..i], base)
    ensures t < i && bases[t] == base && Earlier(bases[..t], base) == j
  {
    var prefix := bases[..i];
    assert prefix[..|prefix| - 1] == bases[..i - 1] && prefix[|prefix| - 1] == bases[i - 1];
    if bases[i - 1] == base && Earlier(bases[..i - 1], base) == j {
      t := i - 1;
    } else {
      t := EarlierOne(bases, i - 1, base, j);
    }
  }

  lemma {:induction false} DifferentNumbersAreGiven(bases: seq<Anchor>, slugs: seq<Anchor>, i: nat)
    requires AreSlugs(bases, slugs) && NumbersDiffer(bases) && i < |bases|
    ensures slugs[i] == Numbered(bases, i)
    decreases i
  {
    hide Candidate, Earlier;
    var base, m, seen := bases[i], Earlier(bases[..i], bases[i]), Elements(slugs[..i]);
    forall a | a in Tried(base, m)
      ensures a in seen
    {
      var j: nat :| j < m && a == Candidate(base, j);
      var t := EarlierOne(bases, i, base, j);
      DifferentNumbersAreGiven(bases, slugs, t);
      assert slugs[..i][t] == a;
    }
    if Numbered(bases, i) in seen {
      var t :| 0 <= t < i && slugs[..i][t] == Numbered(bases, i);
      DifferentNumbersAreGiven(bases, slugs, t);
      assert false;
    }
    assert IsSlugAt(bases, slugs, i);
    var k: nat :| IsFirstUnused(base, seen, slugs[i], k);
    FirstUnusedIsUnique(base, seen, slugs[i], k, Candidate(base, m), m);
  }

  /** Repeats are numbered `-1`, `-2` and so on exactly when the slugs that makes are all different. */
  lemma {:induction false} RepeatsAreNumberedExactlyWhen(bases: seq<Anchor>, slugs: seq<Anchor>)
    requires AreSlugs(bases, slugs)
    ensures (forall i :: 0 <= i < |bases| ==> slugs[i] == Numbered(bases, i)) <==> NumbersDiffer(bases)
  {
    hide Numbered;
    SlugsAreDistinct(bases, slugs);
    assert |slugs| == |bases|;
    hide AreSlugs;
    if NumbersDiffer(bases) {
      forall i | 0 <= i < |bases|
        ensures slugs[i] == Numbered(bases, i)
      {
        DifferentNumbersAreGiven(bases, slugs, i);
      }
    } else {
      var i, j :| 0 <= i < j < |bases| && Numbered(bases, i) == Numbered(bases, j);
      assert slugs[i] != slugs[j];
    }
  }

  /** They are wherever no heading looks suffixed. */
  lemma {:induction false} UnsuffixedNumbersDiffer(bases: seq<Anchor>)
    requires NoneLooksSuffixed(bases)
    ensures NumbersDiffer(bases)
  {
    hide NoneLooksSuffixed, Candidate, Earlier;
    forall i, j | 0 <= i < j < |bases|
      ensures Numbered(bases, i) != Numbered(bases, j)
    {
      if Numbered(bases, i) == Numbered(bases, j) {
        EarlierGrows(bases, i, j);
        NotSuffixed(bases, bases[i], Earlier(bases[..i], bases[i]), bases[j], Earlier(bases[..j], bases[j]));
        assert false;
      }
    }
  }

  lemma {:induction false} NotSuffixed(bases: seq<Anchor>, b: Anchor, j: nat, c: Anchor, k: nat)
    requires NoneLooksSuffixed(bases) && b in bases && c in bases && Candidate(b, j) == Candidate(c, k)
    ensures b == c && j == k
  {
    if j >= 1 && k >= 1 {
      SuffixedOnce(b, j, c, k);
    } else if b == c {
      CandidatesDiffer(b, j, k);
    }
  }

  /** Headings `a`, `a-1` and `a` again: the repeat finds `-1` taken and gets `-2`. */
  lemma {:induction false} TakenSuffixIsSkipped(a: Anchor, slugs: seq<Anchor>)
    requires AreSlugs([a, Candidate(a, 1), a], slugs)
    ensures slugs == [a, Candidate(a, 1), Candidate(a, 2)]
  {
    hide Candidate;
    var bases := [a, Candidate(a, 1), a];
    FirstIsBase(a);
    FirstIsBase(Candidate(a, 1));
    assert IsSlugAt(bases, slugs, 0) && IsSlugAt(bases, slugs, 1) && IsSlugAt(bases, slugs, 2);
    var j: nat :| IsFirstUnused(a, Elements(slugs[..0]), slugs[0], j);
    FirstUnusedIsUnique(a, {}, slugs[0], j, a, 0);
    var k: nat :| IsFirstUnused(Candidate(a, 1), Elements(slugs[..1]), slugs[1], k);
    if Candidate(a, 1) == Candidate(a, 0) {
      CandidatesDiffer(a, 1, 0);
    }
    assert Elements(slugs[..1]) == {a};
    FirstUnusedIsUnique(Candidate(a, 1), {a}, slugs[1], k, Candidate(a, 1), 0);
    var n: nat :| IsFirstUnused(a, Elements(slugs[..2]), slugs[2], n);
    assert Elements(slugs[..2]) == {a, Candidate(a, 1)};
    assert Tried(a, 2) == {Candidate(a, 0), Candidate(a, 1)};
    if Candidate(a, 2) == Candidate(a, 0) {
      CandidatesDiffer(a, 2, 0);
    }
    if Candidate(a, 2) == Candidate(a, 1) {
      CandidatesDiffer(a, 2, 1);
    }
    FirstUnusedIsUnique(a, {a, Candidate(a, 1)}, slugs[2], n, Candidate(a, 2), 2);
  }

  // ---------------------------------------------------------------- a whole page

  /** A line, the ids its prose gives, and its heading's slug if it is one. */
  datatype PageLine = PageLine(line: Line, ids: seq<Anchor>, heading: Option<Anchor>)

  ghost function LinesOf(page: seq<PageLine>): (lines: seq<Line>)
    ensures |lines| == |page| && forall i :: 0 <= i < |page| ==> lines[i] == page[i].line
  {
    seq(|page|, i requires 0 <= i < |page| => page[i].line)
  }

  /** The bases of a page's headings; a `#` line inside a fenced block is not one. */
  ghost function Headings(page: seq<PageLine>, n: nat): seq<Anchor>
    requires n <= |page|
  {
    if n == 0 then []
    else Headings(page, n - 1) +
         if IsProse(LinesOf(page), n - 1) && page[n - 1].heading.Some? then [page[n - 1].heading.value] else []
  }

  ghost function Ids(page: seq<PageLine>, n: nat): set<Anchor>
    requires n <= |page|
  {
    set i, a | 0 <= i < n && IsProse(LinesOf(page), i) && a in page[i].ids :: a
  }

  /** The anchors of a page: its ids, and one slug for each heading, all of them different. */
  method AnchorsOf(page: seq<PageLine>) returns (anchors: set<Anchor>, ghost slugs: seq<Anchor>)
    ensures AreSlugs(Headings(page, |page|), slugs)
    ensures anchors == Ids(page, |page|) + Elements(slugs)
  {
    hide AreSlugs, IsFirstUnused, Candidate, IsProse, After, Closes;
    var seen: set<Anchor> := {};
    slugs := [];
    anchors := {};
    var fence: Option<Mark> := None;
    var n := 0;
    NoSlugs();
    while n < |page|
      invariant n <= |page| && fence == FenceAt(LinesOf(page), n)
      invariant seen == Elements(slugs) && AreSlugs(Headings(page, n), slugs)
      invariant anchors == Ids(page, n) + Elements(slugs)
    {
      var l := page[n];
      ProseHere(LinesOf(page), n);
      MoreIds(page, n);
      MoreHeadings(page, n);
      if fence.None? && l.line.fence.None? {
        anchors := anchors + set a | a in l.ids;
        if l.heading.Some? {
          var slug, k := FirstUnused(l.heading.value, seen);
          OneMoreSlug(Headings(page, n), slugs, l.heading.value, slug, k);
          assert Elements(slugs + [slug]) == Elements(slugs) + {slug};
          seen, anchors, slugs := seen + {slug}, anchors + {slug}, slugs + [slug];
        }
      }
      fence := After(fence, l.line);
      n := n + 1;
    }
  }

  lemma {:induction false} NoSlugs()
    ensures AreSlugs([], [])
  {
  }

  lemma {:induction false} ProseHere(lines: seq<Line>, n: nat)
    requires n < |lines|
    ensures IsProse(lines, n) <==> FenceAt(lines, n).None? && lines[n].fence.None?
    ensures FenceAt(lines, n + 1) == After(FenceAt(lines, n), lines[n])
  {
  }

  lemma {:induction false} MoreHeadings(page: seq<PageLine>, n: nat)
    requires n < |page|
    ensures Headings(page, n + 1) ==
            if IsProse(LinesOf(page), n) && page[n].heading.Some? then Headings(page, n) + [page[n].heading.value]
            else Headings(page, n)
  {
    hide IsProse, LinesOf;
  }

  lemma {:induction false} MoreIds(page: seq<PageLine>, n: nat)
    requires n < |page|
    ensures Ids(page, n + 1) == Ids(page, n) + if IsProse(LinesOf(page), n) then set a | a in page[n].ids else {}
  {
    hide IsProse, LinesOf;
  }
}
