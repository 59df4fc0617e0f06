/** Which parts of a Markdown page are code: inline spans are blanked in place, fenced lines altogether. */
module CodeMasks {
  import opened Basics

  const TICK := '`'

  /** How many ticks `s` starts with. */
  ghost function Ticks(s: string): (n: nat)
    ensures n <= |s| && (forall i :: 0 <= i < n ==> s[i] == TICK) && (n < |s| ==> s[n] != TICK)
  {
    if s != "" && s[0] == TICK then 1 + Ticks(s[1..]) else 0
  }

  ghost predicate AllTicks(s: string, i: nat, n: nat) {
    i + n <= |s| && forall k :: i <= k < i + n ==> s[k] == TICK
  }

  /** The first place at or after `from` where `n` ticks stand in a row. */
  ghost function Close(s: string, from: nat, n: nat): (r: Option<nat>)
    ensures r.Some? ==> from <= r.value && r.value + n <= |s| && AllTicks(s, r.value, n)
    ensures r.Some? ==> forall i :: from <= i < r.value ==> !AllTicks(s, i, n)
    ensures r.None? ==> forall i :: from <= i ==> !AllTicks(s, i, n)
    decreases |s| - from
  {
    if from + n > |s| then None
    else if AllTicks(s, from, n) then Some(from)
    else if from == |s| then None
    else Close(s, from + 1, n)
  }

  function Spaces(n: nat): (r: string)
    ensures |r| == n && forall i :: 0 <= i < n ==> r[i] == ' '
  {
    seq(n, i => ' ')
  }

  /** `s` with its code spans blanked, up to a run of ticks that nothing closes. */
  ghost function Masked(s: string): (r: string)
    ensures |r| == |s|
  {
    if s == "" then ""
    else if s[0] != TICK then [s[0]] + Masked(s[1..])
    else
      var n := Ticks(s);
      var close := Close(s, n, n);
      if close.None? then s
      else Spaces(close.value + n) + Masked(s[close.value + n..])
  }

  method FindTicks(s: string, from: nat, n: nat) returns (r: Option<nat>)
    requires from <= |s|
    ensures r == Close(s, from, n)
  {
    var i := from;
    while i + n <= |s|
      invariant from <= i && Close(s, from, n) == Close(s, i, n)
    {
      var k := 0;
      while k < n && s[i + k] == TICK
        invariant k <= n && AllTicks(s, i, k)
      {
        k := k + 1;
      }
      if k == n {
        return Some(i);
      }
      assert s[i + k] != TICK;
      i := i + 1;
    }
    return None;
  }

  method MaskInlineCode(line: string) returns (out: string)
    ensures out == Masked(line)
  {
    hide Close, Masked, Ticks;
    out := "";
    var i := 0;
    assert line[i..] == line;
    while i < |line|
      invariant i <= |line| && out + Masked(line[i..]) == Masked(line)
    {
      if line[i] == TICK {
        var j := i;
        while j < |line| && line[j] == TICK
          invariant i <= j <= |line| && AllTicks(line, i, j - i)
        {
          j := j + 1;
        }
        var n := j - i;
        var close := FindTicks(line, j, n);
        MaskedRun(line, i, n);
        if close.None? {
          out := out + line[i..];
          return;
        }
        Regroup(out, Spaces(close.value + n - i), Masked(line[close.value + n..]));
        out := out + Spaces(close.value + n - i);
        i := close.value + n;
      } else {
        MaskedChar(line, i);
        Regroup(out, [line[i]], Masked(line[i + 1..]));
        out := out + [line[i]];
        i := i + 1;
      }
    }
    NothingMasked();
  }

  lemma {:induction false} NothingMasked()
    ensures Masked("") == ""
  {
  }

  lemma {:induction false} MaskedChar(line: string, i: nat)
    requires i < |line| && line[i] != TICK
    ensures Masked(line[i..]) == [line[i]] + Masked(line[i + 1..])
  {
    assert line[i..][1..] == line[i + 1..];
  }

  lemma {:induction false} MaskedRun(line: string, i: nat, n: nat)
    requires 1 <= n && i + n <= |line| && AllTicks(line, i, n) && (i + n < |line| ==> line[i + n] != TICK)
    ensures var close := Close(line, i + n, n);
            Masked(line[i..]) ==
              if close.None? then line[i..] else Spaces(close.value + n - i) + Masked(line[close.value + n..])
  {
    hide *;
    RunInRest(line, i, n);
    CloseInRest(line, i, n);
    MaskedOpening(line[i..], n);
    var close := Close(line, i + n, n);
    if close.Some? {
      DropTwice(line, i, close.value + n);
    }
  }

  lemma {:induction false} RunInRest(line: string, i: nat, n: nat)
    requires AllTicks(line, i, n) && (i + n < |line| ==> line[i + n] != TICK)
    ensures i + n <= |line| && AllTicks(line[i..], 0, n) && (n < |line[i..]| ==> line[i..][n] != TICK)
  {
  }

  lemma {:induction false} DropTwice(s: string, i: nat, j: nat)
    requires i <= j <= |s|
    ensures s[i..][j - i..] == s[j..]
  {
  }

  lemma {:induction false} MaskedOpening(s: string, n: nat)
    requires 1 <= n && AllTicks(s, 0, n) && (n < |s| ==> s[n] != TICK)
    ensures var close := Close(s, n, n);
            if close.None? then Masked(s) == s
            else close.value + n <= |s| && Masked(s) == Spaces(close.value + n) + Masked(s[close.value + n..])
  {
    hide *;
    RunStarts(s, n);
    TicksAre(s, n);
    MaskedTick(s);
  }

  lemma {:induction false} RunStarts(s: string, n: nat)
    requires 1 <= n && AllTicks(s, 0, n)
    ensures s != "" && s[0] == TICK
  {
  }

  lemma {:induction false} MaskedTick(s: string)
    requires s != "" && s[0] == TICK
    ensures var n := Ticks(s);
            var close := Close(s, n, n);
            Masked(s) == if close.None? then s else Spaces(close.value + n) + Masked(s[close.value + n..])
  {
    hide Ticks, Close, Spaces, AllTicks;
  }

  lemma {:induction false} TicksAre(s: string, n: nat)
    requires AllTicks(s, 0, n) && (n < |s| ==> s[n] != TICK)
    ensures Ticks(s) == n
  {
  }

  lemma {:induction false} CloseInRest(line: string, i: nat, n: nat)
    requires i + n <= |line|
    ensures Close(line, i + n, n).None? <==> Close(line[i..], n, n).None?
    ensures Close(line, i + n, n).Some? ==> Close(line, i + n, n).value == i + Close(line[i..], n, n).value
  {
    var rest := line[i..];
    forall k | 0 <= k
      ensures AllTicks(rest, k, n) <==> AllTicks(line, i + k, n)
    {
    }
    var a, b := Close(line, i + n, n), Close(rest, n, n);
    if b.Some? {
      assert AllTicks(line, i + b.value, n);
    }
    if a.Some? {
      assert AllTicks(rest, a.value - i, n);
    }
  }

  // ---------------------------------------------------------------- what masking keeps

  /** Nothing in `s` is left to the masker: the first run of ticks, if there is one, has no match after it. */
  ghost predicate HasNoSpan(s: string) {
    if s == "" then true
    else if s[0] != TICK then HasNoSpan(s[1..])
    else Close(s, Ticks(s), Ticks(s)).None?
  }

  /** Masking leaves nothing that the masker itself would mask. */
  lemma {:induction false} MaskedHasNoSpan(s: string)
    ensures HasNoSpan(Masked(s))
    decreases |s|
  {
    if s != "" {
      if s[0] != TICK {
        MaskedHasNoSpan(s[1..]);
        assert Masked(s)[1..] == Masked(s[1..]);
      } else {
        var n := Ticks(s);
        var close := Close(s, n, n);
        if close.Some? {
          MaskedHasNoSpan(s[close.value + n..]);
          SpacesHideNoSpan(close.value + n, Masked(s[close.value + n..]));
        }
      }
    }
  }

  lemma {:induction false} SpacesHideNoSpan(n: nat, s: string)
    ensures HasNoSpan(Spaces(n) + s) <==> HasNoSpan(s)
  {
    if n == 0 {
      assert Spaces(n) + s == s;
    } else {
      assert (Spaces(n) + s)[1..] == Spaces(n - 1) + s;
      SpacesHideNoSpan(n - 1, s);
    }
  }

  /** Exactly the texts the masker finds no span in are left as they are. */
  lemma {:induction false} UnchangedExactlyWhen(s: string)
    ensures Masked(s) == s <==> HasNoSpan(s)
  {
    if s != "" {
      if s[0] != TICK {
        UnchangedExactlyWhen(s[1..]);
        assert s == [s[0]] + s[1..];
        assert Masked(s)[1..] == Masked(s[1..]);
      } else {
        assert Ticks(s) >= 1;
        if Close(s, Ticks(s), Ticks(s)).Some? {
          assert Masked(s)[0] == ' ';
        }
      }
    }
  }

  lemma {:induction false} MaskingTwice(s: string)
    ensures Masked(Masked(s)) == Masked(s)
  {
    MaskedHasNoSpan(s);
    UnchangedExactlyWhen(Masked(s));
  }

  /** Every character of a masked line is the line's own or a space, and no column moves. */
  lemma {:induction false} MaskedColumns(s: string, i: nat)
    requires i < |s|
    ensures Masked(s)[i] == s[i] || Masked(s)[i] == ' '
    decreases |s|
  {
    if s[0] != TICK {
      if i > 0 {
        MaskedColumns(s[1..], i - 1);
      }
    } else {
      var n := Ticks(s);
      var close := Close(s, n, n);
      if close.Some? && i >= close.value + n {
        MaskedColumns(s[close.value + n..], i - (close.value + n));
      }
    }
  }

  /** An opening run that nothing closes ends the masking: a span after it is left standing. */
  lemma {:induction false} UnclosedRunEndsMasking(span: string)
    requires span != "" && TICK !in span
    ensures var line := "`` `" + span + "`"; Masked(line) == line
  {
    var line := "`` `" + span + "`";
    TicksAre(line, 2);
    forall i | 2 <= i
      ensures !AllTicks(line, i, 2)
    {
      assert 4 <= i < 4 + |span| ==> line[i] == span[i - 4] && span[i - 4] in span;
      assert i == 3 ==> line[i + 1] == span[0] && span[0] in span;
      if i + 2 <= |line| {
        assert line[i] != TICK || line[i + 1] != TICK;
      }
    }
  }

  // ---------------------------------------------------------------- every code span

  /** `s` with all its code spans blanked: a run of ticks that nothing closes stays, and scanning goes on after it. */
  ghost function FullyMasked(s: string): (r: string)
    ensures |r| == |s|
  {
    if s == "" then ""
    else if s[0] != TICK then [s[0]] + FullyMasked(s[1..])
    else
      var n := Ticks(s);
      var close := Close(s, n, n);
      if close.None? then s[..n] + FullyMasked(s[n..])
      else Spaces(close.value + n) + FullyMasked(s[close.value + n..])
  }

  /** Some run of ticks in `s` is closed by a later one. */
  ghost predicate HasSpan(s: string) {
    if s == "" then false
    else if s[0] != TICK then HasSpan(s[1..])
    else Close(s, Ticks(s), Ticks(s)).Some? || HasSpan(s[Ticks(s)..])
  }

  /** After the first run that nothing closes there is a span. */
  ghost predicate SpanAfterUnclosed(s: string) {
    if s == "" then false
    else if s[0] != TICK then SpanAfterUnclosed(s[1..])
    else
      var n := Ticks(s);
      var close := Close(s, n, n);
      if close.None? then HasSpan(s[n..]) else SpanAfterUnclosed(s[close.value + n..])
  }

  lemma {:induction false} PlainStep(s: string)
    requires s != "" && s[0] != TICK
    ensures s == [s[0]] + s[1..]
    ensures Masked(s) == [s[0]] + Masked(s[1..]) && FullyMasked(s) == [s[0]] + FullyMasked(s[1..])
    ensures (HasSpan(s) <==> HasSpan(s[1..])) && (SpanAfterUnclosed(s) <==> SpanAfterUnclosed(s[1..]))
  {
  }

  lemma {:induction false} UnclosedStep(s: string)
    requires s != "" && s[0] == TICK && Close(s, Ticks(s), Ticks(s)).None?
    ensures 1 <= Ticks(s) && s == s[..Ticks(s)] + s[Ticks(s)..] && Masked(s) == s
    ensures FullyMasked(s) == s[..Ticks(s)] + FullyMasked(s[Ticks(s)..])
    ensures HasSpan(s) == SpanAfterUnclosed(s) == HasSpan(s[Ticks(s)..])
  {
    hide Close, AllTicks;
  }

  /** Where a run and the span it opens end. */
  ghost function SpanEnd(s: string): (n: nat)
    requires s != "" && s[0] == TICK && Close(s, Ticks(s), Ticks(s)).Some?
    ensures 1 <= n <= |s|
  {
    Close(s, Ticks(s), Ticks(s)).value + Ticks(s)
  }

  lemma {:induction false} SpanStep(s: string)
    requires s != "" && s[0] == TICK && Close(s, Ticks(s), Ticks(s)).Some?
    ensures var n := SpanEnd(s);
            && Masked(s) == Spaces(n) + Masked(s[n..]) && FullyMasked(s) == Spaces(n) + FullyMasked(s[n..])
            && Spaces(n)[0] != TICK && HasSpan(s) && (SpanAfterUnclosed(s) <==> SpanAfterUnclosed(s[n..]))
  {
    hide Close, AllTicks, Ticks;
  }

  lemma {:induction false} FullyMaskedColumns(s: string, i: nat)
    requires i < |s|
    ensures FullyMasked(s)[i] == s[i] || FullyMasked(s)[i] == ' '
    decreases |s|
  {
    hide *;
    if s[0] != TICK {
      PlainStep(s);
      if i > 0 {
        FullyMaskedColumns(s[1..], i - 1);
      }
    } else if Close(s, Ticks(s), Ticks(s)).None? {
      UnclosedStep(s);
      if i >= Ticks(s) {
        FullyMaskedColumns(s[Ticks(s)..], i - Ticks(s));
      }
    } else {
      SpanStep(s);
      if i >= SpanEnd(s) {
        FullyMaskedColumns(s[SpanEnd(s)..], i - SpanEnd(s));
      }
    }
  }

  /** Full masking blanks every span: nothing in what is left opens and closes. */
  lemma {:induction false} FullMaskingLeavesNoSpan(s: string)
    ensures !HasSpan(FullyMasked(s))
    decreases |s|
  {
    hide *;
    if s == "" {
      NoSpanInNothing();
    } else if s[0] != TICK {
      PlainStep(s);
      FullMaskingLeavesNoSpan(s[1..]);
      var r := FullyMasked(s);
      assert r[0] == s[0] && r[1..] == FullyMasked(s[1..]);
      PlainStep(r);
    } else if Close(s, Ticks(s), Ticks(s)).None? {
      UnclosedStep(s);
      FullMaskingLeavesNoSpan(s[Ticks(s)..]);
      UnclosedStaysUnclosed(s, Ticks(s));
      UnclosedStep(FullyMasked(s));
    } else {
      SpanStep(s);
      FullMaskingLeavesNoSpan(s[SpanEnd(s)..]);
      SpacesAddNoSpan(SpanEnd(s), FullyMasked(s[SpanEnd(s)..]));
    }
  }

  lemma {:induction false} NoSpanInNothing()
    ensures FullyMasked("") == Masked("") == "" && !HasSpan("") && !SpanAfterUnclosed("")
  {
  }

  lemma {:induction false} SpacesAddNoSpan(n: nat, s: string)
    ensures HasSpan(Spaces(n) + s) <==> HasSpan(s)
  {
    if n == 0 {
      assert Spaces(n) + s == s;
    } else {
      assert (Spaces(n) + s)[1..] == Spaces(n - 1) + s;
      SpacesAddNoSpan(n - 1, s);
    }
  }

  lemma {:induction false} UnclosedStaysUnclosed(s: string, n: nat)
    requires s != "" && s[0] == TICK && n == Ticks(s) && Close(s, n, n).None?
    ensures FullyMasked(s) != "" && FullyMasked(s)[0] == TICK
    ensures Ticks(FullyMasked(s)) == n && Close(FullyMasked(s), n, n).None?
    ensures FullyMasked(s)[n..] == FullyMasked(s[n..])
  {
    var r := FullyMasked(s);
    UnclosedStep(s);
    hide FullyMasked, HasSpan, SpanAfterUnclosed;
    forall i | 0 <= i < |s|
      ensures r[i] == TICK ==> s[i] == TICK
      ensures i < n ==> r[i] == s[i]
    {
      FullyMaskedColumns(s, i);
    }
    TicksAre(r, n);
    assert forall i :: n <= i && AllTicks(r, i, n) ==> AllTicks(s, i, n);
  }

  lemma {:induction false} FullyMaskedIsSame(s: string)
    ensures FullyMasked(s) == s <==> !HasSpan(s)
    decreases |s|
  {
    hide *;
    if s == "" {
      NoSpanInNothing();
    } else if s[0] != TICK {
      PlainStep(s);
      FullyMaskedIsSame(s[1..]);
      SameTails([s[0]], FullyMasked(s[1..]), s[1..]);
    } else if Close(s, Ticks(s), Ticks(s)).None? {
      UnclosedStep(s);
      FullyMaskedIsSame(s[Ticks(s)..]);
      SameTails(s[..Ticks(s)], FullyMasked(s[Ticks(s)..]), s[Ticks(s)..]);
    } else {
      SpanStep(s);
      assert FullyMasked(s)[0] != s[0];
    }
  }

  /** The masker blanks every code span of a line exactly when none comes after a run that nothing closes. */
  lemma {:induction false} MasksEverySpanExactlyWhen(s: string)
    ensures Masked(s) == FullyMasked(s) <==> !SpanAfterUnclosed(s)
    decreases |s|
  {
    hide *;
    if s == "" {
      NoSpanInNothing();
    } else if s[0] != TICK {
      PlainStep(s);
      MasksEverySpanExactlyWhen(s[1..]);
      SameTails([s[0]], Masked(s[1..]), FullyMasked(s[1..]));
    } else if Close(s, Ticks(s), Ticks(s)).None? {
      UnclosedStep(s);
      FullyMaskedIsSame(s[Ticks(s)..]);
      SameTails(s[..Ticks(s)], FullyMasked(s[Ticks(s)..]), s[Ticks(s)..]);
    } else {
      SpanStep(s);
      MasksEverySpanExactlyWhen(s[SpanEnd(s)..]);
      SameTails(Spaces(SpanEnd(s)), Masked(s[SpanEnd(s)..]), FullyMasked(s[SpanEnd(s)..]));
    }
  }

  lemma {:induction false} SameTails(a: string, x: string, y: string)
    ensures a + x == a + y <==> x == y
  {
    if a + x == a + y {
      assert (a + x)[|a|..] == x && (a + y)[|a|..] == y;
    }
  }

  // ---------------------------------------------------------------- Markdown's own spans

  /** A span by its columns: from its opening run up to, not including, `end`. */
  datatype Span = Span(start: nat, end: nat)

  /** A run of exactly `n` ticks, no more on either side. */
  ghost predicate IsWholeRun(s: string, i: nat, n: nat) {
    AllTicks(s, i, n) && (i == 0 || s[i - 1] != TICK) && (i + n == |s| || s[i + n] != TICK)
  }

  /** The first whole run of `n` ticks at or after `from`: what closes a span (section 6.1 of CommonMark). */
  ghost function RunClose(s: string, from: nat, n: nat): (r: Option<nat>)
    ensures r.Some? ==> from <= r.value && r.value + n <= |s| && IsWholeRun(s, r.value, n)
    decreases |s| - from
  {
    if from + n > |s| then None
    else if IsWholeRun(s, from, n) then Some(from)
    else if from == |s| then None
    else RunClose(s, from + 1, n)
  }

  /** A backslash and what it escapes, a backslash or a tick (section 2.4 of CommonMark). */
  ghost predicate IsEscape(s: string) {
    |s| >= 2 && s[0] == '\\' && (s[1] == '\\' || s[1] == TICK)
  }

  /** The spans the masker blanks, in columns counted from `off`. */
  ghost function MaskedSpans(s: string, off: nat): seq<Span> {
    if s == "" then []
    else if s[0] != TICK then MaskedSpans(s[1..], off + 1)
    else
      var n := Ticks(s);
      var close := Close(s, n, n);
      if close.None? then []
      else [Span(off, off + close.value + n)] + MaskedSpans(s[close.value + n..], off + close.value + n)
  }

  /** The code spans Markdown sees. */
  ghost function MarkdownSpans(s: string, off: nat): seq<Span> {
    if s == "" then []
    else if IsEscape(s) then MarkdownSpans(s[2..], off + 2)
    else if s[0] != TICK then MarkdownSpans(s[1..], off + 1)
    else
      var n := Ticks(s);
      var close := RunClose(s, n, n);
      if close.None? then MarkdownSpans(s[n..], off + n)
      else [Span(off, off + close.value + n)] + MarkdownSpans(s[close.value + n..], off + close.value + n)
  }

  ghost predicate HasMarkdownSpan(s: string) {
    MarkdownSpans(s, 0) != []
  }

  /**
   Each run the masker opens a span with is one Markdown closes at the same place; one that it
   finds no end for, or that an escape has shortened, is followed by no span of Markdown's.
   */
  ghost predicate ClosesAsMarkdown(s: string) {
    if s == "" then true
    else if IsEscape(s) then
      if s[1] == TICK then Close(s[1..], Ticks(s[1..]), Ticks(s[1..])).None? && !HasMarkdownSpan(s[2..])
      else ClosesAsMarkdown(s[2..])
    else if s[0] != TICK then ClosesAsMarkdown(s[1..])
    else
      var n := Ticks(s);
      var close := Close(s, n, n);
      if close.None? then !HasMarkdownSpan(s[n..])
      else RunClose(s, n, n) == close && ClosesAsMarkdown(s[close.value + n..])
  }

  lemma {:induction false} RunCloseIsLater(s: string, from: nat, n: nat)
    ensures RunClose(s, from, n).Some? ==>
      Close(s, from, n).Some? && Close(s, from, n).value <= RunClose(s, from, n).value
  {
  }

  /** Where spans start does not depend on where columns are counted from, and they start no earlier than that. */
  lemma {:induction false} SpansFrom(s: string, off: nat)
    ensures MarkdownSpans(s, off) == [] <==> !HasMarkdownSpan(s)
    ensures MarkdownSpans(s, off) != [] ==> off <= MarkdownSpans(s, off)[0].start
    decreases |s|
  {
    hide Close, RunClose, AllTicks, IsEscape;
    if s != "" {
      if IsEscape(s) {
        EscapeIsTwo(s);
        SpansFrom(s[2..], off + 2);
        SpansFrom(s[2..], 2);
      } else if s[0] != TICK {
        SpansFrom(s[1..], off + 1);
        SpansFrom(s[1..], 1);
      } else {
        var n := Ticks(s);
        SpansFrom(s[n..], off + n);
        SpansFrom(s[n..], n);
      }
    }
  }

  lemma {:induction false} EscapeIsTwo(s: string)
    ensures IsEscape(s) ==> |s| >= 2
  {
  }

  /** The masker finds the code spans Markdown sees, and no others, exactly when it closes them as Markdown does. */
  lemma {:induction false} SeesMarkdownSpansExactlyWhen(s: string, off: nat)
    ensures MaskedSpans(s, off) == MarkdownSpans(s, off) <==> ClosesAsMarkdown(s)
    decreases |s|
  {
    hide *;
    if s == "" {
      NoSpans(off);
    } else if IsEscape(s) {
      EscapeIsTwo(s);
      EscapedSpans(s, off);
      if s[1] != TICK {
        SeesMarkdownSpansExactlyWhen(s[2..], off + 2);
      }
    } else if s[0] != TICK {
      SpansStep(s, off);
      MarkdownStep(s, off);
      SeesMarkdownSpansExactlyWhen(s[1..], off + 1);
    } else {
      SpansStep(s, off);
      MarkdownStep(s, off);
      if Close(s, Ticks(s), Ticks(s)).Some? {
        var n := SpanEnd(s);
        SeesMarkdownSpansExactlyWhen(s[n..], off + n);
        SameRest(Span(off, off + n), MaskedSpans(s[n..], off + n), MarkdownSpans(s[n..], off + n));
        assert MaskedSpans(s, off)[0] == Span(off, off + n);
      }
    }
  }

  lemma {:induction false} NoSpans(off: nat)
    ensures MaskedSpans("", off) == MarkdownSpans("", off) == [] && ClosesAsMarkdown("")
  {
  }

  /** What Markdown does with a character or a run, and what agreeing with it asks there. */
  lemma {:induction false} MarkdownStep(s: string, off: nat)
    requires s != "" && !IsEscape(s)
    ensures s[0] != TICK ==> MarkdownSpans(s, off) == MarkdownSpans(s[1..], off + 1)
    ensures s[0] != TICK ==> (ClosesAsMarkdown(s) <==> ClosesAsMarkdown(s[1..]))
    ensures s[0] == TICK ==> 1 <= Ticks(s) && MarkdownSpans(s, off) == AfterRun(s, off)
    ensures s[0] == TICK && Close(s, Ticks(s), Ticks(s)).None? ==>
              (ClosesAsMarkdown(s) <==> AfterRun(s, off) == [])
    ensures s[0] == TICK && Close(s, Ticks(s), Ticks(s)).Some? ==>
              (ClosesAsMarkdown(s) <==> AfterRun(s, off) != [] && AfterRun(s, off)[0] == Span(off, off + SpanEnd(s))
                                        && ClosesAsMarkdown(s[SpanEnd(s)..]))
    ensures s[0] == TICK && Close(s, Ticks(s), Ticks(s)).Some? && AfterRun(s, off) != []
              && AfterRun(s, off)[0] == Span(off, off + SpanEnd(s)) ==>
              AfterRun(s, off) == [Span(off, off + SpanEnd(s))] + MarkdownSpans(s[SpanEnd(s)..], off + SpanEnd(s))
  {
    hide Close, RunClose, AllTicks;
    if s[0] == TICK {
      RunCloseIsLater(s, Ticks(s), Ticks(s));
      SpansFrom(s[Ticks(s)..], off + Ticks(s));
      hide MarkdownSpans;
    }
  }

  /** Markdown's spans from a run on. */
  ghost function AfterRun(s: string, off: nat): seq<Span>
    requires s != "" && s[0] == TICK
  {
    var n := Ticks(s);
    var close := RunClose(s, n, n);
    if close.None? then MarkdownSpans(s[n..], off + n)
    else [Span(off, off + close.value + n)] + MarkdownSpans(s[close.value + n..], off + close.value + n)
  }

  lemma {:induction false} SameRest(x: Span, a: seq<Span>, b: seq<Span>)
    ensures [x] + a == [x] + b <==> a == b
  {
    assert ([x] + a)[1..] == a && ([x] + b)[1..] == b;
  }

  /** What an escape is to either of them. */
  lemma {:induction false} EscapedSpans(s: string, off: nat)
    requires |s| >= 2 && IsEscape(s)
    ensures s[1] != TICK ==> MaskedSpans(s, off) == MaskedSpans(s[2..], off + 2)
    ensures s[1] != TICK ==> MarkdownSpans(s, off) == MarkdownSpans(s[2..], off + 2)
    ensures s[1] != TICK ==> (ClosesAsMarkdown(s) <==> ClosesAsMarkdown(s[2..]))
    ensures s[1] == TICK ==> (MaskedSpans(s, off) == MarkdownSpans(s, off) <==> ClosesAsMarkdown(s))
  {
    hide AllTicks, Close, RunClose, HasMarkdownSpan;
    assert s[1..][1..] == s[2..];
    SpansFrom(s[2..], off + 2);
  }

  /** A run that ends inside a longer one is no code span of Markdown's, and is blanked all the same. */
  lemma {:induction false} LongerRunIsMisread(body: string)
    requires body != "" && TICK !in body
    ensures var line := "`" + body + "``";
            !ClosesAsMarkdown(line) && MaskedSpans(line, 0) != MarkdownSpans(line, 0)
  {
    var line := "`" + body + "``";
    var at := 1 + |body|;
    assert forall i :: 1 <= i < at ==> line[i] == body[i - 1] && body[i - 1] in body;
    assert line[0] == line[at] == line[at + 1] == TICK;
    TicksAre(line, 1);
    assert AllTicks(line, at, 1);
    forall i | 1 <= i < at
      ensures !AllTicks(line, i, 1)
    {
      assert line[i] != TICK;
    }
    var close := Close(line, 1, 1);
    assert close.Some? && close.value == at;
    assert !IsWholeRun(line, at, 1);
    SeesMarkdownSpansExactlyWhen(line, 0);
  }

  /** An escaped tick opens no code span of Markdown's, and opens one here. */
  lemma {:induction false} EscapedTickIsMisread(body: string)
    requires body != "" && TICK !in body
    ensures var line := "\\`" + body + "`";
            !ClosesAsMarkdown(line) && MaskedSpans(line, 0) != MarkdownSpans(line, 0)
  {
    var line := "\\`" + body + "`";
    var rest := line[1..];
    assert rest == "`" + body + "`";
    assert forall i :: 1 <= i <= |body| ==> rest[i] == body[i - 1] && body[i - 1] in body;
    TicksAre(rest, 1);
    assert AllTicks(rest, 1 + |body|, 1);
    SeesMarkdownSpansExactlyWhen(line, 0);
  }

  ghost predicate Covers(spans: seq<Span>, column: nat) {
    exists x :: x in spans && x.start <= column < x.end
  }

  lemma {:induction false} CoversOneMore(x: Span, spans: seq<Span>, column: nat)
    ensures Covers([x] + spans, column) <==> x.start <= column < x.end || Covers(spans, column)
  {
    assert x in [x] + spans;
  }

  lemma {:induction false} SpansStep(s: string, off: nat)
    requires s != ""
    ensures s[0] != TICK ==> MaskedSpans(s, off) == MaskedSpans(s[1..], off + 1)
    ensures s[0] == TICK && Close(s, Ticks(s), Ticks(s)).None? ==> MaskedSpans(s, off) == []
    ensures s[0] == TICK && Close(s, Ticks(s), Ticks(s)).Some? ==>
              (var n := SpanEnd(s); MaskedSpans(s, off) == [Span(off, off + n)] + MaskedSpans(s[n..], off + n))
  {
    hide Close, AllTicks, Ticks;
  }

  /** The text the masker leaves is the line with those spans blanked. */
  lemma {:induction false} MaskedSpansAreBlank(s: string, off: nat, i: nat)
    requires i < |s|
    ensures Masked(s)[i] == if Covers(MaskedSpans(s, off), off + i) then ' ' else s[i]
    decreases |s|
  {
    hide *;
    SpansStep(s, off);
    if s[0] != TICK {
      PlainStep(s);
      if i > 0 {
        MaskedSpansAreBlank(s[1..], off + 1, i - 1);
      } else {
        NothingBefore(s[1..], off + 1, off);
      }
    } else if Close(s, Ticks(s), Ticks(s)).None? {
      UnclosedStep(s);
      NoneCovers(off + i);
    } else {
      var n := SpanEnd(s);
      SpanStep(s);
      CoversOneMore(Span(off, off + n), MaskedSpans(s[n..], off + n), off + i);
      if i < n {
        assert Spaces(n)[i] == ' ';
      } else {
        MaskedSpansAreBlank(s[n..], off + n, i - n);
      }
    }
  }

  lemma {:induction false} NoneCovers(column: nat)
    ensures !Covers([], column)
  {
  }

  lemma {:induction false} NothingBefore(s: string, off: nat, column: nat)
    requires column < off
    ensures !Covers(MaskedSpans(s, off), column)
  {
    hide MaskedSpans;
    SpansStart(s, off);
  }

  lemma {:induction false} SpansStart(s: string, off: nat)
    ensures forall x :: x in MaskedSpans(s, off) ==> off <= x.start
    decreases |s|
  {
    hide Close, AllTicks;
    if s != "" {
      if s[0] != TICK {
        SpansStart(s[1..], off + 1);
      } else {
        var n := Ticks(s);
        if Close(s, n, n).Some? {
          SpansStart(s[Close(s, n, n).value + n..], off + Close(s, n, n).value + n);
        }
      }
    }
  }

  // ---------------------------------------------------------------- fenced blocks

  /** A fence line's run of ticks or tildes, and whether anything but white space follows it. */
  datatype Mark = Mark(mark: char, length: nat, alone: bool)

  datatype Line = Line(text: string, fence: Option<Mark>)

  /** A closing fence repeats the opening character at least as often, and nothing else. */
  predicate Closes(open: Mark, l: Line) {
    l.fence.Some? && l.fence.value.mark == open.mark && l.fence.value.length >= open.length && l.fence.value.alone
  }

  /** Section 4.5 of CommonMark: the opener's character, no fewer of them, and nothing after. */
  ghost predicate IsClosing(open: Mark, l: Line) {
    exists m :: l.fence == Some(m) && m.mark == open.mark && open.length <= m.length && m.alone
  }

  /** The fence that is open after a line. */
  function After(fence: Option<Mark>, l: Line): (next: Option<Mark>) {
    if fence.None? then l.fence else if Closes(fence.value, l) then None else fence
  }

  ghost function FenceAt(lines: seq<Line>, n: nat): Option<Mark>
    requires n <= |lines|
  {
    if n == 0 then None else After(FenceAt(lines, n - 1), lines[n - 1])
  }

  /** A line that is neither inside a fenced block nor one of its fences. */
  ghost predicate IsProse(lines: seq<Line>, i: nat)
    requires i < |lines|
  {
    FenceAt(lines, i).None? && lines[i].fence.None?
  }

  /** A block that is open before line `n` was opened at `o`, and no line since closes it. */
  ghost predicate OpensAt(lines: seq<Line>, o: nat, n: nat)
    requires n <= |lines|
  {
    && o < n && FenceAt(lines, o).None? && lines[o].fence.Some?
    && forall i :: o < i < n ==> !IsClosing(lines[o].fence.value, lines[i])
  }

  /** A fence stays open from the line that opens it to the first later line that closes that same fence. */
  lemma {:induction false} OpenExactlyFrom(lines: seq<Line>, n: nat)
    requires n <= |lines|
    ensures FenceAt(lines, n).Some? <==> exists o: nat :: OpensAt(lines, o, n)
    ensures forall o: nat :: OpensAt(lines, o, n) ==> FenceAt(lines, n) == lines[o].fence
  {
    if n > 0 {
      OpenExactlyFrom(lines, n - 1);
      var l := lines[n - 1];
      if FenceAt(lines, n - 1).None? && l.fence.Some? {
        assert OpensAt(lines, n - 1, n);
      }
      forall o: nat | OpensAt(lines, o, n)
        ensures FenceAt(lines, n) == lines[o].fence
      {
        assert o < n - 1 ==> OpensAt(lines, o, n - 1);
      }
      if FenceAt(lines, n - 1).Some? && FenceAt(lines, n).Some? {
        var o: nat :| OpensAt(lines, o, n - 1);
        assert OpensAt(lines, o, n);
      }
    }
  }

  method MaskCode(lines: seq<Line>) returns (out: seq<string>)
    ensures |out| == |lines|
    ensures forall i :: 0 <= i < |lines| ==> out[i] == if IsProse(lines, i) then Masked(lines[i].text) else ""
  {
    hide Masked, After, Closes;
    out := [];
    var fence: Option<Mark> := None;
    var n := 0;
    while n < |lines|
      invariant n <= |lines| && |out| == n && fence == FenceAt(lines, n)
      invariant forall i :: 0 <= i < n ==> out[i] == if IsProse(lines, i) then Masked(lines[i].text) else ""
    {
      if fence.None? && lines[n].fence.None? {
        var masked := MaskInlineCode(lines[n].text);
        out := out + [masked];
      } else {
        out := out + [""];
      }
      fence := After(fence, lines[n]);
      n := n + 1;
    }
  }
}
