/** Reading the path a snapshot line is about: the hand-written bracket scanners of the API gate. */
module PathScanner {
  import opened Basics

  /** One step of `read_path` past an angle bracket. */
  function Angle(c: char): (change: int) {
    if c == '<' then 1 else if c == '>' then -1 else 0
  }

  function AngleOrRound(c: char): (change: int) {
    if c == '<' || c == '(' then 1 else if c == '>' || c == ')' then -1 else 0
  }

  predicate Ends(c: char) {
    c in " (:;=!,"
  }

  predicate StartsWith(s: string, prefix: string) {
    |prefix| <= |s| && s[..|prefix|] == prefix
  }

  // ---------------------------------------------------------------- the scans

  /** How much of `s`, met at this bracket depth, still belongs to the path. */
  ghost function Read(s: string, depth: int): (n: nat)
    ensures n <= |s|
  {
    if s == "" then 0
    else if s[0] == '<' || s[0] == '>' then 1 + Read(s[1..], depth + Angle(s[0]))
    else if depth == 0 && StartsWith(s, "::") then 2 + Read(s[2..], depth)
    else if depth == 0 && Ends(s[0]) then 0
    else 1 + Read(s[1..], depth)
  }

  method ReadPath(s: string) returns (path: string)
    ensures path == s[..Read(s, 0)]
  {
    var depth, i := 0, 0;
    while i < |s|
      invariant i <= |s| && i + Read(s[i..], depth) == Read(s, 0)
    {
      var ch := s[i];
      assert s[i..][1..] == s[i + 1..];
      if ch == '<' {
        depth := depth + 1;
      } else if ch == '>' {
        depth := depth - 1;
      } else if depth == 0 {
        if ch == ':' && i + 2 <= |s| && s[i..i + 2] == "::" {
          assert s[i..][..2] == "::" && s[i..][2..] == s[i + 2..];
          i := i + 2;
          continue;
        }
        if Ends(ch) {
          assert i + 2 <= |s| ==> s[i..][..2] == s[i..i + 2] && s[i..i + 2][0] == ch;
          break;
        }
      }
      i := i + 1;
    }
    path := s[..i];
  }

  /** `s` without what stands inside angle brackets. */
  ghost function Stripped(s: string, depth: int): string {
    if s == "" then ""
    else if s[0] == '<' || s[0] == '>' then Stripped(s[1..], depth + Angle(s[0]))
    else (if depth == 0 then [s[0]] else []) + Stripped(s[1..], depth)
  }

  method StripGenerics(s: string) returns (out: string)
    ensures out == Stripped(s, 0)
  {
    out := "";
    var depth, i := 0, 0;
    while i < |s|
      invariant i <= |s| && out + Stripped(s[i..], depth) == Stripped(s, 0)
    {
      assert s[i..][1..] == s[i + 1..];
      if s[i] == '<' {
        depth := depth + 1;
      } else if s[i] == '>' {
        depth := depth - 1;
      } else if depth == 0 {
        out := out + [s[i]];
      }
      i := i + 1;
    }
  }

  /** Where the leading group of `s` ends, if it does. */
  ghost function GroupEnd(s: string, depth: int): (n: nat)
    ensures n <= |s|
  {
    if s == "" then 0
    else if depth + Angle(s[0]) == 0 then 1
    else
      var n := GroupEnd(s[1..], depth + Angle(s[0]));
      if n == 0 then 0 else 1 + n
  }

  ghost function Skipped(s: string): string {
    if StartsWith(s, "<") then s[GroupEnd(s, 0)..] else s
  }

  method SkipGenerics(s: string) returns (rest: string)
    ensures rest == Skipped(s)
  {
    if !StartsWith(s, "<") {
      return s;
    }
    var depth, i := 0, 0;
    while i < |s|
      invariant i <= |s|
      invariant GroupEnd(s, 0) == (var n := GroupEnd(s[i..], depth); if n == 0 then 0 else i + n)
    {
      assert s[i..][1..] == s[i + 1..];
      depth := depth + Angle(s[i]);
      if depth == 0 {
        return s[i + 1..];
      }
      i := i + 1;
    }
    return s;
  }

  const FOR := " for "

  /** Where the first ` for ` outside all brackets starts, or -1. */
  ghost function ForAt(s: string, depth: int): (i: int)
    ensures -1 <= i && i + 5 <= |s| + if i < 0 then 5 else 0
  {
    if s == "" then -1
    else
      var now := depth + AngleOrRound(s[0]);
      if now == 0 && StartsWith(s, FOR) then 0
      else
        var i := ForAt(s[1..], now);
        if i < 0 then -1 else 1 + i
  }

  method TopLevelFor(s: string) returns (at: int)
    ensures at == ForAt(s, 0)
  {
    var depth, i := 0, 0;
    while i < |s|
      invariant i <= |s|
      invariant ForAt(s, 0) == (var n := ForAt(s[i..], depth); if n < 0 then -1 else i + n)
    {
      assert s[i..][1..] == s[i + 1..];
      depth := depth + AngleOrRound(s[i]);
      if depth == 0 && StartsWith(s[i..], FOR) {
        return i;
      }
      i := i + 1;
    }
    return -1;
  }

  // ---------------------------------------------------------------- printed paths

  /** A name with the text between the angle brackets after it, if it has any. */
  datatype Segment = Segment(name: string, generics: Option<string>)

  predicate IsSpace(c: char) {
    || 9 as char <= c <= 13 as char || 28 as char <= c <= 32 as char || c == 133 as char || c == 160 as char
    || c == '\U{1680}' || '\U{2000}' <= c <= '\U{200A}' || c == '\U{2028}' || c == '\U{2029}' || c == '\U{202F}'
    || c == '\U{205F}' || c == '\U{3000}'
  }

  /** What separates a path from the rest of its line: a blank, the start of parameters, a type, a value, an end. */
  ghost predicate IsDelimiter(c: char) {
    c == ' ' || c == '(' || c == ':' || c == ';' || c == '=' || c == '!' || c == ','
  }

  ghost predicate IsBracket(c: char) {
    c == '<' || c == '>' || c == '(' || c == ')'
  }

  /** No character of a name is a delimiter, a bracket or white space. */
  ghost predicate IsName(s: string) {
    forall i :: 0 <= i < |s| ==> !IsDelimiter(s[i]) && !IsBracket(s[i]) && !IsSpace(s[i])
  }

  /** From inside `depth` groups, `s` closes all but one, and never that one. Every `>` closes. */
  ghost predicate Nested(s: string, depth: nat, change: char -> int) {
    if s == "" then depth == 1
    else depth + change(s[0]) >= 1 && Nested(s[1..], depth + change(s[0]), change)
  }

  /** What stands between a group's brackets nests. */
  ghost predicate IsBalanced(body: string) {
    Nested(body, 1, Angle)
  }

  ghost predicate IsSegment(g: Segment) {
    IsName(g.name) && (g.name != "" || g.generics.Some?) && (g.generics.Some? ==> IsBalanced(g.generics.value))
  }

  ghost function Group(generics: Option<string>): string {
    if generics.Some? then "<" + generics.value + ">" else ""
  }

  /** A path as rustdoc prints it. */
  ghost function Printed(path: seq<Segment>): string {
    if path == [] then ""
    else if |path| == 1 then path[0].name + Group(path[0].generics)
    else path[0].name + Group(path[0].generics) + "::" + Printed(path[1..])
  }

  /** The same path without generics. */
  ghost function Bare(path: seq<Segment>): string {
    if path == [] then ""
    else if |path| == 1 then path[0].name
    else path[0].name + "::" + Bare(path[1..])
  }

  ghost predicate IsPath(path: seq<Segment>) {
    path != [] && forall i :: 0 <= i < |path| ==> IsSegment(path[i])
  }

  /** The path's groups nest even when round brackets are counted with angle ones. */
  ghost predicate IsRounded(path: seq<Segment>) {
    forall i :: 0 <= i < |path| && path[i].generics.Some? ==> Nested(path[i].generics.value, 1, AngleOrRound)
  }

  /** What may follow a path: nothing, or a delimiter that does not begin another `::`. */
  ghost predicate IsTail(rest: string) {
    rest == "" || (IsDelimiter(rest[0]) && !(rest[0] == ':' && |rest| > 1 && rest[1] == ':'))
  }

  // ---------------------------------------------------------------- the scans on printed paths

  lemma {:induction false} ReadName(name: string, rest: string)
    requires IsName(name)
    ensures Read(name + rest, 0) == |name| + Read(rest, 0)
    ensures Stripped(name + rest, 0) == name + Stripped(rest, 0)
  {
    if name == "" {
      assert name + rest == rest;
    } else {
      var all := name + rest;
      assert all[1..] == name[1..] + rest && all[0] == name[0];
      ReadName(name[1..], rest);
      assert !StartsWith(all, "::") by { assert "::"[0] != name[0]; }
    }
  }

  lemma {:induction false} ReadGroup(body: string, depth: nat, rest: string)
    requires Nested(body, depth, Angle) && depth >= 1
    ensures Read(body + (">" + rest), depth) == |body| + 1 + Read(rest, 0)
    ensures Stripped(body + (">" + rest), depth) == Stripped(rest, 0)
    ensures GroupEnd(body + (">" + rest), depth) == |body| + 1
  {
    var all := body + (">" + rest);
    if body == "" {
      assert all == ">" + rest && all[1..] == rest;
    } else {
      assert all[1..] == body[1..] + (">" + rest);
      ReadGroup(body[1..], depth + Angle(body[0]), rest);
    }
  }

  lemma {:induction false} GroupOpens(body: string, rest: string)
    ensures var all := Group(Some(body)) + rest;
            && all != "" && all[0] == '<' && all[1..] == body + (">" + rest)
            && |Group(Some(body))| == |body| + 2 && all[|body| + 2..] == rest
  {
  }

  lemma {:induction false} ReadSegment(g: Segment, rest: string)
    requires IsSegment(g)
    ensures Read(g.name + Group(g.generics) + rest, 0) == |g.name + Group(g.generics)| + Read(rest, 0)
    ensures Stripped(g.name + Group(g.generics) + rest, 0) == g.name + Stripped(rest, 0)
  {
    hide Read, Stripped, Group, Nested, IsName;
    ReadName(g.name, Group(g.generics) + rest);
    Regroup(g.name, Group(g.generics), rest);
    ReadGenerics(g.generics, rest);
  }

  lemma {:induction false} ReadGenerics(generics: Option<string>, rest: string)
    requires generics.Some? ==> IsBalanced(generics.value)
    ensures Read(Group(generics) + rest, 0) == |Group(generics)| + Read(rest, 0)
    ensures Stripped(Group(generics) + rest, 0) == Stripped(rest, 0)
  {
    match generics
    case None => assert Group(generics) + rest == rest;
    case Some(body) =>
      GroupOpens(body, rest);
      ReadGroup(body, 1, rest);
      hide Nested, Group;
  }

  /** `read_path` takes exactly the printed path, and without generics that is its names joined by `::`. */
  lemma {:induction false} PrintedPathIsRead(path: seq<Segment>, rest: string)
    requires IsPath(path) && IsTail(rest)
    ensures Read(Printed(path) + rest, 0) == |Printed(path)|
    ensures Stripped(Printed(path), 0) == Bare(path)
  {
    hide IsPath, Read;
    PrintedIsPassed(path, rest);
    ReadsNothingExactlyWhen(rest);
  }

  /** And nothing else ends a printed path: `read_path` stops after it exactly where one of the delimiters stands. */
  lemma {:induction false} PathEndsExactlyWhen(path: seq<Segment>, rest: string)
    requires IsPath(path)
    ensures Read(Printed(path) + rest, 0) == |Printed(path)| <==> IsTail(rest)
  {
    hide IsPath, Read;
    PrintedIsPassed(path, rest);
    ReadsNothingExactlyWhen(rest);
  }

  lemma {:induction false} ReadsNothingExactlyWhen(rest: string)
    ensures Read(rest, 0) == 0 <==> IsTail(rest)
  {
    if |rest| > 1 {
      assert rest[..2][0] == rest[0] && rest[..2][1] == rest[1];
      assert StartsWith(rest, "::") <==> rest[0] == ':' && rest[1] == ':';
    }
  }

  /** Reading goes on after a printed path as it would have begun there. */
  lemma {:induction false} PrintedIsPassed(path: seq<Segment>, rest: string)
    requires IsPath(path)
    ensures Read(Printed(path) + rest, 0) == |Printed(path)| + Read(rest, 0)
    ensures Stripped(Printed(path), 0) == Bare(path)
  {
    hide Read, Stripped, IsSegment, IsTail, Group, StartsWith;
    var g := path[0];
    var first := g.name + Group(g.generics);
    if |path| == 1 {
      ReadSegment(g, rest);
      ReadSegment(g, "");
      assert first + "" == first;
      NothingToRead();
    } else {
      PrintedIsPassed(path[1..], rest);
      PrintedSplits(path);
      var more := Printed(path[1..]);
      hide Printed;
      Regroup(first, "::" + more, rest);
      Regroup("::", more, rest);
      ReadSegment(g, "::" + (more + rest));
      ReadColons(more + rest);
      ReadSegment(g, "::" + more);
      ReadColons(more);
      Regroup(g.name, "::", Bare(path[1..]));
    }
  }

  lemma {:induction false} PrintedSplits(path: seq<Segment>)
    requires |path| > 1
    ensures Printed(path) == path[0].name + Group(path[0].generics) + ("::" + Printed(path[1..]))
  {
  }

  lemma {:induction false} NothingToRead()
    ensures Stripped("", 0) == ""
  {
  }

  lemma {:induction false} ReadColons(rest: string)
    ensures Read("::" + rest, 0) == 2 + Read(rest, 0)
    ensures Stripped("::" + rest, 0) == "::" + Stripped(rest, 0)
  {
    var all := "::" + rest;
    assert all[1..][1..] == rest && all[1..][0] == ':' && all[2..] == rest && all[..2] == "::";
  }

  // ---------------------------------------------------------------- impl lines

  lemma {:induction false} NoForInName(name: string, rest: string)
    requires IsName(name)
    ensures ForAt(name + rest, 0) == Later(|name|, ForAt(rest, 0))
  {
    if name == "" {
      assert name + rest == rest;
    } else {
      var all := name + rest;
      assert all[1..] == name[1..] + rest && all[0] == name[0];
      assert !StartsWith(all, FOR) by { assert FOR[0] == ' ' != name[0]; }
      NoForInName(name[1..], rest);
    }
  }

  ghost function Later(n: nat, at: int): int {
    if at < 0 then -1 else n + at
  }

  lemma {:induction false} NoForInGroup(body: string, depth: nat, rest: string)
    requires Nested(body, depth, AngleOrRound) && depth >= 1
    ensures ForAt(body + (">" + rest), depth) == Later(|body| + 1, ForAt(rest, 0))
  {
    var all := body + (">" + rest);
    if body == "" {
      assert all == ">" + rest && all[1..] == rest;
      assert !StartsWith(all, FOR) by { assert FOR[0] == ' ' != all[0]; }
    } else {
      assert all[1..] == body[1..] + (">" + rest);
      NoForInGroup(body[1..], depth + AngleOrRound(body[0]), rest);
    }
  }

  lemma {:induction false} NoForInGenerics(generics: Option<string>, rest: string)
    requires generics.Some? ==> Nested(generics.value, 1, AngleOrRound)
    ensures ForAt(Group(generics) + rest, 0) == Later(|Group(generics)|, ForAt(rest, 0))
  {
    hide Nested;
    match generics
    case None => assert Group(generics) + rest == rest;
    case Some(body) =>
      GroupOpens(body, rest);
      assert !StartsWith(Group(generics) + rest, FOR) by { assert FOR[0] == ' '; }
      NoForInGroup(body, 1, rest);
  }

  lemma {:induction false} NoForInSegment(g: Segment, rest: string)
    requires IsName(g.name) && (g.generics.Some? ==> Nested(g.generics.value, 1, AngleOrRound))
    ensures ForAt(g.name + Group(g.generics) + rest, 0) == Later(|g.name + Group(g.generics)|, ForAt(rest, 0))
  {
    hide ForAt, Group, Nested, IsName;
    NoForInName(g.name, Group(g.generics) + rest);
    Regroup(g.name, Group(g.generics), rest);
    NoForInGenerics(g.generics, rest);
  }

  lemma {:induction false} NoForInPath(path: seq<Segment>, rest: string)
    requires path != [] && IsRounded(path) && forall i :: 0 <= i < |path| ==> IsName(path[i].name)
    ensures ForAt(Printed(path) + rest, 0) == Later(|Printed(path)|, ForAt(rest, 0))
  {
    hide ForAt, Group, StartsWith, IsName, Nested;
    var g := path[0];
    var first := g.name + Group(g.generics);
    if |path| == 1 {
      NoForInSegment(g, rest);
    } else {
      NoForInPath(path[1..], rest);
      PrintedSplits(path);
      var more := Printed(path[1..]);
      hide Printed;
      Regroup(first, "::" + more, rest);
      Regroup("::", more, rest);
      NoForInSegment(g, "::" + (more + rest));
      NoForInColons(more + rest);
    }
  }

  lemma {:induction false} NoForInColons(rest: string)
    ensures ForAt("::" + rest, 0) == Later(2, ForAt(rest, 0))
  {
    var all := "::" + rest;
    assert all[1..][1..] == rest && all[0] == all[1..][0] == ':';
    assert !StartsWith(all, FOR) && !StartsWith(all[1..], FOR) by { assert FOR[0] == ' ' != ':'; }
  }

  /** The characters Python's `str.lstrip` takes for white space. */
  ghost const WHITE_SPACE: set<int> := {
    9, 10, 11, 12, 13, 28, 29, 30, 31, 32, 133, 160, 5760, 8192, 8193, 8194, 8195, 8196, 8197, 8198, 8199, 8200, 8201,
    8202, 8232, 8233, 8239, 8287, 12288 }

  lemma {:induction false} LeftStrippedIs(s: string)
    ensures exists k: nat ::
              && k <= |s| && LeftStripped(s) == s[k..]
              && (forall i :: 0 <= i < k ==> s[i] as int in WHITE_SPACE)
              && (k < |s| ==> s[k] as int !in WHITE_SPACE)
  {
    if s != "" && IsSpace(s[0]) {
      LeftStrippedIs(s[1..]);
      var k: nat :| k <= |s| - 1 && LeftStripped(s[1..]) == s[1..][k..]
        && (forall i :: 0 <= i < k ==> s[1..][i] as int in WHITE_SPACE)
        && (k < |s| - 1 ==> s[1..][k] as int !in WHITE_SPACE);
      assert s[1..][k..] == s[k + 1..];
    } else {
      assert LeftStripped(s) == s[0..];
    }
  }

  function LeftStripped(s: string): string {
    if s != "" && IsSpace(s[0]) then LeftStripped(s[1..]) else s
  }

  /** What follows the first ` for ` outside all brackets, or all of it. */
  ghost function AfterFor(header: string): string {
    var i := ForAt(header, 0);
    if i >= 0 then header[i + 5..] else header
  }

  /** What an impl line says its impl is on: the text its path is read from. */
  ghost function ImplSubject(line: string): string
    requires |line| >= 4
  {
    var rest := LeftStripped(Skipped(line[4..]));
    AfterFor(if StartsWith(rest, "!") then rest[1..] else rest)
  }

  ghost function PathIn(s: string): string {
    Stripped(s[..Read(s, 0)], 0)
  }

  /** The path an impl line is about. */
  method ImplPath(line: string) returns (path: string)
    requires StartsWith(line, "impl")
    ensures path == PathIn(ImplSubject(line))
  {
    var rest := SkipGenerics(line[4..]);
    rest := LeftStripped(rest);
    if StartsWith(rest, "!") {
      rest := rest[1..];
    }
    var i := TopLevelFor(rest);
    if i >= 0 {
      rest := rest[i + 5..];
    }
    path := ReadPath(rest);
    path := StripGenerics(path);
  }

  /** `impl<..> Trait for Type`, `impl !Trait for Type` or `impl Type`, then whatever follows the type. */
  datatype Impl = Impl(generics: Option<string>, negative: bool, implements: Option<seq<Segment>>,
                       subject: seq<Segment>, tail: string)

  ghost predicate IsImpl(l: Impl) {
    IsImplAround(l) && (l.generics.Some? ==> IsBalanced(l.generics.value))
  }

  /** All but the generics of the impl itself is as it should be. */
  ghost predicate IsImplAround(l: Impl) {
    && IsPath(l.subject) && IsTail(l.tail)
    && (if l.implements.Some? then IsPath(l.implements.value) && IsRounded(l.implements.value)
        else IsRounded(l.subject) && ForAt(l.tail, 0) < 0)
  }

  ghost function Header(l: Impl): string {
    (if l.implements.Some? then Printed(l.implements.value) + FOR else "") + (Printed(l.subject) + l.tail)
  }

  ghost function ImplLine(l: Impl): string {
    "impl" + (Group(l.generics) + (" " + ((if l.negative then "!" else "") + Header(l))))
  }

  lemma {:induction false} PathStart(path: seq<Segment>)
    requires IsPath(path)
    ensures Printed(path) != "" && !IsSpace(Printed(path)[0]) && Printed(path)[0] != '!'
  {
    var g := path[0];
    assert IsSegment(g);
    var first := g.name + Group(g.generics);
    assert first[0] == Printed(path)[0];
    assert first[0] == if g.name == "" then '<' else g.name[0];
  }

  /** An impl line is filed under the type it is on, whatever trait, generics and bounds stand around it. */
  lemma {:induction false} ImplIsFiledUnderItsType(l: Impl)
    requires IsImpl(l)
    ensures StartsWith(ImplLine(l), "impl") && PathIn(ImplSubject(ImplLine(l))) == Bare(l.subject)
  {
    var subject := Printed(l.subject) + l.tail;
    SubjectIsFound(l);
    PrintedPathIsRead(l.subject, l.tail);
    assert subject[..|Printed(l.subject)|] == Printed(l.subject);
  }

  lemma {:induction false} SubjectIsFound(l: Impl)
    requires IsImpl(l)
    ensures StartsWith(ImplLine(l), "impl") && ImplSubject(ImplLine(l)) == Printed(l.subject) + l.tail
  {
    hide Read, Stripped, IsPath, IsTail, IsBalanced, Printed, Header, Skipped, ForAt, IsSpace, Group;
    var line := ImplLine(l);
    var text := (if l.negative then "!" else "") + Header(l);
    assert line[..4] == "impl" && line[4..] == Group(l.generics) + (" " + text);
    GenericsAreSkipped(l.generics, " " + text);
    HeaderStart(l);
    SpaceIsStripped(text);
    if l.negative {
      assert text[..1] == "!" && text[1..] == Header(l);
    } else {
      assert text == Header(l);
      assert !StartsWith(text, "!");
    }
    HeaderSplits(l);
  }

  lemma {:induction false} SpaceIsStripped(text: string)
    requires text != "" && !IsSpace(text[0])
    ensures LeftStripped(" " + text) == text
  {
    assert (" " + text)[1..] == text;
  }

  lemma {:induction false} GenericsAreSkipped(generics: Option<string>, rest: string)
    requires rest != "" && rest[0] != '<' && (generics.Some? ==> IsBalanced(generics.value))
    ensures Skipped(Group(generics) + rest) == rest
  {
    if generics.Some? {
      GroupOpens(generics.value, rest);
      hide Read, Stripped, Group, AngleOrRound;
      ReadGroup(generics.value, 1, rest);
      var all := Group(generics) + rest;
      assert all[..1] == "<";
    } else {
      assert Group(generics) + rest == rest;
    }
  }

  lemma {:induction false} HeaderStart(l: Impl)
    requires IsImpl(l)
    ensures Header(l) != "" && !IsSpace(Header(l)[0]) && Header(l)[0] != '!' && !IsSpace('!')
  {
    PathStart(l.subject);
    if l.implements.Some? {
      PathStart(l.implements.value);
    }
  }

  lemma {:induction false} HeaderSplits(l: Impl)
    requires IsImpl(l)
    ensures var i := ForAt(Header(l), 0);
            (if i >= 0 then Header(l)[i + 5..] else Header(l)) == Printed(l.subject) + l.tail
  {
    hide Printed;
    var subject := Printed(l.subject) + l.tail;
    if l.implements.Some? {
      var path := Printed(l.implements.value);
      NoForInPath(l.implements.value, FOR + subject);
      assert Header(l) == path + (FOR + subject);
      assert StartsWith(FOR + subject, FOR);
      assert Header(l)[|path| + 5..] == subject;
    } else {
      NoForInPath(l.subject, l.tail);
      assert Header(l) == subject;
    }
  }

  /** Any other line: what follows its declaration words is a path and a tail. */
  method ItemPath(rest: string) returns (path: string)
    ensures path == PathIn(rest)
  {
    path := ReadPath(rest);
    path := StripGenerics(path);
  }

  lemma {:induction false} ItemIsFiledUnderItsPath(path: seq<Segment>, tail: string)
    requires IsPath(path) && IsTail(tail)
    ensures PathIn(Printed(path) + tail) == Bare(path)
  {
    PrintedPathIsRead(path, tail);
    assert (Printed(path) + tail)[..|Printed(path)|] == Printed(path);
  }

  // ---------------------------------------------------------------- arrows

  /** How many `->` there are in `s`. */
  ghost function Arrows(s: string): nat {
    if |s| < 2 then 0
    else if s[..2] == "->" then 1 + Arrows(s[2..])
    else Arrows(s[1..])
  }

  /** `Nested`, read as Rust does: the `>` of an arrow is no bracket. */
  ghost predicate PlainlyNested(s: string, depth: nat, change: char -> int) {
    if s == "" then depth == 1
    else if StartsWith(s, "->") then PlainlyNested(s[2..], depth, change)
    else depth + change(s[0]) >= 1 && PlainlyNested(s[1..], depth + change(s[0]), change)
  }

  /** What the scanners make of the brackets in `s`. */
  ghost function Sum(s: string, change: char -> int): int {
    if s == "" then 0 else change(s[0]) + Sum(s[1..], change)
  }

  lemma {:induction false} SumOf(a: string, b: string, change: char -> int)
    ensures Sum(a + b, change) == Sum(a, change) + Sum(b, change)
  {
    if a == "" {
      assert a + b == b;
    } else {
      assert (a + b)[0] == a[0] && (a + b)[1..] == a[1..] + b;
      SumOf(a[1..], b, change);
    }
  }

  /** Each arrow takes one from the count that a plainly nested text would end on. */
  lemma {:induction false} ArrowsLowerTheSum(s: string, depth: nat, change: char -> int)
    requires PlainlyNested(s, depth, change) && change('-') == 0 && change('>') == -1
    ensures depth + Sum(s, change) == 1 - Arrows(s)
    ensures Arrows(s) == 0 ==> Nested(s, depth, change)
    decreases |s|
  {
    if s != "" {
      if StartsWith(s, "->") {
        assert s[0] == '-' && s[1..][0] == '>' && s[1..][1..] == s[2..];
        ArrowsLowerTheSum(s[2..], depth, change);
      } else {
        ArrowsLowerTheSum(s[1..], depth + change(s[0]), change);
        assert |s| >= 2 ==> s[..2] != "->";
      }
    }
  }

  /** Reading stops before a tail only where the brackets before it cancel out. */
  lemma {:induction false} ReadStopsAtZero(s: string, rest: string, depth: int)
    requires Read(s + rest, depth) == |s| && rest != ""
    ensures depth + Sum(s, Angle) == 0
    decreases |s|
  {
    var all := s + rest;
    if s == "" {
      assert all == rest;
    } else {
      assert all[0] == s[0] && all[1..] == s[1..] + rest;
      if s[0] != '<' && s[0] != '>' && depth == 0 && StartsWith(all, "::") {
        assert all[1] == ':' && |s| >= 2;
        assert all[2..] == s[2..] + rest && s[1..][1..] == s[2..] && s[1..][0] == ':';
        ReadStopsAtZero(s[2..], rest, depth);
      } else {
        ReadStopsAtZero(s[1..], rest, depth + Angle(s[0]));
      }
    }
  }

  /** `change` counts angle brackets, and perhaps round ones. */
  ghost predicate Counts(change: char -> int) {
    change('<') == 1 && change('>') == -1 && forall c :: AngleOrRound(c) == 0 ==> change(c) == 0
  }

  /** A path as rustdoc prints it, arrows and all. */
  ghost predicate IsPlainPath(path: seq<Segment>, change: char -> int) {
    path != [] && forall i :: 0 <= i < |path| ==> IsPlainSegment(path[i], change)
  }

  ghost predicate IsPlainSegment(g: Segment, change: char -> int) {
    IsName(g.name) && (g.name != "" || g.generics.Some?)
      && (g.generics.Some? ==> PlainlyNested(g.generics.value, 1, change))
  }

  ghost function ArrowsIn(path: seq<Segment>): nat {
    if path == [] then 0
    else (if path[0].generics.Some? then Arrows(path[0].generics.value) else 0) + ArrowsIn(path[1..])
  }

  lemma {:induction false} NoArrowsNests(path: seq<Segment>, change: char -> int)
    requires (forall i :: 0 <= i < |path| ==> IsPlainSegment(path[i], change)) && Counts(change) && ArrowsIn(path) == 0
    ensures forall i :: 0 <= i < |path| && path[i].generics.Some? ==> Nested(path[i].generics.value, 1, change)
  {
    if path != [] {
      NoArrowsNests(path[1..], change);
      if path[0].generics.Some? {
        ArrowsLowerTheSum(path[0].generics.value, 1, change);
      }
      assert forall i :: 1 <= i < |path| ==> path[i] == path[1..][i - 1];
    }
  }

  lemma {:induction false} NamesSumToZero(name: string, change: char -> int)
    requires IsName(name) && Counts(change)
    ensures Sum(name, change) == 0
  {
    if name != "" {
      NamesSumToZero(name[1..], change);
    }
  }

  lemma {:induction false} SumOfOne(c: char, change: char -> int)
    ensures Sum([c], change) == change(c) && Sum("", change) == 0
  {
    assert [c][1..] == "";
  }

  lemma {:induction false} GroupSum(body: string, change: char -> int)
    requires PlainlyNested(body, 1, change) && Counts(change)
    ensures Sum(Group(Some(body)), change) == 0 - Arrows(body)
  {
    hide PlainlyNested, Arrows, Sum;
    ArrowsLowerTheSum(body, 1, change);
    SumOf("<" + body, ">", change);
    SumOf("<", body, change);
    SumOfOne('<', change);
    SumOfOne('>', change);
  }

  lemma {:induction false} SegmentSum(g: Segment, change: char -> int)
    requires IsPlainSegment(g, change) && Counts(change)
    ensures Sum(g.name + Group(g.generics), change) == 0 - (if g.generics.Some? then Arrows(g.generics.value) else 0)
  {
    hide PlainlyNested, Arrows, Sum;
    SumOf(g.name, Group(g.generics), change);
    NamesSumToZero(g.name, change);
    if g.generics.Some? {
      GroupSum(g.generics.value, change);
    } else {
      SumOfOne(' ', change);
    }
  }

  /** The brackets of a printed path cancel out but for its arrows. */
  lemma {:induction false} PathSum(path: seq<Segment>, change: char -> int)
    requires IsPlainPath(path, change) && Counts(change)
    ensures Sum(Printed(path), change) == 0 - ArrowsIn(path)
  {
    hide Sum, IsPlainSegment, Group;
    var first := path[0].name + Group(path[0].generics);
    SegmentSum(path[0], change);
    if |path| > 1 {
      PathSum(path[1..], change);
      PrintedSplits(path);
      SumOf(first, "::" + Printed(path[1..]), change);
      SumOf("::", Printed(path[1..]), change);
      assert "::" == ":" + ":";
      SumOf(":", ":", change);
      SumOfOne(':', change);
    } else {
      assert path[1..] == [];
    }
  }

  /** `read_path` takes exactly the printed path, whatever comes after it, exactly when no group holds an arrow. */
  lemma {:induction false} ReadsThePathExactlyWhen(path: seq<Segment>)
    requires IsPlainPath(path, Angle)
    ensures (forall rest :: IsTail(rest) ==> Read(Printed(path) + rest, 0) == |Printed(path)|) <==> ArrowsIn(path) == 0
  {
    hide Read, IsPlainSegment, IsSegment, Printed, Sum;
    if ArrowsIn(path) == 0 {
      NoArrowsNests(path, Angle);
      PlainIsPath(path);
      forall rest | IsTail(rest)
        ensures Read(Printed(path) + rest, 0) == |Printed(path)|
      {
        PrintedPathIsRead(path, rest);
      }
    } else if Read(Printed(path) + " ", 0) == |Printed(path)| {
      ReadStopsAtZero(Printed(path), " ", 0);
      PathSum(path, Angle);
      assert false;
    } else {
      assert IsTail(" ");
    }
  }

  lemma {:induction false} PlainIsPath(path: seq<Segment>)
    requires IsPlainPath(path, Angle)
    requires forall i :: 0 <= i < |path| && path[i].generics.Some? ==> Nested(path[i].generics.value, 1, Angle)
    ensures IsPath(path)
  {
    hide IsName;
    forall i | 0 <= i < |path|
      ensures IsSegment(path[i])
    {
      assert IsPlainSegment(path[i], Angle);
    }
  }

  lemma {:induction false} GroupEndsAtZero(s: string, depth: int)
    requires GroupEnd(s, depth) > 0
    ensures depth + Sum(s[..GroupEnd(s, depth)], Angle) == 0
  {
    var n := GroupEnd(s, depth);
    var now := depth + Angle(s[0]);
    assert s[..n][0] == s[0] && s[..n][1..] == s[1..][..n - 1];
    if now != 0 {
      GroupEndsAtZero(s[1..], now);
    }
  }

  /** The generics of an impl are skipped exactly when they hold no arrow. */
  lemma {:induction false} SkipsGenericsExactlyWhen(body: string, rest: string)
    requires PlainlyNested(body, 1, Angle)
    ensures Skipped(Group(Some(body)) + rest) == rest <==> Arrows(body) == 0
  {
    var all := Group(Some(body)) + rest;
    GroupOpens(body, rest);
    assert all[..1] == "<" && all[..|body| + 2] == Group(Some(body));
    ArrowsLowerTheSum(body, 1, Angle);
    hide Sum, PlainlyNested, Nested, Arrows, Read, Stripped;
    if Arrows(body) == 0 {
      ReadGroup(body, 1, rest);
    } else if Skipped(all) == rest {
      hide Group;
      assert GroupEnd(all, 0) == |body| + 2;
      GroupEndsAtZero(all, 0);
      GroupSum(body, Angle);
      assert false;
    }
  }

  lemma {:induction false} ForFoundAtZero(s: string, rest: string, depth: int)
    requires ForAt(s + rest, depth) == |s| && StartsWith(rest, FOR)
    ensures depth + Sum(s, AngleOrRound) == 0
  {
    var all := s + rest;
    if s == "" {
      assert all == rest;
      assert rest[0] == FOR[0];
    } else {
      assert all[0] == s[0] && all[1..] == s[1..] + rest;
      ForFoundAtZero(s[1..], rest, depth + AngleOrRound(s[0]));
    }
  }

  /** The ` for ` after an impl's trait is the one found exactly when the trait's groups hold no arrow. */
  lemma {:induction false} FindsForExactlyWhen(path: seq<Segment>, rest: string)
    requires IsPlainPath(path, AngleOrRound)
    ensures ForAt(Printed(path) + (FOR + rest), 0) == |Printed(path)| <==> ArrowsIn(path) == 0
  {
    hide Sum, Printed, Arrows, PlainlyNested, IsName, ForAt;
    assert StartsWith(FOR + rest, FOR);
    if ArrowsIn(path) == 0 {
      NoArrowsNests(path, AngleOrRound);
      forall i | 0 <= i < |path|
        ensures IsName(path[i].name)
      {
        assert IsPlainSegment(path[i], AngleOrRound);
      }
      hide ArrowsIn, IsPlainPath;
      NoForInPath(path, FOR + rest);
      ForIsFirst(rest);
    } else if ForAt(Printed(path) + (FOR + rest), 0) == |Printed(path)| {
      ForFoundAtZero(Printed(path), FOR + rest, 0);
      PathSum(path, AngleOrRound);
      assert false;
    }
  }

  lemma {:induction false} ForIsFirst(rest: string)
    ensures ForAt(FOR + rest, 0) == 0
  {
    assert (FOR + rest)[..5] == FOR && (FOR + rest)[0] == ' ';
  }

  // ---------------------------------------------------------------- groups that do not show

  /** The path read from `s` when `depth` groups are open. */
  ghost function PathAt(s: string, depth: int): string {
    Stripped(s[..Read(s, depth)], depth)
  }

  lemma {:induction false} PathAtSteps(s: string, depth: int)
    requires s != ""
    ensures PathAt(s, depth) ==
      if s[0] == '<' || s[0] == '>' then PathAt(s[1..], depth + Angle(s[0]))
      else if depth == 0 && StartsWith(s, "::") then "::" + PathAt(s[2..], 0)
      else if depth == 0 && Ends(s[0]) then ""
      else (if depth == 0 then [s[0]] else []) + PathAt(s[1..], depth)
  {
    var read := s[..Read(s, depth)];
    if depth == 0 && s[0] != '<' && s[0] != '>' && StartsWith(s, "::") {
      assert read == "::" + s[2..][..Read(s[2..], 0)];
      ReadColons(s[2..][..Read(s[2..], 0)]);
    } else if read != "" {
      assert read[1..] == s[1..][..|read| - 1] && read[0] == s[0];
    }
  }

  /** With a group still open, text without angle brackets adds nothing to the path. */
  lemma {:induction false} NothingAdded(t: string, depth: int)
    requires depth != 0 && forall i :: 0 <= i < |t| ==> Angle(t[i]) == 0
    ensures PathAt(t, depth) == ""
  {
    if t != "" {
      PathAtSteps(t, depth);
      NothingAdded(t[1..], depth);
    }
  }

  /** Once more brackets have closed than opened, what follows makes no difference. */
  lemma {:induction false} SameWhateverFollows(s: string, depth: int, a: string, b: string)
    requires depth + Sum(s, Angle) < 0
    requires (forall i :: 0 <= i < |a| ==> Angle(a[i]) == 0) && forall i :: 0 <= i < |b| ==> Angle(b[i]) == 0
    ensures PathAt(s + a, depth) == PathAt(s + b, depth)
    decreases |s|
  {
    hide PathAt;
    if s == "" {
      assert s + a == a && s + b == b;
      NothingAdded(a, depth);
      NothingAdded(b, depth);
    } else {
      PathAtSteps(s + a, depth);
      PathAtSteps(s + b, depth);
      assert (s + a)[0] == s[0] == (s + b)[0] && (s + a)[1..] == s[1..] + a && (s + b)[1..] == s[1..] + b;
      if depth == 0 && s[0] != '<' && s[0] != '>' {
        assert s[1..] != "";
        SameStart(s, a, b);
        if StartsWith(s, "::") {
          assert s[1..][0] == ':' && s[1..][1..] == s[2..];
          SameWhateverFollows(s[2..], depth, a, b);
        } else {
          SameWhateverFollows(s[1..], depth, a, b);
        }
      } else {
        SameWhateverFollows(s[1..], depth + Angle(s[0]), a, b);
      }
    }
  }

  lemma {:induction false} SameStart(s: string, a: string, b: string)
    requires |s| >= 2
    ensures StartsWith(s + a, "::") == StartsWith(s + b, "::") == StartsWith(s, "::")
    ensures (s + a)[2..] == s[2..] + a && (s + b)[2..] == s[2..] + b
  {
    assert (s + a)[..2] == s[..2] == (s + b)[..2];
  }

  /** A group is passed over: the path around it is read as if it were not there. */
  ghost predicate IsPassedOver(body: string, name: string, more: string, rest: string) {
    PathIn(name + Group(Some(body)) + ("::" + (more + rest))) == name + ("::" + more)
  }

  /** A group is passed over wherever it stands exactly when it holds no arrow. */
  lemma {:induction false} PassedOverExactlyWhen(body: string)
    requires PlainlyNested(body, 1, Angle)
    ensures (forall name, more, rest :: IsName(name) && IsName(more) && more != "" && IsTail(rest) ==>
             IsPassedOver(body, name, more, rest))
       <==> Arrows(body) == 0
  {
    hide PlainlyNested, IsName, IsTail, IsPassedOver;
    if Arrows(body) == 0 {
      forall name, more, rest | IsName(name) && IsName(more) && more != "" && IsTail(rest)
        ensures IsPassedOver(body, name, more, rest)
      {
        ArrowFreeIsPassedOver(body, name, more, rest);
      }
    } else {
      ArrowIsSeen(body);
      SomeNames();
    }
  }

  lemma {:induction false} SomeNames()
    ensures IsName("A") && IsName("B") && IsName("C") && IsTail(" ")
  {
  }

  lemma {:induction false} ArrowFreeIsPassedOver(body: string, name: string, more: string, rest: string)
    requires PlainlyNested(body, 1, Angle) && Arrows(body) == 0
    requires IsName(name) && IsName(more) && more != "" && IsTail(rest)
    ensures IsPassedOver(body, name, more, rest)
  {
    hide IsName, IsTail, PlainlyNested, PathIn, Group;
    ArrowsLowerTheSum(body, 1, Angle);
    var path := [Segment(name, Some(body)), Segment(more, None)];
    assert path[1..] == [Segment(more, None)];
    assert IsSegment(path[0]) && IsSegment(path[1]);
    ItemIsFiledUnderItsPath(path, rest);
    TwoPrinted(name, body, more, rest);
  }

  lemma {:induction false} TwoPrinted(name: string, body: string, more: string, rest: string)
    ensures var path := [Segment(name, Some(body)), Segment(more, None)];
      && Printed(path) + rest == name + Group(Some(body)) + ("::" + (more + rest))
      && Bare(path) == name + ("::" + more)
  {
    var path := [Segment(name, Some(body)), Segment(more, None)];
    assert path[1..] == [Segment(more, None)];
    assert Printed(path[1..]) == more && Bare(path[1..]) == more;
    PrintedSplits(path);
    Regroup(name + Group(Some(body)), "::" + more, rest);
    Regroup("::", more, rest);
  }

  /** After an arrow two different paths are read the same. */
  lemma {:induction false} ArrowIsSeen(body: string)
    requires PlainlyNested(body, 1, Angle) && Arrows(body) > 0
    ensures !IsPassedOver(body, "A", "B", " ") || !IsPassedOver(body, "A", "C", " ")
  {
    var s := "A" + Group(Some(body));
    assert IsPlainSegment(Segment("A", Some(body)), Angle);
    SegmentSum(Segment("A", Some(body)), Angle);
    hide PlainlyNested, Group, Arrows, Sum, Read, Stripped;
    SameWhateverFollows(s, 0, "::" + ("B" + " "), "::" + ("C" + " "));
    assert ("A" + ("::" + "B"))[3] != ("A" + ("::" + "C"))[3];
  }

  // ---------------------------------------------------------------- groups in impl lines

  lemma {:induction false} TailsClose(body: string, depth: nat, k: nat)
    requires PlainlyNested(body, depth, Angle) && depth >= 1 && k <= |body|
    ensures Sum(body[k..], Angle) <= 0
    decreases |body|
  {
    if k == 0 {
      ArrowsLowerTheSum(body, depth, Angle);
    } else if StartsWith(body, "->") {
      assert body[1..][1..] == body[2..] && body[1..][0] == '>';
      if k == 1 {
        TailsClose(body[2..], depth, 0);
      } else {
        TailsClose(body[2..], depth, k - 2);
        assert body[k..] == body[2..][k - 2..];
      }
    } else {
      TailsClose(body[1..], depth + Angle(body[0]), k - 1);
      assert body[k..] == body[1..][k - 1..];
    }
  }

  /** A nonempty end of a text. */
  ghost predicate IsEndOf(v: string, w: string) {
    |v| > 0 && |v| <= |w| && v == w[|w| - |v|..]
  }

  lemma {:induction false} EndOfEnd(u: string, v: string, w: string)
    requires IsEndOf(u, v) && IsEndOf(v, w)
    ensures IsEndOf(u, w)
  {
  }

  lemma {:induction false} EndsHere(w: string, k: nat)
    requires k < |w|
    ensures IsEndOf(w[k..], w)
  {
  }

  /** Any end of a group that holds an arrow closes more than it opens. */
  lemma {:induction false} EndsClose(body: string, v: string)
    requires PlainlyNested(body, 1, Angle) && Arrows(body) > 0 && IsEndOf(v, Group(Some(body)))
    ensures Sum(v, Angle) < 0
  {
    var group := Group(Some(body));
    if |v| == |group| {
      GroupSum(body, Angle);
      assert v == group;
    } else {
      var k := |group| - |v| - 1;
      assert v == body[k..] + ">";
      TailsClose(body, 1, k);
      hide PlainlyNested, Arrows, Sum;
      SumOf(body[k..], ">", Angle);
      SumOfOne('>', Angle);
    }
  }

  lemma {:induction false} GroupEndThere(s: string, t: string, depth: int)
    requires forall i :: 0 <= i < |t| ==> Angle(t[i]) == 0
    requires GroupEnd(s, depth) > 0 || depth + Sum(s, Angle) != 0
    ensures GroupEnd(s + t, depth) == GroupEnd(s, depth)
  {
    if s == "" {
      assert s + t == t;
      NoGroupEnd(t, depth);
    } else {
      assert (s + t)[0] == s[0] && (s + t)[1..] == s[1..] + t;
      if depth + Angle(s[0]) != 0 {
        GroupEndThere(s[1..], t, depth + Angle(s[0]));
      }
    }
  }

  lemma {:induction false} NoGroupEnd(t: string, depth: int)
    requires depth != 0 && forall i :: 0 <= i < |t| ==> Angle(t[i]) == 0
    ensures GroupEnd(t, depth) == 0
  {
    if t != "" {
      NoGroupEnd(t[1..], depth);
    }
  }

  /** Generics that hold an arrow are cut somewhere inside, wherever that is the same for every line. */
  ghost function CutGenerics(group: string): string {
    group[GroupEnd(group, 0)..]
  }

  lemma {:induction false} ArrowsCutGenerics(body: string, t: string)
    requires PlainlyNested(body, 1, Angle) && Arrows(body) > 0 && forall i :: 0 <= i < |t| ==> Angle(t[i]) == 0
    ensures var group := Group(Some(body));
      IsEndOf(CutGenerics(group), group) && Skipped(group + t) == CutGenerics(group) + t
  {
    var group := Group(Some(body));
    GroupSum(body, Angle);
    GroupOpens(body, t);
    hide PlainlyNested, Arrows, Sum;
    GroupEndThere(group, t, 0);
    assert group[..|group|] == group;
    if GroupEnd(group, 0) > 0 {
      GroupEndsAtZero(group, 0);
    }
    hide Group, GroupEnd;
    EndsHere(group, GroupEnd(group, 0));
    assert (group + t)[..1] == "<";
    assert (group + t)[GroupEnd(group, 0)..] == group[GroupEnd(group, 0)..] + t;
  }

  /** What stands after `>`-closed text `w` once leading space and a `!` are gone. */
  ghost function Trimmed(w: string): string {
    var r := LeftStripped(w);
    if StartsWith(r, "!") then r[1..] else r
  }

  lemma {:induction false} StripsBefore(w: string, t: string)
    requires w != "" && w[|w| - 1] == '>'
    ensures LeftStripped(w + t) == LeftStripped(w) + t && IsEndOf(LeftStripped(w), w)
  {
    assert (w + t)[0] == w[0] && (w + t)[1..] == w[1..] + t;
    if IsSpace(w[0]) {
      assert |w| > 1;
      StripsBefore(w[1..], t);
      EndOfEnd(LeftStripped(w[1..]), w[1..], w);
    }
  }

  lemma {:induction false} TrimsBefore(w: string, t: string)
    requires w != "" && w[|w| - 1] == '>'
    ensures var r := LeftStripped(w + t);
      (if StartsWith(r, "!") then r[1..] else r) == Trimmed(w) + t
    ensures IsEndOf(Trimmed(w), w)
  {
    StripsBefore(w, t);
    var r := LeftStripped(w);
    hide LeftStripped, IsSpace;
    EndKeepsLast(r, w);
    assert (r + t)[..1] == r[..1];
    if StartsWith(r, "!") {
      assert r[0] == "!"[0] && |r| > 1;
      assert (r + t)[1..] == r[1..] + t;
      EndOfEnd(r[1..], r, w);
    }
  }

  lemma {:induction false} EndKeepsLast(v: string, w: string)
    requires IsEndOf(v, w)
    ensures w != "" && v[|v| - 1] == w[|w| - 1]
  {
  }

  /** A ` for ` found before or after the end of `w` does not depend on what follows, if none is found after it. */
  lemma {:induction false} ForBefore(w: string, t: string, depth: int)
    requires w != "" && w[|w| - 1] == '>' && ForAt(t, depth + Sum(w, AngleOrRound)) < 0
    ensures ForAt(w + t, depth) == ForAt(w, depth)
    ensures ForAt(w, depth) >= 0 ==> ForAt(w, depth) + 5 < |w|
  {
    var all := w + t;
    assert all[0] == w[0] && all[1..] == w[1..] + t;
    var now := depth + AngleOrRound(w[0]);
    NoForAcross(w, t);
    if |w| == 1 {
      assert all[1..] == t && w[1..] == "";
      assert Sum(w, AngleOrRound) == AngleOrRound(w[0]);
    } else {
      ForBefore(w[1..], t, now);
    }
  }

  lemma {:induction false} NoForAcross(w: string, t: string)
    requires w != "" && w[|w| - 1] == '>'
    ensures StartsWith(w + t, FOR) <==> StartsWith(w, FOR)
    ensures StartsWith(w, FOR) ==> |w| > 5
  {
    assert forall i :: 0 <= i < 5 ==> FOR[i] != '>';
    if |w| >= 5 {
      assert (w + t)[..5] == w[..5];
      assert |w| == 5 ==> w[..5][4] == '>';
    } else if |w + t| >= 5 {
      assert (w + t)[..5][|w| - 1] == '>';
    }
  }

  /** The text before a type whose path is read when the generics or the trait before it hold an arrow. */
  ghost function Leftover(w: string): string {
    AfterFor(Trimmed(w))
  }

  /** Such a line's subject text starts with what is left of the group. */
  lemma {:induction false} SubjectKeepsLeftover(w: string, t: string)
    requires w != "" && w[|w| - 1] == '>' && ForAt(t, Sum(Trimmed(w), AngleOrRound)) < 0
    ensures IsEndOf(Leftover(w), w)
    ensures var r := LeftStripped(w + t);
      AfterFor(if StartsWith(r, "!") then r[1..] else r) == Leftover(w) + t
  {
    TrimsBefore(w, t);
    var v := Trimmed(w);
    EndKeepsLast(v, w);
    ForBefore(v, t, 0);
    AfterForKeeps(v, t);
    hide AfterFor, Trimmed;
    EndOfEnd(AfterFor(v), v, w);
  }

  lemma {:induction false} AfterForKeeps(v: string, t: string)
    requires v != "" && ForAt(v + t, 0) == ForAt(v, 0) && (ForAt(v, 0) >= 0 ==> ForAt(v, 0) + 5 < |v|)
    ensures AfterFor(v + t) == AfterFor(v) + t && IsEndOf(AfterFor(v), v)
  {
    hide ForAt;
    var i := ForAt(v, 0);
    if i >= 0 {
      assert (v + t)[i + 5..] == v[i + 5..] + t;
    }
  }

  ghost predicate IsFiledRight(l: Impl) {
    StartsWith(ImplLine(l), "impl") && PathIn(ImplSubject(ImplLine(l))) == Bare(l.subject)
  }

  /** `impl<body> A`, and the like. */
  ghost function PlainImpl(generics: Option<string>, implements: Option<seq<Segment>>, name: string): Impl {
    Impl(generics, false, implements, [Segment(name, None)], "")
  }

  lemma {:induction false} PlainImplLine(generics: Option<string>, implements: Option<seq<Segment>>, name: string)
    ensures var l := PlainImpl(generics, implements, name);
      var header := (if implements.Some? then Printed(implements.value) + FOR else "") + name;
      && ImplLine(l)[..4] == "impl" && ImplLine(l)[4..] == Group(generics) + (" " + header) && Bare(l.subject) == name
  {
    hide Group;
    var l := PlainImpl(generics, implements, name);
    assert Printed(l.subject) == name + Group(None) by { NoGroup(); }
    NoGroup();
    assert Printed(l.subject) + l.tail == name;
    assert "" + Header(l) == Header(l);
  }

  lemma {:induction false} NoGroup()
    ensures Group(None) == ""
  {
  }

  /** Text in which an arrow has closed too much ends no path, whatever type the line is on. */
  lemma {:induction false} SamePathAfter(v: string, a: string, b: string)
    requires Sum(v, Angle) < 0
    requires (forall i :: 0 <= i < |a| ==> Angle(a[i]) == 0) && forall i :: 0 <= i < |b| ==> Angle(b[i]) == 0
    ensures PathIn(v + a) == PathIn(v + b)
  {
    SameWhateverFollows(v, 0, a, b);
  }

  /** Every impl line with these generics is filed under its type exactly when they hold no arrow. */
  lemma {:induction false} GenericsAreHarmlessExactlyWhen(body: string)
    requires PlainlyNested(body, 1, Angle)
    ensures (forall l: Impl :: l.generics == Some(body) && IsImplAround(l) ==> IsFiledRight(l)) <==> Arrows(body) == 0
  {
    hide PlainlyNested, IsImplAround, IsFiledRight, Arrows;
    if Arrows(body) == 0 {
      ArrowsLowerTheSum(body, 1, Angle);
      forall l: Impl | l.generics == Some(body) && IsImplAround(l)
        ensures IsFiledRight(l)
      {
        ArrowFreeIsFiledRight(l);
      }
    } else {
      GenericsArrowMisfiles(body);
      PlainIsImplAround(Some(body), None);
    }
  }

  lemma {:induction false} ArrowFreeIsFiledRight(l: Impl)
    requires IsImplAround(l) && (l.generics.Some? ==> IsBalanced(l.generics.value))
    ensures IsFiledRight(l)
  {
    hide IsImplAround, ImplLine, ImplSubject;
    ImplIsFiledUnderItsType(l);
  }

  lemma {:induction false} PlainIsImplAround(generics: Option<string>, implements: Option<seq<Segment>>)
    requires implements.Some? ==> IsPath(implements.value) && IsRounded(implements.value)
    ensures IsImplAround(PlainImpl(generics, implements, "A")) && IsImplAround(PlainImpl(generics, implements, "B"))
  {
    assert IsSegment(Segment("A", None)) && IsSegment(Segment("B", None));
  }

  /** Of two types after text in which an arrow has closed too much, one is not filed right. */
  lemma {:induction false} OneIsMisfiled(l: Impl, m: Impl, v: string, a: string, b: string)
    requires |ImplLine(l)| >= 4 && ImplSubject(ImplLine(l)) == v + a
    requires |ImplLine(m)| >= 4 && ImplSubject(ImplLine(m)) == v + b
    requires Sum(v, Angle) < 0 && Bare(l.subject) != Bare(m.subject)
    requires (forall i :: 0 <= i < |a| ==> Angle(a[i]) == 0) && forall i :: 0 <= i < |b| ==> Angle(b[i]) == 0
    ensures !IsFiledRight(l) || !IsFiledRight(m)
  {
    hide ImplLine, ImplSubject, Bare, Sum, PathIn;
    SamePathAfter(v, a, b);
  }

  lemma {:induction false} BareOfPlain(generics: Option<string>, implements: Option<seq<Segment>>)
    ensures Bare(PlainImpl(generics, implements, "A").subject) != Bare(PlainImpl(generics, implements, "B").subject)
  {
    hide Group, ImplLine, Printed;
    PlainImplLine(generics, implements, "A");
    PlainImplLine(generics, implements, "B");
    assert "A"[0] != "B"[0];
  }

  lemma {:induction false} GenericsArrowMisfiles(body: string)
    requires PlainlyNested(body, 1, Angle) && Arrows(body) > 0
    ensures !IsFiledRight(PlainImpl(Some(body), None, "A")) || !IsFiledRight(PlainImpl(Some(body), None, "B"))
  {
    hide Group, Leftover, CutGenerics, PlainlyNested, Arrows, Sum, PathIn, ImplLine, ImplSubject, Bare, PlainImpl,
      IsFiledRight, IsEndOf;
    GenericsLeave(body, "A");
    GenericsLeave(body, "B");
    var v := Leftover(CutGenerics(Group(Some(body))));
    EndsClose(body, v);
    BareOfPlain(Some(body), None);
    OneIsMisfiled(PlainImpl(Some(body), None, "A"), PlainImpl(Some(body), None, "B"), v, " " + "A", " " + "B");
  }

  lemma {:induction false} GenericsLeave(body: string, name: string)
    requires PlainlyNested(body, 1, Angle) && Arrows(body) > 0 && |name| == 1 && Angle(name[0]) == 0
    ensures var v := Leftover(CutGenerics(Group(Some(body)))); var l := PlainImpl(Some(body), None, name);
      && IsEndOf(v, Group(Some(body)))
      && |ImplLine(l)| >= 4 && ImplSubject(ImplLine(l)) == v + (" " + name)
  {
    var group := Group(Some(body));
    var w, t := CutGenerics(group), " " + name;
    GroupOpens(body, "");
    PlainImplLine(Some(body), None, name);
    ArrowsCutGenerics(body, t);
    assert "" + name == name;
    hide PlainlyNested, Arrows, ImplLine, CutGenerics, Skipped, Leftover, Sum, AfterFor;
    assert group[|group| - 1] == '>';
    hide Group;
    EndKeepsLast(w, group);
    SubjectKeepsLeftover(w, t);
    EndOfEnd(Leftover(w), w, group);
  }

  /** The trait's path holds this group, and all else about the line is as it should be. */
  ghost predicate TraitHolds(l: Impl, body: string) {
    && IsPath(l.subject) && IsTail(l.tail) && (l.generics.Some? ==> IsBalanced(l.generics.value)) && l.implements.Some?
    && exists i :: 0 <= i < |l.implements.value| && IsTheGroup(l.implements.value, i, body)
  }

  ghost predicate IsTheGroup(path: seq<Segment>, i: nat, body: string)
    requires i < |path|
  {
    && path[i].generics == Some(body) && IsName(path[i].name)
    && forall j :: 0 <= j < |path| && j != i ==>
         IsSegment(path[j]) && (path[j].generics.Some? ==> Nested(path[j].generics.value, 1, AngleOrRound))
  }

  /** Every impl line whose trait holds this group is filed under its type exactly when the group holds no arrow. */
  lemma {:induction false} TraitGroupIsHarmlessExactlyWhen(body: string)
    requires PlainlyNested(body, 1, Angle) && PlainlyNested(body, 1, AngleOrRound)
    ensures (forall l: Impl :: TraitHolds(l, body) ==> IsFiledRight(l)) <==> Arrows(body) == 0
  {
    hide PlainlyNested, TraitHolds, IsFiledRight, Arrows;
    if Arrows(body) == 0 {
      ArrowsLowerTheSum(body, 1, Angle);
      ArrowsLowerTheSum(body, 1, AngleOrRound);
      forall l: Impl | TraitHolds(l, body)
        ensures IsFiledRight(l)
      {
        ArrowFreeTrait(l, body);
        ArrowFreeIsFiledRight(l);
      }
    } else {
      TraitArrowMisfiles(body);
      PlainTraitHolds(body);
    }
  }

  lemma {:induction false} ArrowFreeTrait(l: Impl, body: string)
    requires TraitHolds(l, body) && Nested(body, 1, Angle) && Nested(body, 1, AngleOrRound)
    ensures IsImplAround(l) && (l.generics.Some? ==> IsBalanced(l.generics.value))
  {
    hide Nested, IsName;
    var path := l.implements.value;
    var i :| 0 <= i < |path| && IsTheGroup(path, i, body);
    assert IsSegment(path[i]);
  }

  ghost function Holding(body: string): seq<Segment> {
    [Segment("T", Some(body))]
  }

  lemma {:induction false} PlainTraitHolds(body: string)
    ensures TraitHolds(PlainImpl(None, Some(Holding(body)), "A"), body)
      && TraitHolds(PlainImpl(None, Some(Holding(body)), "B"), body)
  {
    assert IsSegment(Segment("A", None)) && IsSegment(Segment("B", None));
    assert IsTheGroup(Holding(body), 0, body);
  }

  lemma {:induction false} TraitArrowMisfiles(body: string)
    requires PlainlyNested(body, 1, Angle) && PlainlyNested(body, 1, AngleOrRound) && Arrows(body) > 0
    ensures !IsFiledRight(PlainImpl(None, Some(Holding(body)), "A"))
      || !IsFiledRight(PlainImpl(None, Some(Holding(body)), "B"))
  {
    hide Group, Leftover, PlainlyNested, Arrows, Sum, PathIn, ImplLine, ImplSubject, Bare, PlainImpl, IsFiledRight,
      IsEndOf;
    TraitLeaves(body, "A");
    TraitLeaves(body, "B");
    var v := Leftover("T" + Group(Some(body)));
    TraitEndsClose(body, v);
    BareOfPlain(None, Some(Holding(body)));
    OneIsMisfiled(PlainImpl(None, Some(Holding(body)), "A"), PlainImpl(None, Some(Holding(body)), "B"), v, FOR + "A",
                  FOR + "B");
  }

  lemma {:induction false} TraitEndsClose(body: string, v: string)
    requires PlainlyNested(body, 1, Angle) && Arrows(body) > 0 && IsEndOf(v, "T" + Group(Some(body)))
    ensures Sum(v, Angle) < 0
  {
    hide PlainlyNested, Arrows, Sum, Group, IsEndOf;
    EndOfJoin("T", Group(Some(body)), v);
    if IsEndOf(v, Group(Some(body))) {
      EndsClose(body, v);
    } else {
      SumOf("T", Group(Some(body)), Angle);
      SumOfOne('T', Angle);
      GroupSum(body, Angle);
    }
  }

  lemma {:induction false} EndOfJoin(first: string, group: string, v: string)
    requires |first| == 1 && IsEndOf(v, first + group)
    ensures IsEndOf(v, group) || v == first + group
  {
    if |v| <= |group| {
      assert (first + group)[|first + group| - |v|..] == group[|group| - |v|..];
    }
  }

  lemma {:induction false} TraitLeaves(body: string, name: string)
    requires PlainlyNested(body, 1, AngleOrRound) && Arrows(body) > 0 && |name| == 1 && AngleOrRound(name[0]) == 0
    ensures var v := Leftover("T" + Group(Some(body))); var l := PlainImpl(None, Some(Holding(body)), name);
      && IsEndOf(v, "T" + Group(Some(body)))
      && |ImplLine(l)| >= 4 && ImplSubject(ImplLine(l)) == v + (FOR + name)
  {
    var group := Group(Some(body));
    var w, t := "T" + group, FOR + name;
    PlainImplLine(None, Some(Holding(body)), name);
    GroupOpens(body, "");
    GroupSum(body, AngleOrRound);
    NoGroup();
    hide PlainlyNested, Arrows, ImplLine, Leftover, Sum, AfterFor;
    assert w[|w| - 1] == '>' && w[0] == 'T';
    assert Printed(Holding(body)) == w;
    Regroup(w, FOR, name);
    hide Group;
    SumOf("T", group, AngleOrRound);
    SumOfOne('T', AngleOrRound);
    TrimmedAlready(w);
    NoForInside(t, Sum(w, AngleOrRound));
    SubjectKeepsLeftover(w, t);
    SpaceBefore(w, t);
  }

  lemma {:induction false} TrimmedAlready(w: string)
    requires w != "" && w[0] == 'T'
    ensures Trimmed(w) == w
  {
  }

  lemma {:induction false} SpaceBefore(w: string, t: string)
    requires w != "" && w[0] == 'T'
    ensures "" + (" " + (w + t)) == " " + (w + t)
    ensures LeftStripped(Skipped(" " + (w + t))) == LeftStripped(w + t)
  {
    var all := " " + (w + t);
    assert all[1..] == w + t && all[0] == ' ';
    assert !StartsWith(all, "<");
  }

  lemma {:induction false} NoForInside(t: string, depth: int)
    requires depth != 0 && forall i :: 0 <= i < |t| ==> AngleOrRound(t[i]) == 0
    ensures ForAt(t, depth) < 0
  {
    if t != "" {
      NoForInside(t[1..], depth);
    }
  }

  /** The type the impl is on holds this group, and all else about the line is as it should be. */
  ghost predicate SubjectHolds(l: Impl, body: string) {
    && IsTail(l.tail) && (l.generics.Some? ==> IsBalanced(l.generics.value))
    && (if l.implements.Some? then IsPath(l.implements.value) && IsRounded(l.implements.value)
        else ForAt(l.tail, 0) < 0)
    && exists i :: 0 <= i < |l.subject| && IsTheGroup(l.subject, i, body)
  }

  /** Every impl line on a type that holds this group is filed under it exactly when the group holds no arrow. */
  lemma {:induction false} SubjectGroupIsHarmlessExactlyWhen(body: string)
    requires PlainlyNested(body, 1, Angle) && PlainlyNested(body, 1, AngleOrRound)
    ensures (forall l: Impl :: SubjectHolds(l, body) ==> IsFiledRight(l)) <==> Arrows(body) == 0
  {
    hide PlainlyNested, SubjectHolds, IsFiledRight, Arrows;
    if Arrows(body) == 0 {
      ArrowsLowerTheSum(body, 1, Angle);
      ArrowsLowerTheSum(body, 1, AngleOrRound);
      forall l: Impl | SubjectHolds(l, body)
        ensures IsFiledRight(l)
      {
        ArrowFreeSubject(l, body);
        ArrowFreeIsFiledRight(l);
      }
    } else {
      SubjectArrowMisfiles(body);
      OnGroupHolds(body);
    }
  }

  lemma {:induction false} ArrowFreeSubject(l: Impl, body: string)
    requires SubjectHolds(l, body) && Nested(body, 1, Angle) && Nested(body, 1, AngleOrRound)
    ensures IsImplAround(l) && (l.generics.Some? ==> IsBalanced(l.generics.value))
  {
    hide Nested, IsName;
    var path := l.subject;
    var i :| 0 <= i < |path| && IsTheGroup(path, i, body);
    assert IsSegment(path[i]);
  }

  /** `impl T<body>::A`, and the like. */
  ghost function OnGroup(body: string, name: string): Impl {
    Impl(None, false, None, Holding(body) + [Segment(name, None)], "")
  }

  lemma {:induction false} OnGroupHolds(body: string)
    ensures SubjectHolds(OnGroup(body, "A"), body) && SubjectHolds(OnGroup(body, "B"), body)
  {
    assert IsSegment(Segment("A", None)) && IsSegment(Segment("B", None));
    assert IsTheGroup(OnGroup(body, "A").subject, 0, body) && IsTheGroup(OnGroup(body, "B").subject, 0, body);
  }

  lemma {:induction false} SubjectArrowMisfiles(body: string)
    requires PlainlyNested(body, 1, Angle) && PlainlyNested(body, 1, AngleOrRound) && Arrows(body) > 0
    ensures !IsFiledRight(OnGroup(body, "A")) || !IsFiledRight(OnGroup(body, "B"))
  {
    hide *;
    NoBracketsHere();
    OnGroupLeaves(body, "A");
    OnGroupLeaves(body, "B");
    var v := Leftover("T" + Group(Some(body)));
    TraitEndsClose(body, v);
    BareOnGroup(body);
    OneIsMisfiled(OnGroup(body, "A"), OnGroup(body, "B"), v, "::" + "A", "::" + "B");
  }

  lemma {:induction false} NoBracketsHere()
    ensures forall i :: 0 <= i < |"::" + "A"| ==> Angle(("::" + "A")[i]) == 0
    ensures forall i :: 0 <= i < |"::" + "B"| ==> Angle(("::" + "B")[i]) == 0
    ensures AngleOrRound("A"[0]) == 0 && AngleOrRound("B"[0]) == 0 && |"A"| == |"B"| == 1
  {
  }

  lemma {:induction false} OnGroupPrinted(body: string, name: string)
    ensures Printed(OnGroup(body, name).subject) == "T" + Group(Some(body)) + ("::" + name)
    ensures Bare(OnGroup(body, name).subject) == "T" + ("::" + name)
  {
    TwoPrinted("T", body, name, "");
    assert OnGroup(body, name).subject == [Segment("T", Some(body)), Segment(name, None)];
    hide Printed, Group, Bare;
    assert name + "" == name;
    assert Printed(OnGroup(body, name).subject) + "" == Printed(OnGroup(body, name).subject);
  }

  lemma {:induction false} BareOnGroup(body: string)
    ensures Bare(OnGroup(body, "A").subject) != Bare(OnGroup(body, "B").subject)
  {
    OnGroupPrinted(body, "A");
    OnGroupPrinted(body, "B");
    assert ("T" + ("::" + "A"))[3] != ("T" + ("::" + "B"))[3];
  }

  lemma {:induction false} OnGroupLine(body: string, name: string)
    ensures var line := ImplLine(OnGroup(body, name));
      |line| >= 4 && line[4..] == " " + ("T" + Group(Some(body)) + ("::" + name))
  {
    OnGroupPrinted(body, name);
    NoGroup();
    hide Printed, Bare;
    var l := OnGroup(body, name);
    var header := "T" + Group(Some(body)) + ("::" + name);
    hide Group;
    assert Header(l) == header;
    assert ImplLine(l) == "impl" + (" " + header);
  }

  lemma {:induction false} OnGroupLeaves(body: string, name: string)
    requires PlainlyNested(body, 1, AngleOrRound) && Arrows(body) > 0 && |name| == 1 && AngleOrRound(name[0]) == 0
    ensures var v := Leftover("T" + Group(Some(body))); var l := OnGroup(body, name);
      && IsEndOf(v, "T" + Group(Some(body)))
      && |ImplLine(l)| >= 4 && ImplSubject(ImplLine(l)) == v + ("::" + name)
  {
    var group := Group(Some(body));
    var w, t := "T" + group, "::" + name;
    OnGroupLine(body, name);
    GroupOpens(body, "");
    GroupSum(body, AngleOrRound);
    hide PlainlyNested, Arrows, ImplLine, Leftover, Sum, AfterFor;
    assert w[|w| - 1] == '>' && w[0] == 'T';
    hide Group;
    SumOf("T", group, AngleOrRound);
    SumOfOne('T', AngleOrRound);
    TrimmedAlready(w);
    NoForInside(t, Sum(w, AngleOrRound));
    SubjectKeepsLeftover(w, t);
    SpaceBefore(w, t);
  }

  /** An arrow inside a group closes it early, and the path is cut at the next delimiter. */
  lemma {:induction false} ArrowsCutThePath()
    ensures PathIn("A<fn() -> B>::C") == "A"
  {
    hide PathIn;
    assert "A<fn() -> B>::C" == "A" + ("<fn() ->" + " B>::C");
    CutAfterArrow();
  }

  lemma {:induction false} CutAfterArrow()
    ensures PathIn("A" + ("<fn() ->" + " B>::C")) == "A"
  {
    var tail := " B>::C";
    assert IsName("A") && Read(tail, 0) == 0;
    var s := "A" + ("<fn() ->" + tail);
    hide Read, Stripped, IsName;
    ReadName("A", "<fn() ->" + tail);
    ArrowClosesGroup(tail);
    assert s[..9] == "A" + ("<fn() ->" + "");
    ReadName("A", "<fn() ->" + "");
    ArrowClosesGroup("");
    NothingToRead();
  }

  lemma {:induction false} ArrowClosesGroup(rest: string)
    ensures Read("<fn() ->" + rest, 0) == 8 + Read(rest, 0)
    ensures Stripped("<fn() ->" + rest, 0) == Stripped(rest, 0)
  {
    var body := "fn() -";
    assert Nested(body, 1, Angle) by {
      assert body[1..] == "n() -" && body[2..] == "() -" && body[3..] == ") -" && body[4..] == " -" && body[5..] == "-"
        && body[6..] == "";
      assert body[1..][1..] == body[2..] && body[2..][1..] == body[3..] && body[3..][1..] == body[4..];
      assert body[4..][1..] == body[5..] && body[5..][1..] == body[6..];
    }
    hide Nested;
    ReadGroup(body, 1, rest);
    var all := "<fn() ->" + rest;
    assert all[1..] == body + (">" + rest) && all[0] == '<';
  }
}
