/** Lines with their endings, and the parts of an assignment line. */
module Lines {
  import opened Wrappers
  import opened Sequences
  import opened Text

  function Join(lines: seq<string>): string {
    if lines == [] then "" else lines[0] + Join(lines[1..])
  }

  /** Where `c` first is, or the length. */
  function Find(s: string, c: char): (i: nat)
    ensures i <= |s| && (i < |s| ==> s[i] == c) && forall k :: 0 <= k < i ==> s[k] != c
  {
    if s == [] || s[0] == c then 0 else 1 + Find(s[1..], c)
  }

  /** Pieces that each end with a newline, except perhaps the last. */
  function SplitInclusive(s: string): (lines: seq<string>)
    decreases |s|
  {
    if s == "" then []
    else
      var i := Find(s, '\n');
      var end := if i < |s| then i + 1 else i;
      [s[..end]] + SplitInclusive(s[end..])
  }

  /** A line and its ending; without the ending only at the end of a text. */
  predicate IsLine(line: string, last: bool) {
    && line != "" && (forall k :: 0 <= k < |line| - 1 ==> line[k] != '\n')
    && (line[|line| - 1] == '\n' || last)
  }

  predicate AreLines(lines: seq<string>) {
    forall i :: 0 <= i < |lines| ==> IsLine(lines[i], i == |lines| - 1)
  }

  lemma OneMoreLine(first: string, rest: seq<string>)
    requires IsLine(first, rest == []) && AreLines(rest)
    ensures AreLines([first] + rest) && Join([first] + rest) == first + Join(rest)
  {
    var lines := [first] + rest;
    assert lines[1..] == rest;
    forall k | 0 <= k < |lines| ensures IsLine(lines[k], k == |lines| - 1) {
      assert k > 0 ==> lines[k] == rest[k - 1];
    }
  }

  lemma {:induction false} SplitLosesNothing(s: string)
    ensures Join(SplitInclusive(s)) == s && AreLines(SplitInclusive(s))
    decreases |s|
  {
    if s != "" {
      var end := FirstLine(s);
      SplitLosesNothing(s[end..]);
      SplitTakesALine(s, end);
      FirstLineIsALine(s);
      OneMoreLine(s[..end], SplitInclusive(s[end..]));
      CutOnce(s, end);
    }
  }

  /** How long the first line is, with its ending. */
  function FirstLine(s: string): (end: nat)
    requires s != ""
    ensures 0 < end <= |s|
  {
    var i := Find(s, '\n');
    if i < |s| then i + 1 else i
  }

  lemma SplitTakesALine(s: string, end: nat)
    requires s != "" && end == FirstLine(s)
    ensures SplitInclusive(s) == [s[..end]] + SplitInclusive(s[end..])
    ensures SplitInclusive(s[end..]) == [] <==> end == |s|
  {}

  lemma FirstLineIsALine(s: string)
    requires s != ""
    ensures IsLine(s[..FirstLine(s)], FirstLine(s) == |s|)
  {}

  /** Lines are recovered from the text they make. */
  lemma {:induction false} SplitOfJoin(lines: seq<string>)
    requires AreLines(lines)
    ensures SplitInclusive(Join(lines)) == lines
    decreases |lines|
  {
    if lines != [] {
      var first, rest := lines[0], lines[1..];
      assert AreLines(rest) by {
        forall k | 0 <= k < |rest| ensures IsLine(rest[k], k == |rest| - 1) { assert rest[k] == lines[k + 1]; }
      }
      SplitOfJoin(rest);
      assert IsLine(first, |lines| == 1);
      var s := first + Join(rest);
      FirstLineEnds(first, Join(rest), rest == []);
      assert s[..|first|] == first && s[|first|..] == Join(rest);
      assert lines == [first] + rest;
    }
  }

  lemma FirstLineEnds(first: string, rest: string, last: bool)
    requires IsLine(first, last) && (last ==> rest == "")
    ensures var s := first + rest;
            var i := Find(s, '\n');
            (if i < |s| then i + 1 else i) == |first|
  {
    var s := first + rest;
    var i := Find(s, '\n');
    assert forall k :: 0 <= k < |first| ==> s[k] == first[k];
    if first[|first| - 1] == '\n' {
      assert s[|first| - 1] == '\n';
      assert i >= |first| - 1;
    } else {
      assert s == first;
    }
  }

  lemma {:induction false} JoinAppends(a: seq<string>, b: seq<string>)
    ensures Join(a + b) == Join(a) + Join(b)
    decreases |a|
  {
    if a == [] {
      assert a + b == b;
    } else {
      assert (a + b)[0] == a[0] && (a + b)[1..] == a[1..] + b;
      JoinAppends(a[1..], b);
    }
  }

  lemma JoinUpdated(lines: seq<string>, i: nat, line: string)
    requires i < |lines|
    ensures Join(lines[i := line]) == Join(lines[..i]) + line + Join(lines[i + 1..])
  {
    var rest := lines[i + 1..];
    assert lines[i := line] == lines[..i] + ([line] + rest);
    JoinAppends(lines[..i], [line] + rest);
    assert ([line] + rest)[1..] == rest;
    Regroup(Join(lines[..i]), line, Join(rest));
  }

  lemma {:induction false} FindSkips(a: string, b: string, c: char)
    requires forall k :: 0 <= k < |a| ==> a[k] != c
    ensures Find(a + b, c) == |a| + Find(b, c)
    decreases |a|
  {
    if a == "" {
      assert a + b == b;
    } else {
      assert (a + b)[0] == a[0] && (a + b)[1..] == a[1..] + b;
      FindSkips(a[1..], b, c);
    }
  }
}

/** The canonical form of a version assignment. */
module Assignments {
  import opened Wrappers
  import opened Sequences
  import opened Text
  import opened Lines

  const SENTINEL := "\"<reference-package-version-ignored>\""

  /** The parts of `key = value # comment` with all its spacing. `head` ends with the equals sign. */
  datatype Assignment = Assignment(
    head: string, lead: string, value: string, trail: string, comment: string, cr: string, newline: string)
  {
    /** As the program writes it: the trailing part it keeps already has the comment, which it then
        writes once more. */
    function Canonical(): string {
      head + lead + SENTINEL + (trail + comment) + comment + cr + newline
    }

    /** The text of the line up to the value. */
    function Before(): string { head + lead }

    /** The text of the line behind the value. */
    function After(): string { trail + comment + cr + newline }
  }

  /** Two lines have the same text before and behind their values. */
  predicate SameOutsideTheValue(a: string, b: string)
    requires Find(Body(a), '=') < |Body(a)| && Find(Body(b), '=') < |Body(b)|
  {
    Parse(a).Before() == Parse(b).Before() && Parse(a).After() == Parse(b).After()
  }

  function StripNewline(line: string): string {
    if line != "" && line[|line| - 1] == '\n' then line[..|line| - 1] else line
  }

  function StripReturn(body: string): string {
    if body != "" && body[|body| - 1] == '\r' then body[..|body| - 1] else body
  }

  function Body(line: string): string { StripReturn(StripNewline(line)) }

  predicate BodyAssigns(body: string, key: string) {
    Find(body, '=') < |body| && Trim(body[..Find(body, '=')]) == key
  }

  predicate Assigns(line: string, key: string) { BodyAssigns(Body(line), key) }

  function RightSide(rhs: string, head: string, cr: string, newline: string): Assignment {
    var vs := TrimStart(rhs);
    var before := vs[..Find(vs, '#')];
    TrimStartSplits(rhs);
    TrimEndSplits(before);
    var value := TrimEnd(before);
    Assignment(head, rhs[..|rhs| - |vs|], value, before[|value|..], vs[Find(vs, '#')..], cr, newline)
  }

  function ParseBody(body: string, cr: string, newline: string): Assignment
    requires Find(body, '=') < |body|
  {
    var eq := Find(body, '=');
    RightSide(body[eq + 1..], body[..eq + 1], cr, newline)
  }

  function Parse(line: string): Assignment
    requires Find(Body(line), '=') < |Body(line)|
  {
    ParseBody(Body(line), Return(line), Newline(line))
  }

  lemma FourParts<T>(s: seq<T>, n: nat, t: seq<T>, i: nat, u: seq<T>, m: nat)
    requires n <= |s| && s[n..] == t && i <= |t| && t[..i] == u && m <= |u|
    ensures s[..n] + u[..m] + u[m..] + t[i..] == s
  {
    CutOnce(u, m);
    CutOnce(t, i);
    CutOnce(s, n);
    Regroup(s[..n], u[..m], u[m..]);
    Regroup(s[..n], u, t[i..]);
  }

  lemma TrimStartIsTheEnd(s: string)
    ensures |TrimStart(s)| <= |s| && s[|s| - |TrimStart(s)|..] == TrimStart(s)
  {
    TrimStartSplits(s);
  }

  lemma TrimEndIsTheStart(s: string)
    ensures |TrimEnd(s)| <= |s| && s[..|TrimEnd(s)|] == TrimEnd(s)
  {
    TrimEndSplits(s);
  }

  /** A right-hand side cut at three places is its parts. */
  lemma PartsOfRightSide(rhs: string, vs: string, i: nat, before: string, p: Assignment)
    requires |vs| <= |rhs| && rhs[|rhs| - |vs|..] == vs && i <= |vs| && before == vs[..i]
    requires |p.value| <= |before| && before[..|p.value|] == p.value
    requires p.lead == rhs[..|rhs| - |vs|] && p.trail == before[|p.value|..] && p.comment == vs[i..]
    ensures p.lead + p.value + p.trail + p.comment == rhs
  {
    FourParts(rhs, |rhs| - |vs|, vs, i, before, |p.value|);
  }

  lemma RightSideIsItsParts(rhs: string, head: string, cr: string, newline: string)
    ensures var p := RightSide(rhs, head, cr, newline);
            p.lead + p.value + p.trail + p.comment == rhs
  {
    var vs := TrimStart(rhs);
    var before := vs[..Find(vs, '#')];
    TrimStartIsTheEnd(rhs);
    TrimEndIsTheStart(before);
    PartsOfRightSide(rhs, vs, Find(vs, '#'), before, RightSide(rhs, head, cr, newline));
  }

  function Return(line: string): string { if StripNewline(line) == Body(line) then "" else "\r" }

  function Newline(line: string): string { if StripNewline(line) == line then "" else "\n" }

  lemma LineIsBodyAndEnding(line: string)
    ensures line == Body(line) + Return(line) + Newline(line)
  {}

  lemma LineRegroups(head: string, lead: string, value: string, trail: string, comment: string, cr: string,
                     newline: string)
    ensures head + lead + value + trail + comment + cr + newline ==
              head + (lead + value + trail + comment) + cr + newline
  {}

  lemma BodyIsItsParts(line: string)
    requires Find(Body(line), '=') < |Body(line)|
    ensures var p := Parse(line); Body(line) == p.head + (p.lead + p.value + p.trail + p.comment)
  {
    var eq := Find(Body(line), '=');
    RightSideIsItsParts(Body(line)[eq + 1..], Body(line)[..eq + 1], Return(line), Newline(line));
  }

  /** A line is the text before its value, the value, and the text behind it. */
  lemma PartsMakeTheLine(line: string)
    requires Find(Body(line), '=') < |Body(line)|
    ensures line == Parse(line).Before() + Parse(line).value + Parse(line).After()
  {
    var p := Parse(line);
    BodyIsItsParts(line);
    LineIsBodyAndEnding(line);
    LineRegroups(p.head, p.lead, p.value, p.trail, p.comment, p.cr, p.newline);
    ThreePieces(p.head, p.lead, p.value, p.trail, p.comment, p.cr, p.newline);
  }

  lemma ThreePieces(head: string, lead: string, value: string, trail: string, comment: string, cr: string,
                    newline: string)
    ensures (head + lead) + value + (trail + comment + cr + newline) ==
            head + (lead + value + trail + comment) + cr + newline
  {}

  /** What a right-hand side comes apart into, said of its parts. */
  predicate WellParsed(p: Assignment) {
    && Blank(p.lead) && Blank(p.trail)
    && (forall k :: 0 <= k < |p.trail| ==> p.trail[k] != '#')
    && (p.comment == "" || p.comment[0] == '#')
  }

  lemma ParsedParts(rhs: string, head: string, cr: string, newline: string)
    ensures WellParsed(RightSide(rhs, head, cr, newline))
  {
    LeadIsBlank(rhs, head, cr, newline);
    TrailIsBlank(rhs, head, cr, newline);
  }

  lemma LeadIsBlank(rhs: string, head: string, cr: string, newline: string)
    ensures Blank(RightSide(rhs, head, cr, newline).lead)
  {
    TrimStartSplits(rhs);
  }

  lemma TrailIsBlank(rhs: string, head: string, cr: string, newline: string)
    ensures var p := RightSide(rhs, head, cr, newline);
            && Blank(p.trail) && (forall k :: 0 <= k < |p.trail| ==> p.trail[k] != '#')
            && (p.comment == "" || p.comment[0] == '#')
  {
    var vs := TrimStart(rhs);
    var before := vs[..Find(vs, '#')];
    TrimEndSplits(before);
    SuffixLacks(before, |TrimEnd(before)|, '#');
  }

  lemma SuffixLacks(s: string, m: nat, c: char)
    requires m <= |s| && forall k :: 0 <= k < |s| ==> s[k] != c
    ensures forall k :: 0 <= k < |s[m..]| ==> s[m..][k] != c
  {}

  lemma SentinelIsPlain()
    ensures SENTINEL != "" && !IsWhiteSpace(SENTINEL[0]) && !IsWhiteSpace(SENTINEL[|SENTINEL| - 1])
    ensures SENTINEL[|SENTINEL| - 1] != '\r'
    ensures forall k :: 0 <= k < |SENTINEL| ==> SENTINEL[k] != '#' && SENTINEL[k] != '\n'
  {}

  /** What may stand behind the comment: nothing, or the comment once more. */
  predicate Again(p: Assignment, extra: string) { extra == "" || extra == p.comment }

  /** The right-hand side with the sentinel comes apart into the same parts around the sentinel. */
  lemma CanonicalRightSide(p: Assignment, extra: string)
    requires WellParsed(p) && Again(p, extra)
    ensures RightSide(p.lead + SENTINEL + (p.trail + p.comment) + extra, p.head, p.cr, p.newline) ==
            p.(value := SENTINEL, comment := p.comment + extra)
  {
    SentinelIsPlain();
    var comments := p.comment + extra;
    var before := SENTINEL + p.trail;
    var rhs := p.lead + SENTINEL + (p.trail + p.comment) + extra;
    SentinelRegroups(p.lead, p.trail, p.comment, extra);
    FrontOfSentinel(p.lead, before, comments);
    CommentIsFound(before, comments);
    TrimEndOfBlank(SENTINEL, p.trail);
    assert before[|SENTINEL|..] == p.trail;
  }

  lemma SentinelRegroups(lead: string, trail: string, comment: string, extra: string)
    ensures lead + SENTINEL + (trail + comment) + extra == lead + ((SENTINEL + trail) + (comment + extra))
  {}

  lemma FrontOfSentinel(lead: string, before: string, comments: string)
    requires Blank(lead) && before != "" && !IsWhiteSpace(before[0])
    ensures var rhs, vs := lead + (before + comments), before + comments;
            TrimStart(rhs) == vs && rhs[..|rhs| - |vs|] == lead
  {
    TrimStartOfBlank(lead, before + comments);
  }

  lemma CommentIsFound(before: string, comments: string)
    requires (forall k :: 0 <= k < |before| ==> before[k] != '#') && (comments == "" || comments[0] == '#')
    ensures var vs := before + comments;
            Find(vs, '#') == |before| && vs[..Find(vs, '#')] == before && vs[Find(vs, '#')..] == comments
  {
    FindSkips(before, comments, '#');
    assert Find(comments, '#') == 0;
  }

  /** The end of a canonical line is where the end of the line was. */
  lemma EndingsStay(line: string, body: string, p: Assignment)
    requires (forall k :: 0 <= k < |line| - 1 ==> line[k] != '\n') && p.cr == Return(line) && p.newline == Newline(line)
    requires body != "" && (forall k :: 0 <= k < |body| ==> body[k] != '\n')
             && (p.cr == "" ==> body[|body| - 1] != '\r')
    ensures var t := body + p.cr + p.newline;
            Body(t) == body && Return(t) == p.cr && Newline(t) == p.newline
  {
    var t := body + p.cr + p.newline;
    assert p.newline == "" ==> t == body + p.cr;
    assert StripNewline(t) == body + p.cr;
    assert p.cr == "" ==> body + p.cr == body;
  }

  predicate OneLine(line: string) {
    forall k :: 0 <= k < |line| - 1 ==> line[k] != '\n'
  }

  function CanonicalBody(p: Assignment, extra: string): string {
    p.head + (p.lead + SENTINEL + (p.trail + p.comment) + extra)
  }

  lemma CanonicalRegroups(p: Assignment)
    ensures p.Canonical() == CanonicalBody(p, p.comment) + p.cr + p.newline
    ensures p.Before() + SENTINEL + p.After() == CanonicalBody(p, "") + p.cr + p.newline
  {
    LineRegroups(p.head, p.lead, SENTINEL, p.trail + p.comment, p.comment, p.cr, p.newline);
    ThreePieces(p.head, p.lead, SENTINEL, p.trail, p.comment, p.cr, p.newline);
    SameRightSide(p.lead, SENTINEL, p.trail, p.comment);
  }

  lemma SameRightSide(lead: string, value: string, trail: string, comment: string)
    ensures lead + value + trail + comment == lead + value + (trail + comment) + ""
  {}

  lemma CanonicalBodyIsClean(p: Assignment, extra: string, body: string)
    requires body == p.head + (p.lead + p.value + p.trail + p.comment) && Again(p, extra)
    requires forall k :: 0 <= k < |body| ==> body[k] != '\n'
    ensures forall k :: 0 <= k < |CanonicalBody(p, extra)| ==> CanonicalBody(p, extra)[k] != '\n'
  {
    SentinelIsPlain();
    PartsAreClean(p.head, p.lead, p.value, p.trail, p.comment, body);
  }

  lemma PartsAreClean(head: string, lead: string, value: string, trail: string, comment: string, body: string)
    requires body == head + (lead + value + trail + comment) && forall k :: 0 <= k < |body| ==> body[k] != '\n'
    ensures forall k :: 0 <= k < |head| ==> head[k] != '\n'
    ensures forall k :: 0 <= k < |lead| ==> lead[k] != '\n'
    ensures forall k :: 0 <= k < |trail| ==> trail[k] != '\n'
    ensures forall k :: 0 <= k < |comment| ==> comment[k] != '\n'
  {
    forall k | 0 <= k < |head| ensures head[k] != '\n' { assert head[k] == body[k]; }
    forall k | 0 <= k < |lead| ensures lead[k] != '\n' { assert lead[k] == body[|head| + k]; }
    forall k | 0 <= k < |trail| ensures trail[k] != '\n' { assert trail[k] == body[|head| + |lead| + |value| + k]; }
    forall k | 0 <= k < |comment| ensures comment[k] != '\n' {
      assert comment[k] == body[|head| + |lead| + |value| + |trail| + k];
    }
  }

  lemma EndOfCanonicalBody(p: Assignment, extra: string, body: string)
    requires body == p.head + (p.lead + p.value + p.trail + p.comment) && Again(p, extra)
    ensures CanonicalBody(p, extra) != ""
    ensures (body != "" ==> body[|body| - 1] != '\r') ==>
              CanonicalBody(p, extra)[|CanonicalBody(p, extra)| - 1] != '\r'
  {
    SentinelIsPlain();
    var c := CanonicalBody(p, extra);
    if p.comment != "" {
      assert c[|c| - 1] == p.comment[|p.comment| - 1] == body[|body| - 1];
    } else if p.trail != "" {
      assert c[|c| - 1] == p.trail[|p.trail| - 1] == body[|body| - 1];
    } else {
      assert c[|c| - 1] == SENTINEL[|SENTINEL| - 1];
    }
  }

  lemma HeadStays(body: string, rest: string)
    requires Find(body, '=') < |body|
    ensures var eq := Find(body, '=');
            var t := body[..eq + 1] + rest;
            Find(t, '=') == eq && t[..eq] == body[..eq] && t[..eq + 1] == body[..eq + 1] && t[eq + 1..] == rest
  {
    var eq := Find(body, '=');
    assert body[..eq + 1] + rest == body[..eq] + (['='] + rest);
    FindSkips(body[..eq], ['='] + rest, '=');
  }

  lemma CanonicalBodyParses(body: string, key: string, cr: string, newline: string, extra: string)
    requires BodyAssigns(body, key) && Again(ParseBody(body, cr, newline), extra)
    ensures var p := ParseBody(body, cr, newline);
            && BodyAssigns(CanonicalBody(p, extra), key)
            && ParseBody(CanonicalBody(p, extra), cr, newline) == p.(value := SENTINEL, comment := p.comment + extra)
  {
    var p := ParseBody(body, cr, newline);
    HeadStays(body, p.lead + SENTINEL + (p.trail + p.comment) + extra);
    ParsedParts(body[Find(body, '=') + 1..], p.head, cr, newline);
    CanonicalRightSide(p, extra);
  }

  lemma CanonicalEndings(line: string, p: Assignment, extra: string)
    requires OneLine(line) && p.cr == Return(line) && p.newline == Newline(line) && Again(p, extra)
    requires Body(line) == p.head + (p.lead + p.value + p.trail + p.comment)
    ensures var t := CanonicalBody(p, extra) + p.cr + p.newline;
            Body(t) == CanonicalBody(p, extra) && Return(t) == p.cr && Newline(t) == p.newline && OneLine(t)
  {
    BodyIsClean(line);
    CanonicalBodyIsClean(p, extra, Body(line));
    EndOfCanonicalBody(p, extra, Body(line));
    EndingsStay(line, CanonicalBody(p, extra), p);
    CanonicalIsOneLine(CanonicalBody(p, extra), p.cr, p.newline);
  }

  lemma BodyIsClean(line: string)
    requires OneLine(line)
    ensures forall k :: 0 <= k < |Body(line)| ==> Body(line)[k] != '\n'
    ensures Return(line) == "" && Body(line) != "" ==> Body(line)[|Body(line)| - 1] != '\r'
    ensures Return(line) in {"", "\r"} && Newline(line) in {"", "\n"}
  {}

  lemma CanonicalIsOneLine(body: string, cr: string, newline: string)
    requires (forall k :: 0 <= k < |body| ==> body[k] != '\n') && cr in {"", "\r"} && newline in {"", "\n"}
    ensures OneLine(body + cr + newline)
  {}

  lemma SentinelLineParses(line: string, key: string, extra: string)
    requires OneLine(line) && Assigns(line, key) && Again(Parse(line), extra)
    ensures var p := Parse(line);
            var t := CanonicalBody(p, extra) + p.cr + p.newline;
            && OneLine(t) && Assigns(t, key) && Newline(t) == Newline(line)
            && Parse(t) == p.(value := SENTINEL, comment := p.comment + extra)
  {
    BodyIsItsParts(line);
    CanonicalEndings(line, Parse(line), extra);
    CanonicalBodyParses(Body(line), key, Return(line), Newline(line), extra);
  }

  /** The canonical line is an assignment of the same key with the same parts, the value replaced by
      the sentinel and the comment written twice. */
  lemma CanonicalLineParses(line: string, key: string)
    requires OneLine(line) && Assigns(line, key)
    ensures var p := Parse(line);
            && OneLine(p.Canonical()) && Assigns(p.Canonical(), key) && Newline(p.Canonical()) == Newline(line)
            && Parse(p.Canonical()) == p.(value := SENTINEL, comment := p.comment + p.comment)
  {
    CanonicalRegroups(Parse(line));
    SentinelLineParses(line, key, Parse(line).comment);
  }

  /** The line with the sentinel for its value has the same parts. */
  lemma ErasedLineParses(line: string, key: string)
    requires OneLine(line) && Assigns(line, key)
    ensures var t := Parse(line).Before() + SENTINEL + Parse(line).After();
            Assigns(t, key) && Parse(t) == Parse(line).(value := SENTINEL)
  {
    CanonicalRegroups(Parse(line));
    SentinelLineParses(line, key, "");
    assert Parse(line).comment + "" == Parse(line).comment;
  }

  /** Two lines have the same canonical form exactly if their texts differ in the value at most: then
      one is the other with its own value put in. */
  lemma CanonicalEqualExactly(a: string, b: string, key: string)
    requires OneLine(a) && OneLine(b) && Assigns(a, key) && Assigns(b, key)
    ensures Parse(a).Canonical() == Parse(b).Canonical() <==> SameOutsideTheValue(a, b)
    ensures SameOutsideTheValue(a, b) ==> b == Parse(a).Before() + Parse(b).value + Parse(a).After()
  {
    PartsMakeTheLine(b);
    if Parse(a).Canonical() == Parse(b).Canonical() {
      SamePartsIfCanonicalEqual(a, b, key);
    }
    if SameOutsideTheValue(a, b) {
      ErasedLineParses(a, key);
      ErasedLineParses(b, key);
      SameButForTheValue(Parse(a), Parse(b));
    }
  }

  lemma SameButForTheValue(p: Assignment, q: Assignment)
    requires p.(value := SENTINEL) == q.(value := SENTINEL)
    ensures p.(value := q.value) == q && p.Canonical() == q.Canonical()
  {}

  lemma SamePartsIfCanonicalEqual(a: string, b: string, key: string)
    requires OneLine(a) && OneLine(b) && Assigns(a, key) && Assigns(b, key)
    requires Parse(a).Canonical() == Parse(b).Canonical()
    ensures Parse(a).(value := Parse(b).value) == Parse(b)
  {
    CanonicalLineParses(a, key);
    CanonicalLineParses(b, key);
    Halves(Parse(a).comment, Parse(b).comment);
  }

  lemma Halves(a: string, b: string)
    requires a + a == b + b
    ensures a == b
  {
    assert |a + a| == |b + b|;
    assert (a + a)[..|a|] == a && (b + b)[..|b|] == b;
  }
}

/** The two rewriters, over any tests of lines: they rewrite one line and keep the rest. */
module LineRewriting {
  import opened Wrappers
  import opened Sequences
  import opened Lines

  /** What the rewriters ask about a line. `within` says whether a line is in the package section,
      given whether the line before was. */
  datatype Tests = Tests(
    within: (string, bool) -> bool,
    starts: string -> bool,
    names: string -> bool,
    sources: string -> bool,
    assigns: string -> bool,
    canonical: string -> string)

  lemma JoinFrom(lines: seq<string>, n: nat)
    requires n < |lines|
    ensures Join(lines[n..]) == lines[n] + Join(lines[n + 1..])
  {
    assert lines[n..][1..] == lines[n + 1..];
  }

  /** `after` is `lines` with line `i` made canonical. */
  predicate OneLineMadeCanonical(t: Tests, lines: seq<string>, after: seq<string>, i: nat) {
    && i < |lines| == |after| && after[i] == t.canonical(lines[i])
    && forall k :: 0 <= k < |lines| && k != i ==> after[k] == lines[k]
  }

  /** Making line `i` canonical changes no answer about it. */
  ghost predicate TestsUnmoved(t: Tests, x: string, y: string) {
    && (forall b :: t.within(y, b) == t.within(x, b)) && t.starts(y) == t.starts(x)
    && t.names(y) == t.names(x) && t.sources(y) == t.sources(x) && t.assigns(y) == t.assigns(x)
  }

  // ---- The manifest: the first assignment in the package section. ----

  function ManifestSite(t: Tests, lines: seq<string>, from: nat, inPackage: bool): (site: Option<nat>)
    requires from <= |lines|
    ensures site.Some? ==> from <= site.value < |lines| && t.assigns(lines[site.value])
    decreases |lines| - from
  {
    if from == |lines| then None
    else if t.within(lines[from], inPackage) && t.assigns(lines[from]) then Some(from)
    else ManifestSite(t, lines, from + 1, t.within(lines[from], inPackage))
  }

  lemma {:induction false} ManifestSiteStays(t: Tests, lines: seq<string>, after: seq<string>, from: nat,
                                             inPackage: bool, i: nat)
    requires OneLineMadeCanonical(t, lines, after, i) && TestsUnmoved(t, lines[i], after[i]) && from <= |lines|
    ensures ManifestSite(t, after, from, inPackage) == ManifestSite(t, lines, from, inPackage)
    decreases |lines| - from
  {
    if from < |lines| {
      ManifestSiteStays(t, lines, after, from + 1, t.within(lines[from], inPackage), i);
    }
  }

  /** The text from line `n` on, with the first site made canonical unless that is done. */
  function Rewritten(t: Tests, lines: seq<string>, n: nat, inPackage: bool, replaced: bool): string
    requires n <= |lines|
    decreases |lines| - n
  {
    if n == |lines| then ""
    else
      var within := t.within(lines[n], inPackage);
      var isSite := within && !replaced && t.assigns(lines[n]);
      (if isSite then t.canonical(lines[n]) else lines[n]) + Rewritten(t, lines, n + 1, within, replaced || isSite)
  }

  lemma {:induction false} RestIsKept(t: Tests, lines: seq<string>, n: nat, inPackage: bool)
    requires n <= |lines|
    ensures Rewritten(t, lines, n, inPackage, true) == Join(lines[n..])
    decreases |lines| - n
  {
    if n < |lines| {
      RestIsKept(t, lines, n + 1, t.within(lines[n], inPackage));
      JoinFrom(lines, n);
    }
  }

  lemma {:induction false} RewrittenAtTheSite(t: Tests, lines: seq<string>, after: seq<string>, n: nat,
                                              inPackage: bool, i: nat)
    requires n <= |lines| && ManifestSite(t, lines, n, inPackage) == Some(i) && OneLineMadeCanonical(t, lines, after, i)
    ensures Rewritten(t, lines, n, inPackage, false) == Join(after[n..])
    decreases |lines| - n
  {
    JoinFrom(after, n);
    if n < i {
      RewrittenAtTheSite(t, lines, after, n + 1, t.within(lines[n], inPackage), i);
    } else {
      RestIsKept(t, lines, n + 1, t.within(lines[n], inPackage));
      assert after[n + 1..] == lines[n + 1..];
    }
  }

  /** What writing line `n` does to what remains to be written. */
  lemma LineIsWritten(t: Tests, lines: seq<string>, n: nat, inPackage: bool, replaced: bool, output: string)
    requires n < |lines|
    ensures var within := t.within(lines[n], inPackage);
            var isSite := within && !replaced && t.assigns(lines[n]);
            var written := if isSite then t.canonical(lines[n]) else lines[n];
            output + Rewritten(t, lines, n, inPackage, replaced) ==
              (output + written) + Rewritten(t, lines, n + 1, within, replaced || isSite)
  {
    var within := t.within(lines[n], inPackage);
    var isSite := within && !replaced && t.assigns(lines[n]);
    var written := if isSite then t.canonical(lines[n]) else lines[n];
    Regroup(output, written, Rewritten(t, lines, n + 1, within, replaced || isSite));
  }

  /** Write the lines, the first site canonical. The manifest starts outside the section. */
  method RewriteFirst(t: Tests, lines: seq<string>, start: bool) returns (output: string, replaced: bool)
    ensures output == Rewritten(t, lines, 0, start, false)
    ensures replaced <==> ManifestSite(t, lines, 0, start).Some?
  {
    var inPackage := start;
    replaced := false;
    output := "";
    for n := 0 to |lines|
      invariant Rewritten(t, lines, 0, start, false) == output + Rewritten(t, lines, n, inPackage, replaced)
      invariant replaced ==> ManifestSite(t, lines, 0, start).Some?
      invariant !replaced ==> ManifestSite(t, lines, 0, start) == ManifestSite(t, lines, n, inPackage)
    {
      LineIsWritten(t, lines, n, inPackage, replaced, output);
      inPackage := t.within(lines[n], inPackage);
      if inPackage && !replaced && t.assigns(lines[n]) {
        output := output + t.canonical(lines[n]);
        replaced := true;
      } else {
        output := output + lines[n];
      }
    }
  }

  // ---- The lock file: blocks of lines. ----

  datatype LockError = NoVersion | WrongCount(found: nat)

  /** Inside a block every line is in the section. */
  function Inside(t: Tests): Tests {
    t.(within := (line: string, before: bool) => true)
  }

  /** The block names the root package and has no source. */
  predicate IsRootBlock(t: Tests, block: seq<string>) {
    && (exists k :: 0 <= k < |block| && t.names(block[k]))
    && (forall k :: 0 <= k < |block| ==> !t.sources(block[k]))
  }

  /** Where the block that is open at `k` ends. */
  function BlockEnd(t: Tests, lines: seq<string>, k: nat): (end: nat)
    requires k <= |lines|
    ensures k <= end <= |lines| && (end < |lines| ==> t.starts(lines[end]))
    ensures forall j :: k <= j < end ==> !t.starts(lines[j])
    decreases |lines| - k
  {
    if k == |lines| || t.starts(lines[k]) then k else BlockEnd(t, lines, k + 1)
  }

  function Shift(site: Option<nat>, offset: nat): Option<nat> {
    if site.Some? then Some(site.value + offset) else None
  }

  /** The version site of every root block from line `from` on. */
  function RootSites(t: Tests, lines: seq<string>, from: nat): seq<Option<nat>>
    requires from <= |lines|
    decreases |lines| - from
  {
    if from == |lines| then []
    else if !t.starts(lines[from]) then RootSites(t, lines, from + 1)
    else
      var end := BlockEnd(t, lines, from + 1);
      var block := lines[from..end];
      (if IsRootBlock(t, block) then [Shift(ManifestSite(Inside(t), block, 0, true), from)] else [])
      + RootSites(t, lines, end)
  }

  function BlockText(t: Tests, block: seq<string>): string {
    if IsRootBlock(t, block) then Rewritten(Inside(t), block, 0, true, false) else Join(block)
  }

  /** What is written for the lines from `from` on. */
  function LockText(t: Tests, lines: seq<string>, from: nat): string
    requires from <= |lines|
    decreases |lines| - from
  {
    if from == |lines| then ""
    else if !t.starts(lines[from]) then lines[from] + LockText(t, lines, from + 1)
    else
      var end := BlockEnd(t, lines, from + 1);
      BlockText(t, lines[from..end]) + LockText(t, lines, end)
  }

  /** There is exactly one root block and it has a version. */
  function LockSite(t: Tests, lines: seq<string>): Result<nat, LockError> {
    var sites := RootSites(t, lines, 0);
    if None in sites then Err(NoVersion)
    else if |sites| != 1 then Err(WrongCount(|sites|))
    else assert sites[0] in sites; Ok(sites[0].value)
  }

  lemma {:induction false} SitesComeLater(t: Tests, lines: seq<string>, from: nat)
    requires from <= |lines|
    ensures forall s :: s in RootSites(t, lines, from) && s.Some? ==>
              from <= s.value < |lines| && t.assigns(lines[s.value])
    decreases |lines| - from
  {
    if from < |lines| {
      if !t.starts(lines[from]) {
        SitesComeLater(t, lines, from + 1);
      } else {
        var end := BlockEnd(t, lines, from + 1);
        SitesComeLater(t, lines, end);
        var site := ManifestSite(Inside(t), lines[from..end], 0, true);
        assert site.Some? ==> lines[from..end][site.value] == lines[from + site.value];
      }
    }
  }

  lemma AcceptedLocksHaveOneSite(t: Tests, lines: seq<string>, i: nat)
    requires LockSite(t, lines) == Ok(i)
    ensures RootSites(t, lines, 0) == [Some(i)] && i < |lines| && t.assigns(lines[i])
  {
    var sites := RootSites(t, lines, 0);
    SitesComeLater(t, lines, 0);
    assert sites[0] in sites;
    assert sites == [Some(i)];
  }

  lemma {:induction false} JoinSlices(lines: seq<string>, a: nat, b: nat)
    requires a <= b <= |lines|
    ensures Join(lines[a..]) == Join(lines[a..b]) + Join(lines[b..])
  {
    assert lines[a..] == lines[a..b] + lines[b..];
    JoinAppends(lines[a..b], lines[b..]);
  }

  /** With no root block everything is kept: splitting into blocks loses and reorders nothing. */
  lemma {:induction false} LockTextKeepsOthers(t: Tests, lines: seq<string>, from: nat)
    requires from <= |lines| && RootSites(t, lines, from) == []
    ensures LockText(t, lines, from) == Join(lines[from..])
    decreases |lines| - from
  {
    if from < |lines| {
      if !t.starts(lines[from]) {
        LockTextKeepsOthers(t, lines, from + 1);
        JoinFrom(lines, from);
      } else {
        var end := BlockEnd(t, lines, from + 1);
        LockTextKeepsOthers(t, lines, end);
        JoinSlices(lines, from, end);
      }
    }
  }

  lemma RootSitesUnfold(t: Tests, lines: seq<string>, from: nat)
    requires from < |lines| && t.starts(lines[from])
    ensures var end := BlockEnd(t, lines, from + 1);
            && RootSites(t, lines, from) ==
               (if IsRootBlock(t, lines[from..end])
                then [Shift(ManifestSite(Inside(t), lines[from..end], 0, true), from)] else [])
               + RootSites(t, lines, end)
            && (!IsRootBlock(t, lines[from..end]) ==> RootSites(t, lines, from) == RootSites(t, lines, end))
            && LockText(t, lines, from) == BlockText(t, lines[from..end]) + LockText(t, lines, end)
  {}

  lemma RootSitesSkip(t: Tests, lines: seq<string>, from: nat)
    requires from < |lines| && !t.starts(lines[from])
    ensures RootSites(t, lines, from) == RootSites(t, lines, from + 1)
  {}

  lemma OnlyOne<T>(x: T, rest: seq<T>, y: T)
    requires [x] + rest == [y]
    ensures x == y && rest == []
  {
    assert ([x] + rest)[0] == x && |[x] + rest| == 1;
  }

  lemma {:induction false} LockTextAtTheSite(t: Tests, lines: seq<string>, after: seq<string>, from: nat, i: nat)
    requires from <= |lines| && RootSites(t, lines, from) == [Some(i)] && OneLineMadeCanonical(t, lines, after, i)
    ensures LockText(t, lines, from) == Join(after[from..])
    decreases |lines| - from
  {
    if !t.starts(lines[from]) {
      assert Some(i) in RootSites(t, lines, from + 1);
      SitesComeLater(t, lines, from + 1);
      LockTextAtTheSite(t, lines, after, from + 1, i);
      JoinFrom(after, from);
    } else {
      var end := BlockEnd(t, lines, from + 1);
      RootSitesUnfold(t, lines, from);
      if IsRootBlock(t, lines[from..end]) {
        OnlyOne(Shift(ManifestSite(Inside(t), lines[from..end], 0, true), from), RootSites(t, lines, end), Some(i));
        LockTextOfRootBlock(t, lines, after, from, end, i);
      } else {
        LockTextAtTheSite(t, lines, after, end, i);
        LockTextOfOtherBlock(t, lines, after, from, end, i);
      }
    }
  }

  lemma LockTextOfRootBlock(t: Tests, lines: seq<string>, after: seq<string>, from: nat, end: nat, i: nat)
    requires from < end <= |lines| && OneLineMadeCanonical(t, lines, after, i) && IsRootBlock(t, lines[from..end])
    requires Shift(ManifestSite(Inside(t), lines[from..end], 0, true), from) == Some(i)
             && RootSites(t, lines, end) == []
    ensures BlockText(t, lines[from..end]) + LockText(t, lines, end) == Join(after[from..])
  {
    RootBlockAtTheSite(t, lines, after, from, end, i);
    LockTextKeepsOthers(t, lines, end);
    assert after[end..] == lines[end..];
    JoinSlices(after, from, end);
  }

  lemma LockTextOfOtherBlock(t: Tests, lines: seq<string>, after: seq<string>, from: nat, end: nat, i: nat)
    requires from < end <= |lines| && OneLineMadeCanonical(t, lines, after, i) && !IsRootBlock(t, lines[from..end])
    requires RootSites(t, lines, end) == [Some(i)] && LockText(t, lines, end) == Join(after[end..])
    ensures BlockText(t, lines[from..end]) + LockText(t, lines, end) == Join(after[from..])
  {
    assert Some(i) in RootSites(t, lines, end);
    SitesComeLater(t, lines, end);
    assert after[from..end] == lines[from..end];
    JoinSlices(after, from, end);
  }

  lemma RootBlockAtTheSite(t: Tests, lines: seq<string>, after: seq<string>, from: nat, end: nat, i: nat)
    requires from < end <= |lines| && OneLineMadeCanonical(t, lines, after, i)
    requires Shift(ManifestSite(Inside(t), lines[from..end], 0, true), from) == Some(i)
    ensures from <= i < end && Rewritten(Inside(t), lines[from..end], 0, true, false) == Join(after[from..end])
  {
    RewrittenAtTheSite(Inside(t), lines[from..end], after[from..end], 0, true, i - from);
    assert after[from..end][0..] == after[from..end];
  }

  // ---- Canonical blocks are the same blocks. ----

  lemma {:induction false} BlockEndStays(t: Tests, lines: seq<string>, after: seq<string>, k: nat, i: nat)
    requires OneLineMadeCanonical(t, lines, after, i) && TestsUnmoved(t, lines[i], after[i]) && k <= |lines|
    ensures BlockEnd(t, after, k) == BlockEnd(t, lines, k)
    decreases |lines| - k
  {
    if k < |lines| && !t.starts(lines[k]) {
      BlockEndStays(t, lines, after, k + 1, i);
    }
  }

  lemma BlockStaysRoot(t: Tests, lines: seq<string>, after: seq<string>, from: nat, end: nat, i: nat)
    requires OneLineMadeCanonical(t, lines, after, i) && TestsUnmoved(t, lines[i], after[i]) && from <= end <= |lines|
    ensures IsRootBlock(t, after[from..end]) == IsRootBlock(t, lines[from..end])
    ensures ManifestSite(Inside(t), after[from..end], 0, true) == ManifestSite(Inside(t), lines[from..end], 0, true)
  {
    var a, b := lines[from..end], after[from..end];
    forall k | 0 <= k < |a| ensures t.names(b[k]) == t.names(a[k]) && t.sources(b[k]) == t.sources(a[k]) {
      assert a[k] == lines[from + k] && b[k] == after[from + k];
    }
    if from <= i < end {
      ManifestSiteStays(Inside(t), a, b, 0, true, i - from);
    } else {
      assert a == b;
    }
  }

  lemma {:induction false} RootSitesStay(t: Tests, lines: seq<string>, after: seq<string>, from: nat, i: nat)
    requires OneLineMadeCanonical(t, lines, after, i) && TestsUnmoved(t, lines[i], after[i]) && from <= |lines|
    ensures RootSites(t, after, from) == RootSites(t, lines, from)
    decreases |lines| - from
  {
    if from < |lines| {
      if !t.starts(lines[from]) {
        RootSitesStay(t, lines, after, from + 1, i);
      } else {
        var end := BlockEnd(t, lines, from + 1);
        BlockEndStays(t, lines, after, from + 1, i);
        BlockStaysRoot(t, lines, after, from, end, i);
        RootSitesStay(t, lines, after, end, i);
        RootSitesUnfold(t, lines, from);
        RootSitesUnfold(t, after, from);
      }
    }
  }

  lemma LockSiteUnmoved(t: Tests, lines: seq<string>, after: seq<string>, i: nat)
    requires OneLineMadeCanonical(t, lines, after, i) && TestsUnmoved(t, lines[i], after[i])
    ensures LockSite(t, after) == LockSite(t, lines)
  {
    RootSitesStay(t, lines, after, 0, i);
  }

  // ---- The rewriting loop. ----

  lemma BlockSplitsBack(lines: seq<string>, a: nat, b: nat)
    requires AreLines(lines) && a <= b <= |lines|
    ensures SplitInclusive(Join(lines[a..b])) == lines[a..b]
  {
    forall k | 0 <= k < b - a ensures IsLine(lines[a..b][k], k == b - a - 1) {
      assert IsLine(lines[a + k], a + k == |lines| - 1);
    }
    SplitOfJoin(lines[a..b]);
  }

  /** Write one block out. `Ok(true)` counts a replacement. */
  method FlushPackage(t: Tests, block: string) returns (text: string, r: Result<bool, LockError>)
    ensures r == FlushOutcome(t, SplitInclusive(block))
    ensures r.Ok? ==> text == BlockText(t, SplitInclusive(block))
  {
    var lines := SplitInclusive(block);
    SplitLosesNothing(block);
    var named := exists k :: 0 <= k < |lines| && t.names(lines[k]);
    var sourced := exists k :: 0 <= k < |lines| && t.sources(lines[k]);
    if !(named && !sourced) {
      return block, Ok(false);
    }
    var replaced;
    text, replaced := RewriteFirst(Inside(t), lines, true);
    r := if replaced then Ok(true) else Err(NoVersion);
  }

  /** What is known between two lines of the lock loop: `done` are the sites of the blocks written,
      and `open` is where the block that is being collected starts. */
  ghost predicate LockProgress(t: Tests, lines: seq<string>, n: nat, output: string, block: string,
                               inPackage: bool, start: nat, done: seq<Option<nat>>) {
    && start <= n <= |lines|
    && (if inPackage
        then
          && start < n && t.starts(lines[start]) && block == Join(lines[start..n])
          && (forall k :: start < k < n ==> !t.starts(lines[k]))
        else start == n && block == "")
    && LockText(t, lines, 0) == output + LockText(t, lines, start)
    && RootSites(t, lines, 0) == done + RootSites(t, lines, start)
    && None !in done
  }

  lemma {:induction false} BlockEndIs(t: Tests, lines: seq<string>, k: nat, n: nat)
    requires k <= n <= |lines| && (forall j :: k <= j < n ==> !t.starts(lines[j]))
             && (n < |lines| ==> t.starts(lines[n]))
    ensures BlockEnd(t, lines, k) == n
    decreases n - k
  {
    if k < n {
      BlockEndIs(t, lines, k + 1, n);
    }
  }

  function FlushOutcome(t: Tests, block: seq<string>): Result<bool, LockError> {
    if !IsRootBlock(t, block) then Ok(false)
    else if ManifestSite(Inside(t), block, 0, true).Some? then Ok(true)
    else Err(NoVersion)
  }

  /** Writing out the collected block moves the front to where it ends. */
  lemma FlushAdvances(t: Tests, lines: seq<string>, start: nat, n: nat, output: string, done: seq<Option<nat>>)
    returns (more: seq<Option<nat>>)
    requires start < n <= |lines| && t.starts(lines[start]) && BlockEnd(t, lines, start + 1) == n && None !in done
    requires LockText(t, lines, 0) == output + LockText(t, lines, start)
    requires RootSites(t, lines, 0) == done + RootSites(t, lines, start)
    ensures var r := FlushOutcome(t, lines[start..n]);
            && (r.Err? ==> None in RootSites(t, lines, 0))
            && (r.Ok? ==> |more| == (if r.value then 1 else 0) && None !in done + more)
    ensures LockText(t, lines, 0) == (output + BlockText(t, lines[start..n])) + LockText(t, lines, n)
    ensures RootSites(t, lines, 0) == (done + more) + RootSites(t, lines, n)
  {
    RootSitesUnfold(t, lines, start);
    var block := lines[start..n];
    more := if IsRootBlock(t, block) then [Shift(ManifestSite(Inside(t), block, 0, true), start)] else [];
    Regroup(done, more, RootSites(t, lines, n));
    Regroup(output, BlockText(t, block), LockText(t, lines, n));
    if FlushOutcome(t, block).Err? {
      assert more[0] == None && (done + more)[|done|] == None;
      assert RootSites(t, lines, 0)[|done|] == None;
    }
  }

  lemma PlainLineAdvances(t: Tests, lines: seq<string>, n: nat, output: string, done: seq<Option<nat>>)
    requires n < |lines| && !t.starts(lines[n]) && LockProgress(t, lines, n, output, "", false, n, done)
    ensures LockProgress(t, lines, n + 1, output + lines[n], "", false, n + 1, done)
  {
    Regroup(output, lines[n], LockText(t, lines, n + 1));
  }

  lemma BlockLineAdvances(t: Tests, lines: seq<string>, n: nat, output: string, block: string, start: nat,
                          done: seq<Option<nat>>)
    requires n < |lines| && !t.starts(lines[n]) && LockProgress(t, lines, n, output, block, true, start, done)
    ensures LockProgress(t, lines, n + 1, output, block + lines[n], true, start, done)
  {
    hide LockText, RootSites, Join;
    JoinOne(lines[start..n], lines[n]);
    assert lines[start..n + 1] == lines[start..n] + [lines[n]];
  }

  lemma BlockOpens(t: Tests, lines: seq<string>, n: nat, output: string, done: seq<Option<nat>>)
    requires n < |lines| && t.starts(lines[n]) && LockProgress(t, lines, n, output, "", false, n, done)
    ensures LockProgress(t, lines, n + 1, output, lines[n], true, n, done)
  {
    hide LockText, RootSites, Join;
    JoinOfOne(lines, n);
  }

  lemma JoinOfOne(lines: seq<string>, n: nat)
    requires n < |lines|
    ensures Join(lines[n..n + 1]) == lines[n]
  {
    JoinOne([], lines[n]);
    assert lines[n..n + 1] == [] + [lines[n]] && Join([]) + lines[n] == lines[n];
  }

  /** Write out the block that ends at line `n`. */
  method FlushInto(t: Tests, lines: seq<string>, n: nat, output: string, block: string, replacements: nat,
                   ghost start: nat, ghost done: seq<Option<nat>>)
    returns (ok: bool, written: string, count: nat, ghost after: seq<Option<nat>>)
    requires AreLines(lines) && LockProgress(t, lines, n, output, block, true, start, done) && |done| == replacements
    requires n < |lines| ==> t.starts(lines[n])
    ensures !ok ==> None in RootSites(t, lines, 0)
    ensures ok ==> LockProgress(t, lines, n, written, "", false, n, after) && |after| == count
  {
    hide LockText, RootSites, Join, BlockEnd;
    BlockEndIs(t, lines, start + 1, n);
    BlockSplitsBack(lines, start, n);
    var text, flushed := FlushPackage(t, block);
    ghost var more := FlushAdvances(t, lines, start, n, output, done);
    after := done + more;
    ok, written := flushed.Ok?, output + text;
    count := replacements + if flushed == Ok(true) then 1 else 0;
  }

  lemma NothingIsLeft(t: Tests, lines: seq<string>, output: string, done: seq<Option<nat>>)
    requires LockProgress(t, lines, |lines|, output, "", false, |lines|, done)
    ensures RootSites(t, lines, 0) == done && LockText(t, lines, 0) == output && None !in done
  {}

  method RewriteLock(t: Tests, lines: seq<string>) returns (r: Result<string, LockError>)
    requires AreLines(lines)
    ensures LockSite(t, lines).Ok? ==> r == Ok(LockText(t, lines, 0))
    ensures LockSite(t, lines).Err? ==> r == Err(LockSite(t, lines).error)
  {
    hide LockText, RootSites, Join;
    var output, block := "", "";
    var inPackage := false;
    var replacements: nat := 0;
    ghost var start: nat := 0;
    ghost var done: seq<Option<nat>> := [];
    for n := 0 to |lines|
      invariant LockProgress(t, lines, n, output, block, inPackage, start, done) && |done| == replacements
    {
      var line := lines[n];
      if t.starts(line) {
        if inPackage {
          var ok;
          ok, output, replacements, done := FlushInto(t, lines, n, output, block, replacements, start, done);
          if !ok {
            return Err(NoVersion);
          }
          block := "";
        }
        BlockOpens(t, lines, n, output, done);
        inPackage, start, block := true, n, line;
      } else if inPackage {
        BlockLineAdvances(t, lines, n, output, block, start, done);
        block := block + line;
      } else {
        PlainLineAdvances(t, lines, n, output, done);
        output, start := output + line, n + 1;
      }
    }
    if inPackage {
      var ok;
      ok, output, replacements, done := FlushInto(t, lines, |lines|, output, block, replacements, start, done);
      if !ok {
        return Err(NoVersion);
      }
    }
    NothingIsLeft(t, lines, output, done);
    r := if replacements != 1 then Err(WrongCount(replacements)) else Ok(output);
  }

  lemma JoinOne(lines: seq<string>, line: string)
    ensures Join(lines + [line]) == Join(lines) + line
  {
    JoinAppends(lines, [line]);
    assert Join([line]) == line + Join([line][1..]) == line;
  }
}

/** Canonical source-lock text: the root package version is erased, everything else stays. */
module SourceLock {
  import opened Wrappers
  import opened Text
  import opened Lines
  import opened Assignments
  import opened LineRewriting
  import opened SourceSites

  function Replaced(lines: seq<string>, i: nat): seq<string>
    requires i < |lines| && Assigns(lines[i], VERSION)
  {
    lines[i := Canonical(lines[i])]
  }

  lemma CanonicalLines(lines: seq<string>, i: nat)
    requires AreLines(lines) && i < |lines| && Assigns(lines[i], VERSION)
    ensures AreLines(Replaced(lines, i)) && Assigns(Canonical(lines[i]), VERSION)
  {
    assert IsLine(lines[i], i == |lines| - 1);
    CanonicalLineParses(lines[i], VERSION);
    CanonicalIsALine(lines[i], Canonical(lines[i]), i == |lines| - 1);
    forall k | 0 <= k < |lines| ensures IsLine(Replaced(lines, i)[k], k == |lines| - 1) {
      assert IsLine(lines[k], k == |lines| - 1);
    }
  }

  lemma CanonicalIsALine(line: string, canonical: string, last: bool)
    requires IsLine(line, last) && OneLine(canonical) && Newline(canonical) == Newline(line)
             && Assigns(canonical, VERSION)
    ensures IsLine(canonical, last)
  {}

  // ---- Equality of canonical texts. ----

  /** Two texts agree in everything but the value on one line. */
  predicate SameOutsideTheVersion(a: seq<string>, i: nat, b: seq<string>, j: nat)
    requires i < |a| && j < |b| && Assigns(a[i], VERSION) && Assigns(b[j], VERSION)
  {
    && i == j && |a| == |b| && (forall k :: 0 <= k < |a| && k != i ==> a[k] == b[k])
    && SameOutsideTheValue(a[i], b[j])
  }

  lemma UpdatesEqualExactly<T>(a: seq<T>, i: nat, x: T, b: seq<T>, j: nat, y: T)
    requires i < |a| && j < |b|
    ensures i == j && a[i := x] == b[j := y] <==>
            i == j && |a| == |b| && x == y && forall k :: 0 <= k < |a| && k != i ==> a[k] == b[k]
  {
    var s, t := a[i := x], b[j := y];
    if i == j && s == t {
      assert s[i] == t[i] && |s| == |t|;
      forall k | 0 <= k < |a| && k != i ensures a[k] == b[k] { assert s[k] == t[k]; }
    }
  }

  lemma LinesEqualExactly(a: seq<string>, i: nat, b: seq<string>, j: nat)
    requires AreLines(a) && AreLines(b) && i < |a| && j < |b| && Assigns(a[i], VERSION) && Assigns(b[j], VERSION)
    requires Replaced(a, i) == Replaced(b, j) ==> i == j
    ensures Join(Replaced(a, i)) == Join(Replaced(b, j)) <==> SameOutsideTheVersion(a, i, b, j)
  {
    CanonicalLines(a, i);
    CanonicalLines(b, j);
    SplitOfJoin(Replaced(a, i));
    SplitOfJoin(Replaced(b, j));
    assert IsLine(a[i], i == |a| - 1) && IsLine(b[j], j == |b| - 1);
    UpdatesEqualExactly(a, i, Canonical(a[i]), b, j, Canonical(b[j]));
    CanonicalEqualExactly(a[i], b[j], VERSION);
  }

  // ---- The two files. ----

  lemma CanonicalMovesNoTest(lines: seq<string>, i: nat)
    requires AreLines(lines) && i < |lines| && Assigns(lines[i], VERSION)
    ensures OneLineMadeCanonical(SourceTests(), lines, Replaced(lines, i), i)
    ensures TestsUnmoved(SourceTests(), lines[i], Replaced(lines, i)[i])
  {
    CanonicalLines(lines, i);
    forall b ensures Within(Canonical(lines[i]), b) == Within(lines[i], b) {
      VersionLinesAreNothingElse(lines[i], b);
      VersionLinesAreNothingElse(Canonical(lines[i]), b);
    }
    VersionLinesAreNothingElse(lines[i], true);
    VersionLinesAreNothingElse(Canonical(lines[i]), true);
  }

  /** Where the version stands in the lines of a manifest or a lock file, if the file is accepted. */
  function SiteIn(lock: bool, lines: seq<string>): Result<nat, LockError> {
    if lock then LockSite(SourceTests(), lines)
    else
      var site := ManifestSite(SourceTests(), lines, 0, false);
      if site.None? then Err(NoVersion) else Ok(site.value)
  }

  function Site(lock: bool, text: string): Result<nat, LockError> { SiteIn(lock, SplitInclusive(text)) }

  lemma SitesAreVersionLines(lock: bool, lines: seq<string>, i: nat)
    requires SiteIn(lock, lines) == Ok(i)
    ensures i < |lines| && Assigns(lines[i], VERSION)
    ensures lock ==> RootSites(SourceTests(), lines, 0) == [Some(i)]
  {
    if lock {
      AcceptedLocksHaveOneSite(SourceTests(), lines, i);
    }
  }

  /** The bytes that take part in the hash, as text. */
  function CanonicalText(lock: bool, text: string): Result<string, LockError> {
    if Site(lock, text).Err? then Err(Site(lock, text).error)
    else
      SitesAreVersionLines(lock, SplitInclusive(text), Site(lock, text).value);
      Ok(Join(Replaced(SplitInclusive(text), Site(lock, text).value)))
  }

  /** Two accepted files agree in everything but the value of the root package version. */
  predicate AgreeOutsideTheVersion(lock: bool, a: string, b: string)
    requires Site(lock, a).Ok? && Site(lock, b).Ok?
  {
    var la, lb, i, j := SplitInclusive(a), SplitInclusive(b), Site(lock, a).value, Site(lock, b).value;
    SitesAreVersionLines(lock, la, i);
    SitesAreVersionLines(lock, lb, j);
    SameOutsideTheVersion(la, i, lb, j)
  }

  /** A canonical file has its version where the file had it. */
  lemma {:induction false} SiteStays(lock: bool, lines: seq<string>, i: nat)
    requires AreLines(lines) && i < |lines| && Assigns(lines[i], VERSION)
    ensures SiteIn(lock, Replaced(lines, i)) == SiteIn(lock, lines)
  {
    CanonicalMovesNoTest(lines, i);
    if lock {
      LockSiteUnmoved(SourceTests(), lines, Replaced(lines, i), i);
    } else {
      ManifestSiteStays(SourceTests(), lines, Replaced(lines, i), 0, false, i);
    }
  }

  lemma {:induction false} AcceptedLinesEqualExactly(lock: bool, a: seq<string>, i: nat, b: seq<string>, j: nat)
    requires AreLines(a) && AreLines(b) && i < |a| && j < |b| && Assigns(a[i], VERSION) && Assigns(b[j], VERSION)
    requires SiteIn(lock, a) == Ok(i) && SiteIn(lock, b) == Ok(j)
    ensures Join(Replaced(a, i)) == Join(Replaced(b, j)) <==> SameOutsideTheVersion(a, i, b, j)
  {
    SiteStays(lock, a, i);
    SiteStays(lock, b, j);
    LinesEqualExactly(a, i, b, j);
  }

  /** Two accepted files of one kind have the same canonical text exactly if they agree everywhere
      outside the one root package version value. */
  lemma {:induction false} CanonicalTextsEqualExactly(lock: bool, a: string, b: string)
    requires Site(lock, a).Ok? && Site(lock, b).Ok?
    ensures CanonicalText(lock, a) == CanonicalText(lock, b) <==> AgreeOutsideTheVersion(lock, a, b)
  {
    var la, lb, i, j := SplitInclusive(a), SplitInclusive(b), Site(lock, a).value, Site(lock, b).value;
    SitesAreVersionLines(lock, la, i);
    SitesAreVersionLines(lock, lb, j);
    SplitLosesNothing(a);
    SplitLosesNothing(b);
    AcceptedLinesEqualExactly(lock, la, i, lb, j);
  }

  // ---- The same, by the letters on the lines. ----

  /** The text with the value of the version on line `i` replaced. */
  function Erased(lines: seq<string>, i: nat): string
    requires i < |lines| && AssignsVersion(lines[i])
  {
    VersionIsAssigned(lines[i]);
    Join(lines[..i]) + Canonical(lines[i]) + Join(lines[i + 1..])
  }

  lemma ErasedIsReplaced(lines: seq<string>, i: nat)
    requires i < |lines| && AssignsVersion(lines[i])
    ensures Assigns(lines[i], VERSION) && Erased(lines, i) == Join(Replaced(lines, i))
  {
    VersionIsAssigned(lines[i]);
    JoinUpdated(lines, i, Canonical(lines[i]));
  }

  lemma ManifestSiteIsRead(lines: seq<string>)
    ensures forall i: nat :: FirstPackageVersion(lines, i) ==> SiteIn(false, lines) == Ok(i)
    ensures NoPackageVersion(lines) ==> SiteIn(false, lines) == Err(NoVersion)
  {
    hide IsPackageVersion;
    assert !InPackageTable(lines, 0);
    assert forall k: nat :: k < 0 ==> !IsPackageVersion(lines, k);
    ManifestSiteIsFirst(lines, 0);
    forall i: nat | FirstPackageVersion(lines, i) ensures SiteIn(false, lines) == Ok(i) {
      var site := ManifestSite(SourceTests(), lines, 0, false);
      assert site.value <= i <= site.value;
    }
  }

  lemma CanonicalManifest(text: string)
    ensures var lines := SplitInclusive(text);
            && (forall i: nat :: FirstPackageVersion(lines, i) ==> CanonicalText(false, text) == Ok(Erased(lines, i)))
            && (NoPackageVersion(lines) ==> CanonicalText(false, text) == Err(NoVersion))
  {
    hide Canonical, AssignsVersion, InPackageTable, IsPackageVersion, SiteIn, CanonicalText, Erased;
    var lines := SplitInclusive(text);
    ManifestSiteIsRead(lines);
    hide NoPackageVersion;
    forall i: nat | FirstPackageVersion(lines, i)
      ensures i < |lines| && AssignsVersion(lines[i]) && CanonicalText(false, text) == Ok(Erased(lines, i))
    {
      FirstIsAVersion(lines, i);
      ErasedAtTheSite(false, text, i);
    }
    if SiteIn(false, lines) == Err(NoVersion) {
      RejectedAtTheSite(false, text);
    }
  }

  lemma FirstIsAVersion(lines: seq<string>, i: nat)
    requires FirstPackageVersion(lines, i)
    ensures i < |lines| && AssignsVersion(lines[i])
  {}

  lemma ErasedAtTheSite(lock: bool, text: string, i: nat)
    requires SiteIn(lock, SplitInclusive(text)) == Ok(i)
    requires i < |SplitInclusive(text)| && AssignsVersion(SplitInclusive(text)[i])
    ensures CanonicalText(lock, text) == Ok(Erased(SplitInclusive(text), i))
  {
    ErasedIsReplaced(SplitInclusive(text), i);
  }

  lemma RejectedAtTheSite(lock: bool, text: string)
    requires SiteIn(lock, SplitInclusive(text)).Err?
    ensures CanonicalText(lock, text) == Err(SiteIn(lock, SplitInclusive(text)).error)
  {}

  lemma FirstInTable(lines: seq<string>, n: nat, i: nat)
    requires n < i < |lines| && OpensPackageTable(lines[n]) && !AssignsVersion(lines[n]) && AssignsVersion(lines[i])
    requires forall k :: 0 <= k < n ==> !OpensPackageTable(lines[k])
    requires forall k :: n < k < i ==> !Bracketed(lines[k]) && !AssignsVersion(lines[k])
    ensures FirstPackageVersion(lines, i)
  {
    hide OpensPackageTable, Bracketed, AssignsVersion;
  }

  lemma PackageLinesAssignNoVersion(line: string)
    requires OpensPackageTable(line)
    ensures !AssignsVersion(line)
  {
    TestsRead(line);
    PackageLinesAreBracketed(line);
    if Assigns(line, VERSION) {
      VersionLinesAreNothingElse(line, true);
      VersionLinesAreNothingElse(line, false);
    }
  }

  lemma FiveParts<T>(a: seq<T>, h: T, b: seq<T>, v: T, c: seq<T>)
    ensures var s := a + [h] + b + [v] + c; var i := |a| + 1 + |b|;
            && |s| == i + 1 + |c| && s[|a|] == h && s[i] == v && s[..i] == a + [h] + b && s[i + 1..] == c
            && (forall k :: 0 <= k < |a| ==> s[k] == a[k]) && (forall k :: |a| < k < i ==> s[k] == b[k - |a| - 1])
  {}

  /** The version that comes first in the package table is replaced and nothing else; whatever stands before
      the table and behind the version does not matter. */
  lemma PackageVersionIsErased(front: seq<string>, h: string, inside: seq<string>, v: string, rest: seq<string>)
    requires AreLines(front + [h] + inside + [v] + rest)
    requires OpensPackageTable(h) && AssignsVersion(v)
    requires forall k :: 0 <= k < |front| ==> !OpensPackageTable(front[k])
    requires forall k :: 0 <= k < |inside| ==> !Bracketed(inside[k]) && !AssignsVersion(inside[k])
    ensures Assigns(v, VERSION)
    ensures CanonicalText(false, Join(front + [h] + inside + [v] + rest)) ==
            Ok(Join(front + [h] + inside) + Canonical(v) + Join(rest))
  {
    hide OpensPackageTable, Bracketed, AssignsVersion, Canonical, CanonicalText, Join, AreLines, Assigns,
      FirstPackageVersion, IsPackageVersion, SplitInclusive;
    var lines, i := front + [h] + inside + [v] + rest, |front| + 1 + |inside|;
    FiveParts(front, h, inside, v, rest);
    VersionIsAssigned(v);
    PackageLinesAssignNoVersion(h);
    SplitOfJoin(lines);
    FirstInTable(lines, |front|, i);
    CanonicalManifest(Join(lines));
  }

  /** What the lock file's root blocks decide. */
  lemma LockSiteIsRead(lines: seq<string>)
    ensures var roots := Roots(lines, 0);
            && ((exists h :: h in roots && Unversioned(lines, h)) ==> SiteIn(true, lines) == Err(NoVersion))
            && ((forall h :: h in roots ==> !Unversioned(lines, h)) && |roots| != 1 ==>
                  SiteIn(true, lines) == Err(WrongCount(|roots|)))
            && (forall h, i: nat :: roots == {h} && IsVersionOf(lines, h, i) ==> SiteIn(true, lines) == Ok(i))
  {
    hide Unversioned, IsVersionOf, RootSites, Roots;
    LockSitesAreTheRoots(lines, 0);
    var roots := Roots(lines, 0);
    forall h, i: nat | roots == {h} && IsVersionOf(lines, h, i) ensures SiteIn(true, lines) == Ok(i) {
      VersionedIsNotUnversioned(lines, h, i);
      OneRootDecides(lines, h, i, RootSites(SourceTests(), lines, 0));
    }
  }

  lemma OneRootDecides(lines: seq<string>, h: nat, i: nat, sites: seq<Option<nat>>)
    requires SitesOf(lines, {h}, sites) && IsVersionOf(lines, h, i)
    ensures sites == [Some(i)]
  {
    hide IsVersionOf;
    assert h in {h};
    assert Some(i) in sites && |sites| == 1;
  }

  lemma VersionedIsNotUnversioned(lines: seq<string>, h: nat, i: nat)
    requires IsVersionOf(lines, h, i)
    ensures !Unversioned(lines, h)
  {}

  lemma CanonicalLock(text: string)
    ensures var lines := SplitInclusive(text); var roots := Roots(lines, 0);
            && ((exists h :: h in roots && Unversioned(lines, h)) ==> CanonicalText(true, text) == Err(NoVersion))
            && ((forall h :: h in roots ==> !Unversioned(lines, h)) && |roots| != 1 ==>
                  CanonicalText(true, text) == Err(WrongCount(|roots|)))
            && (forall h, i: nat :: roots == {h} && IsVersionOf(lines, h, i) ==>
                  CanonicalText(true, text) == Ok(Erased(lines, i)))
  {
    hide Roots, Unversioned, IsVersionOf, Canonical, AssignsVersion, SiteIn, CanonicalText, Erased;
    var lines := SplitInclusive(text);
    LockSiteIsRead(lines);
    forall h, i: nat | Roots(lines, 0) == {h} && IsVersionOf(lines, h, i)
      ensures i < |lines| && AssignsVersion(lines[i]) && CanonicalText(true, text) == Ok(Erased(lines, i))
    {
      VersionOfIsAVersion(lines, h, i);
      ErasedAtTheSite(true, text, i);
    }
    if SiteIn(true, lines).Err? {
      RejectedAtTheSite(true, text);
    }
  }

  lemma VersionOfIsAVersion(lines: seq<string>, h: nat, i: nat)
    requires IsVersionOf(lines, h, i)
    ensures i < |lines| && AssignsVersion(lines[i])
  {}

  method CanonicalizeManifest(text: string) returns (r: Result<string, LockError>)
    ensures r == CanonicalText(false, text)
    ensures var lines := SplitInclusive(text);
            && (forall i: nat :: FirstPackageVersion(lines, i) ==> r == Ok(Erased(lines, i)))
            && (NoPackageVersion(lines) ==> r == Err(NoVersion))
  {
    CanonicalManifest(text);
    hide NoPackageVersion, FirstPackageVersion, IsPackageVersion, Erased;
    var lines := SplitInclusive(text);
    var output, replaced := RewriteFirst(SourceTests(), lines, false);
    if Site(false, text).Ok? {
      ghost var i := Site(false, text).value;
      SplitLosesNothing(text);
      SitesAreVersionLines(false, lines, i);
      CanonicalMovesNoTest(lines, i);
      RewrittenAtTheSite(SourceTests(), lines, Replaced(lines, i), 0, false, i);
      assert Replaced(lines, i)[0..] == Replaced(lines, i);
    }
    r := if replaced then Ok(output) else Err(NoVersion);
  }

  method CanonicalizeRootLockPackageVersion(text: string) returns (r: Result<string, LockError>)
    ensures r == CanonicalText(true, text)
    ensures var lines := SplitInclusive(text); var roots := Roots(lines, 0);
            && ((exists h :: h in roots && Unversioned(lines, h)) ==> r == Err(NoVersion))
            && ((forall h :: h in roots ==> !Unversioned(lines, h)) && |roots| != 1 ==> r == Err(WrongCount(|roots|)))
            && (forall h, i: nat :: roots == {h} && IsVersionOf(lines, h, i) ==> r == Ok(Erased(lines, i)))
  {
    CanonicalLock(text);
    hide Roots, Unversioned, IsVersionOf, Erased;
    var lines := SplitInclusive(text);
    SplitLosesNothing(text);
    r := RewriteLock(SourceTests(), lines);
    if Site(true, text).Ok? {
      ghost var i := Site(true, text).value;
      SitesAreVersionLines(true, lines, i);
      CanonicalMovesNoTest(lines, i);
      LockTextAtTheSite(SourceTests(), lines, Replaced(lines, i), 0, i);
      assert Replaced(lines, i)[0..] == Replaced(lines, i);
    }
  }
}
