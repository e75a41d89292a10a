/** The text operations of Python's `str` that the patch and comment code relies on. */
module Text {

  /** White space in the sense of `str.strip` and of `\s` in patterns. */
  predicate IsSpace(c: char) {
    || '\t' <= c <= '\r' || '\U{1c}' <= c <= ' ' || c == '\U{85}' || c == '\U{a0}' || c == '\U{1680}'
    || '\U{2000}' <= c <= '\U{200a}' || c == '\U{2028}' || c == '\U{2029}' || c == '\U{202f}' || c == '\U{205f}'
    || c == '\U{3000}'
  }

  /** Where `str.splitlines` breaks lines. */
  predicate IsLineBreak(c: char) {
    '\n' <= c <= '\r' || '\U{1c}' <= c <= '\U{1e}' || c == '\U{85}' || c == '\U{2028}' || c == '\U{2029}'
  }

  predicate AllSpace(s: string) {
    forall i | 0 <= i < |s| :: IsSpace(s[i])
  }

  predicate NoLineBreak(s: string) {
    forall i | 0 <= i < |s| :: !IsLineBreak(s[i])
  }

  predicate NoNewline(s: string) {
    forall i | 0 <= i < |s| :: s[i] != '\n'
  }

  predicate StartsWith(s: string, prefix: string) {
    prefix <= s
  }

  // ---------------------------------------------------------------------------
  // Stripping
  // ---------------------------------------------------------------------------

  function StripLeft(s: string): string
    decreases |s|
  {
    if s != "" && IsSpace(s[0]) then StripLeft(s[1..]) else s
  }

  function StripRight(s: string): string
    decreases |s|
  {
    if s != "" && IsSpace(s[|s| - 1]) then StripRight(s[..|s| - 1]) else s
  }

  function Strip(s: string): string {
    StripRight(StripLeft(s))
  }

  /** Starts and ends with something that is not white space. */
  predicate IsStripped(s: string) {
    s != "" ==> !IsSpace(s[0]) && !IsSpace(s[|s| - 1])
  }

  lemma {:induction false} StripLeftFacts(s: string)
    ensures var r := StripLeft(s);
      && |r| <= |s| && r == s[|s| - |r|..] && AllSpace(s[..|s| - |r|]) && (r != "" ==> !IsSpace(r[0]))
    decreases |s|
  {
    if s != "" && IsSpace(s[0]) {
      StripLeftFacts(s[1..]);
      var r := StripLeft(s[1..]);
      assert s[..|s| - |r|] == [s[0]] + s[1..][..|s| - 1 - |r|];
    }
  }

  lemma {:induction false} StripRightFacts(s: string)
    ensures var r := StripRight(s);
      && r <= s && AllSpace(s[|r|..]) && (r != "" ==> !IsSpace(r[|r| - 1]))
    decreases |s|
  {
    if s != "" && IsSpace(s[|s| - 1]) {
      StripRightFacts(s[..|s| - 1]);
      var r := StripRight(s[..|s| - 1]);
      assert s[|r|..] == s[..|s| - 1][|r|..] + [s[|s| - 1]];
    }
  }

  /** What is stripped is white space, and the result is stripped. */
  lemma StripFacts(s: string) returns (left: string, right: string)
    ensures s == left + Strip(s) + right && AllSpace(left) && AllSpace(right) && IsStripped(Strip(s))
  {
    StripLeftFacts(s);
    var middle := StripLeft(s);
    StripRightFacts(middle);
    left, right := s[..|s| - |middle|], middle[|Strip(s)|..];
    assert middle == Strip(s) + right;
    assert Strip(s) != "" ==> Strip(s)[0] == middle[0];
  }

  lemma {:induction false} StripLeftSkips(space: string, s: string)
    requires AllSpace(space)
    ensures StripLeft(space + s) == StripLeft(s)
    decreases |space|
  {
    if space == "" {
      assert space + s == s;
    } else {
      assert (space + s)[1..] == space[1..] + s;
      StripLeftSkips(space[1..], s);
    }
  }

  lemma {:induction false} StripRightSkips(s: string, space: string)
    requires AllSpace(space)
    ensures StripRight(s + space) == StripRight(s)
    decreases |space|
  {
    if space == "" {
      assert s + space == s;
    } else {
      assert (s + space)[..|s + space| - 1] == s + space[..|space| - 1];
      StripRightSkips(s, space[..|space| - 1]);
    }
  }

  /** Surrounding a stripped text with white space and stripping gives it back. */
  lemma StripSurrounded(left: string, s: string, right: string)
    requires AllSpace(left) && AllSpace(right) && IsStripped(s)
    ensures Strip(left + s + right) == s
  {
    assert left + s + right == left + (s + right);
    StripLeftSkips(left, s + right);
    if s == "" {
      assert s + right == right + "";
      StripLeftSkips(right, "");
    } else {
      assert StripLeft(s + right) == s + right;
      StripRightSkips(s, right);
    }
  }

  /** White space around a text makes no difference to what stripping gives. */
  lemma StripIgnores(left: string, s: string, right: string)
    requires AllSpace(left) && AllSpace(right)
    ensures Strip(left + s + right) == Strip(s)
  {
    var l, r := StripFacts(s);
    assert left + s + right == (left + l) + Strip(s) + (r + right);
    StripSurrounded(left + l, Strip(s), r + right);
  }

  lemma StripNoLonger(s: string)
    ensures |Strip(s)| <= |s|
  {
    var l, r := StripFacts(s);
  }

  // ---------------------------------------------------------------------------
  // Concatenating and joining
  // ---------------------------------------------------------------------------

  function Concat(parts: seq<string>): string
    decreases |parts|
  {
    if parts == [] then "" else parts[0] + Concat(parts[1..])
  }

  lemma ConcatCons(first: string, rest: seq<string>)
    ensures Concat([first] + rest) == first + Concat(rest)
  {
    assert ([first] + rest)[1..] == rest;
  }

  lemma {:induction false} ConcatAppend(a: seq<string>, b: seq<string>)
    ensures Concat(a + b) == Concat(a) + Concat(b)
    decreases |a|
  {
    if a == [] {
      assert a + b == b;
    } else {
      assert (a + b)[1..] == a[1..] + b;
      ConcatAppend(a[1..], b);
      assert Concat(a + b) == a[0] + (Concat(a[1..]) + Concat(b));
    }
  }

  function Join(sep: string, parts: seq<string>): string
    decreases |parts|
  {
    if parts == [] then "" else if |parts| == 1 then parts[0] else parts[0] + sep + Join(sep, parts[1..])
  }

  /** Every part followed by the end. */
  function Terminate(parts: seq<string>, end: string): (r: seq<string>)
    ensures |r| == |parts|
    ensures forall i | 0 <= i < |r| :: r[i] == parts[i] + end
  {
    seq(|parts|, i requires 0 <= i < |parts| => parts[i] + end)
  }

  lemma {:induction false} JoinTerminated(sep: string, parts: seq<string>)
    requires parts != []
    ensures Concat(Terminate(parts, sep)) == Join(sep, parts) + sep
    decreases |parts|
  {
    assert Terminate(parts, sep)[1..] == Terminate(parts[1..], sep);
    if |parts| > 1 {
      JoinTerminated(sep, parts[1..]);
      assert parts[0] + sep + (Join(sep, parts[1..]) + sep) == parts[0] + sep + Join(sep, parts[1..]) + sep;
    } else {
      assert Concat(Terminate(parts[1..], sep)) == "";
      assert parts[0] + sep + "" == parts[0] + sep;
    }
  }

  // ---------------------------------------------------------------------------
  // Lines of a stream: broken at "\n" only, each keeping its end
  // ---------------------------------------------------------------------------

  function FirstNewline(s: string): (k: nat)
    ensures k <= |s| && NoNewline(s[..k]) && (k < |s| ==> s[k] == '\n')
    decreases |s|
  {
    if s == "" || s[0] == '\n' then
      0
    else
      var k := 1 + FirstNewline(s[1..]);
      assert s[..k] == [s[0]] + s[1..][..k - 1];
      k
  }

  /** Where the first line of a text ends. */
  function LineEnd(s: string): (k: nat)
    ensures k <= |s| && (s != "" ==> k > 0)
  {
    var k := FirstNewline(s);
    if k < |s| then k + 1 else k
  }

  function Lines(s: string): seq<string>
    decreases |s|
  {
    if s == "" then [] else [s[..LineEnd(s)]] + Lines(s[LineEnd(s)..])
  }

  lemma {:induction false} FirstNewlineAt(line: string, rest: string)
    requires NoNewline(line)
    ensures FirstNewline(line + "\n" + rest) == |line|
    decreases |line|
  {
    if line == "" {
      assert line + "\n" + rest == "\n" + rest;
    } else {
      assert (line + "\n" + rest)[1..] == line[1..] + "\n" + rest;
      FirstNewlineAt(line[1..], rest);
    }
  }

  lemma LinesCons(line: string, rest: string)
    requires NoNewline(line)
    ensures Lines(line + "\n" + rest) == [line + "\n"] + Lines(rest)
  {
    FirstNewlineAt(line, rest);
    var s := line + "\n" + rest;
    assert s[..|line| + 1] == line + "\n" && s[|line| + 1..] == rest;
  }

  lemma NextLine(s: string)
    requires s != ""
    ensures 0 < LineEnd(s) && Lines(s) == [s[..LineEnd(s)]] + Lines(s[LineEnd(s)..])
  {
    hide LineEnd;
  }

  lemma Associative<T>(a: seq<T>, b: seq<T>, c: seq<T>)
    ensures a + b + c == a + (b + c)
  {
  }

  lemma TerminateCons(parts: seq<string>, end: string)
    requires parts != []
    ensures Terminate(parts, end) == [parts[0] + end] + Terminate(parts[1..], end)
  {
  }

  lemma NothingAppended(rest: string)
    ensures Lines(Concat(Terminate([], "\n")) + rest) == Terminate([], "\n") + Lines(rest)
  {
    hide Lines;
    assert Terminate([], "\n") == [] && "" + rest == rest;
  }

  lemma {:induction false} LinesAppend(lines: seq<string>, rest: string)
    requires forall i | 0 <= i < |lines| :: NoNewline(lines[i])
    ensures Lines(Concat(Terminate(lines, "\n")) + rest) == Terminate(lines, "\n") + Lines(rest)
    decreases |lines|
  {
    hide *;
    if lines == [] {
      NothingAppended(rest);
    } else {
      var first, tail := lines[0] + "\n", Terminate(lines[1..], "\n");
      TerminateCons(lines, "\n");
      ConcatCons(first, tail);
      Associative(first, Concat(tail), rest);
      LinesCons(lines[0], Concat(tail) + rest);
      LinesAppend(lines[1..], rest);
      Associative([first], tail, Lines(rest));
    }
  }

  lemma {:induction false} ConcatLines(s: string)
    ensures Concat(Lines(s)) == s
    decreases |s|
  {
    if s != "" {
      hide Lines, LineEnd, Concat;
      NextLine(s);
      var k := LineEnd(s);
      ConcatLines(s[k..]);
      ConcatCons(s[..k], Lines(s[k..]));
    }
  }

  lemma {:induction false} LinesNotEmpty(s: string, i: nat)
    requires i < |Lines(s)|
    ensures Lines(s)[i] != ""
    decreases |s|
  {
    if i > 0 {
      LinesNotEmpty(s[LineEnd(s)..], i - 1);
    }
  }

  // ---------------------------------------------------------------------------
  // Lines of a text: broken at every line break
  // ---------------------------------------------------------------------------

  function FirstBreak(s: string): (k: nat)
    ensures k <= |s| && NoLineBreak(s[..k]) && (k < |s| ==> IsLineBreak(s[k]))
    decreases |s|
  {
    if s == "" || IsLineBreak(s[0]) then
      0
    else
      var k := 1 + FirstBreak(s[1..]);
      assert s[..k] == [s[0]] + s[1..][..k - 1];
      k
  }

  /** Where the first line of a text ends, its line break included. */
  function BreakEnd(s: string): (k: nat)
    ensures k <= |s| && (s != "" ==> k > 0)
  {
    var k := FirstBreak(s);
    if k + 1 < |s| && s[k] == '\r' && s[k + 1] == '\n' then k + 2
    else if k < |s| then k + 1
    else k
  }

  /** `s.splitlines()` */
  function SplitLines(s: string): seq<string>
    decreases |s|
  {
    if s == "" then [] else [s[..FirstBreak(s)]] + SplitLines(s[BreakEnd(s)..])
  }

  /** `s.splitlines(keepends=True)` */
  function SplitLinesKeep(s: string): seq<string>
    decreases |s|
  {
    if s == "" then [] else [s[..BreakEnd(s)]] + SplitLinesKeep(s[BreakEnd(s)..])
  }

  lemma NextSplit(s: string)
    requires s != ""
    ensures SplitLines(s) == [s[..FirstBreak(s)]] + SplitLines(s[BreakEnd(s)..])
    ensures SplitLinesKeep(s) == [s[..BreakEnd(s)]] + SplitLinesKeep(s[BreakEnd(s)..])
  {
    hide FirstBreak, BreakEnd;
  }

  lemma {:induction false} SplitLinesNoBreak(s: string, i: nat)
    requires i < |SplitLines(s)|
    ensures NoLineBreak(SplitLines(s)[i])
    decreases |s|
  {
    if i > 0 {
      SplitLinesNoBreak(s[BreakEnd(s)..], i - 1);
    }
  }

  /** A line break is white space, so a text that ends otherwise goes on after each of its breaks. */
  lemma BreakNotLast(s: string)
    requires s != "" && !IsSpace(s[|s| - 1])
    ensures if FirstBreak(s) < |s| then BreakEnd(s) < |s| else BreakEnd(s) == |s|
    ensures !IsSpace(s[0]) ==> FirstBreak(s) > 0
  {
    var k := FirstBreak(s);
    assert IsLineBreak(s[0]) ==> IsSpace(s[0]);
    hide FirstBreak;
    if k < |s| {
      assert IsSpace(s[k]);
      if k + 1 < |s| && s[k] == '\r' && s[k + 1] == '\n' {
        assert IsSpace(s[k + 1]);
      }
    }
  }

  /** The first line of a stripped text starts, and its last line ends, as the text does. */
  lemma {:induction false} SplitLinesEnds(s: string)
    requires s != "" && !IsSpace(s[|s| - 1])
    ensures var lines := SplitLines(s);
      && lines != [] && lines[|lines| - 1] != "" && !IsSpace(lines[|lines| - 1][|lines[|lines| - 1]| - 1])
      && (!IsSpace(s[0]) ==> lines[0] != "" && lines[0][0] == s[0])
    decreases |s|
  {
    assert SplitLines("") == [];
    hide SplitLines, FirstBreak, BreakEnd, IsSpace;
    BreakNotLast(s);
    NextSplit(s);
    var k, e := FirstBreak(s), BreakEnd(s);
    if k < |s| {
      SplitLinesEnds(s[e..]);
    } else {
      assert s[e..] == "" && s[..k] == s;
    }
  }

  /** A line with its line break, or the unterminated rest of a text. */
  predicate IsLine(s: string, last: bool) {
    s != "" && BreakEnd(s) == |s| && (FirstBreak(s) < |s| || last)
  }

  /** Lines that stay apart when they are concatenated. */
  predicate AreLines(lines: seq<string>) {
    && (forall i | 0 <= i < |lines| :: IsLine(lines[i], i == |lines| - 1))
    && (forall i | 0 <= i < |lines| - 1 ::
      !(lines[i][|lines[i]| - 1] == '\r' && StartsWith(lines[i + 1], "\n")))
  }

  lemma {:induction false} FirstBreakPrefix(line: string, rest: string)
    requires FirstBreak(line) < |line|
    ensures FirstBreak(line + rest) == FirstBreak(line)
    decreases |line|
  {
    if !IsLineBreak(line[0]) {
      assert (line + rest)[1..] == line[1..] + rest;
      FirstBreakPrefix(line[1..], rest);
    }
  }

  lemma TailAreLines(lines: seq<string>)
    requires AreLines(lines) && lines != []
    ensures AreLines(lines[1..]) && IsLine(lines[0], |lines| == 1)
  {
    var tail := lines[1..];
    assert IsLine(lines[0], 0 == |lines| - 1);
    forall i | 0 <= i < |tail|
      ensures IsLine(tail[i], i == |tail| - 1)
    {
      assert IsLine(lines[i + 1], i + 1 == |lines| - 1);
    }
    hide BreakEnd, FirstBreak;
    forall i | 0 <= i < |tail| - 1
      ensures !(tail[i][|tail[i]| - 1] == '\r' && StartsWith(tail[i + 1], "\n"))
    {
      assert tail[i] == lines[i + 1] && tail[i + 1] == lines[i + 1 + 1];
    }
  }

  lemma BreakEndPrefix(line: string, rest: string)
    requires IsLine(line, false) && rest != "" && !(line[|line| - 1] == '\r' && rest[0] == '\n')
    ensures BreakEnd(line + rest) == |line|
  {
    FirstBreakPrefix(line, rest);
    hide FirstBreak;
  }

  lemma FollowingLine(lines: seq<string>)
    requires AreLines(lines) && |lines| > 1
    ensures var line, rest := lines[0], Concat(lines[1..]);
      rest != "" && line != "" && !(line[|line| - 1] == '\r' && rest[0] == '\n')
  {
    assert IsLine(lines[0], 0 == |lines| - 1) && IsLine(lines[1], 1 == |lines| - 1);
    hide BreakEnd, FirstBreak, Concat;
    var next := lines[1];
    assert lines[1..] == [next] + lines[2..];
    ConcatCons(next, lines[2..]);
    assert next[0] == '\n' ==> StartsWith(next, "\n") by {
      assert next[..1] == [next[0]];
    }
    assert lines[0 + 1] == next;
  }

  /** The first of several lines ends where the first line of their concatenation does. */
  lemma FirstLineEnds(lines: seq<string>)
    requires AreLines(lines) && lines != []
    ensures Concat(lines) == lines[0] + Concat(lines[1..])
    ensures lines[0] != "" && BreakEnd(Concat(lines)) == |lines[0]|
  {
    TailAreLines(lines);
    assert lines[0] != "" && BreakEnd(lines[0]) == |lines[0]|;
    hide *;
    assert lines == [lines[0]] + lines[1..];
    ConcatCons(lines[0], lines[1..]);
    if |lines| == 1 {
      OneLine(lines);
    } else {
      FollowingLine(lines);
      BreakEndPrefix(lines[0], Concat(lines[1..]));
    }
  }

  lemma OneLine(lines: seq<string>)
    requires |lines| == 1
    ensures Concat(lines) == lines[0]
  {
    assert lines[0] + "" == lines[0];
  }

  lemma NoLine()
    ensures SplitLinesKeep(Concat([])) == []
  {
  }

  /** Splitting the concatenation of lines gives the lines back. */
  lemma {:induction false} SplitConcat(lines: seq<string>)
    requires AreLines(lines)
    ensures SplitLinesKeep(Concat(lines)) == lines
    decreases |lines|
  {
    hide *;
    if lines == [] {
      NoLine();
    } else {
      TailAreLines(lines);
      SplitConcat(lines[1..]);
      FirstLineEnds(lines);
      NextSplit(Concat(lines));
      assert lines == [lines[0]] + lines[1..];
    }
  }

  // ---------------------------------------------------------------------------
  // What the lines of a text are, whatever breaks them apart
  // ---------------------------------------------------------------------------

  /** The lines with a line break after each but the last. */
  function Weave(lines: seq<string>, breaks: seq<string>): string
    requires |breaks| + 1 == |lines|
    decreases |lines|
  {
    if |lines| == 1 then lines[0] else lines[0] + breaks[0] + Weave(lines[1..], breaks[1..])
  }

  /** One line break: a character that breaks lines, or carriage return and line feed. */
  predicate IsBreak(s: string) {
    s == "\r\n" || (|s| == 1 && IsLineBreak(s[0]))
  }

  /** Lines without line breaks, the last not empty, and breaks that no empty line makes one. */
  predicate IsWeave(lines: seq<string>, breaks: seq<string>) {
    && |breaks| + 1 == |lines| && lines[|lines| - 1] != ""
    && (forall i | 0 <= i < |lines| :: NoLineBreak(lines[i]))
    && (forall i | 0 <= i < |breaks| :: IsBreak(breaks[i]))
    && (forall i | 0 <= i < |breaks| - 1 :: breaks[i] == "\r" && lines[i + 1] == "" ==> breaks[i + 1][0] != '\n')
  }

  lemma {:induction false} FirstBreakAt(line: string, rest: string)
    requires NoLineBreak(line) && (rest != "" ==> IsLineBreak(rest[0]))
    ensures FirstBreak(line + rest) == |line|
    decreases |line|
  {
    if line == "" {
      assert line + rest == rest;
    } else {
      assert (line + rest)[1..] == line[1..] + rest;
      FirstBreakAt(line[1..], rest);
    }
  }

  /** The first line of a text is what precedes the first line break. */
  lemma SplitAtBreak(line: string, br: string, rest: string)
    requires NoLineBreak(line) && IsBreak(br) && !(br == "\r" && StartsWith(rest, "\n"))
    ensures SplitLines(line + br + rest) == [line] + SplitLines(rest)
  {
    var s := line + br + rest;
    assert s == line + (br + rest);
    assert rest != "" && rest[0] == '\n' ==> StartsWith(rest, "\n") by {
      if rest != "" { assert rest[..1] == [rest[0]]; }
    }
    FirstBreakAt(line, br + rest);
    hide FirstBreak;
    assert br == "\r" ==> br[0] == '\r';
    assert |br| == 1 && br[0] == '\r' ==> br == "\r";
    assert |br| == 2 ==> s[|line| + 1] == br[1];
    assert |br| == 1 && rest != "" ==> s[|line| + 1] == rest[0];
    assert BreakEnd(s) == |line| + |br|;
    assert s[..|line|] == line && s[|line| + |br|..] == rest;
    hide BreakEnd;
    NextSplit(s);
  }

  lemma SplitNoBreak(line: string)
    requires NoLineBreak(line) && line != ""
    ensures SplitLines(line) == [line]
  {
    FirstBreakAt(line, "");
    assert line + "" == line;
    assert line[..|line|] == line && line[|line|..] == "";
  }

  lemma TailIsWeave(lines: seq<string>, breaks: seq<string>)
    requires IsWeave(lines, breaks) && |lines| > 1
    ensures IsWeave(lines[1..], breaks[1..]) && NoLineBreak(lines[0]) && IsBreak(breaks[0])
    ensures !(breaks[0] == "\r" && StartsWith(Weave(lines[1..], breaks[1..]), "\n"))
  {
    var rest := Weave(lines[1..], breaks[1..]);
    assert IsBreak(breaks[0]);
    forall i | 0 <= i < |breaks[1..]|
      ensures IsBreak(breaks[1..][i])
    {
      assert IsBreak(breaks[i + 1]);
    }
    if |lines| > 2 {
      assert IsBreak(breaks[1]) && rest == lines[1] + breaks[1] + Weave(lines[1..][1..], breaks[1..][1..]);
    }
    assert lines[1] != "" ==> rest[0] == lines[1][0];
    assert lines[1] == "" && |lines| > 2 ==> rest[0] == breaks[0 + 1][0];
  }

  /** Whatever line breaks come between them, lines are what their text is split into. */
  lemma {:induction false} SplitWeave(lines: seq<string>, breaks: seq<string>)
    requires IsWeave(lines, breaks)
    ensures SplitLines(Weave(lines, breaks)) == lines
    decreases |lines|
  {
    hide SplitLines, BreakEnd, FirstBreak;
    if |lines| == 1 {
      SplitNoBreak(lines[0]);
    } else {
      TailIsWeave(lines, breaks);
      SplitWeave(lines[1..], breaks[1..]);
      SplitAtBreak(lines[0], breaks[0], Weave(lines[1..], breaks[1..]));
    }
  }

  /** Every text that does not end in white space is made of lines and line breaks. */
  lemma {:induction false} EveryTextIsWoven(s: string) returns (lines: seq<string>, breaks: seq<string>)
    requires s != "" && !IsSpace(s[|s| - 1])
    ensures IsWeave(lines, breaks) && Weave(lines, breaks) == s
    decreases |s|
  {
    var k, e := FirstBreak(s), BreakEnd(s);
    BreakNotLast(s);
    if k == |s| {
      assert s[..k] == s;
      lines, breaks := [s], [];
    } else {
      var ls, bs := EveryTextIsWoven(s[e..]);
      lines, breaks := [s[..k]] + ls, [s[k..e]] + bs;
      assert lines[1..] == ls && breaks[1..] == bs;
      CutTwice(s, k, e);
      assert IsBreak(s[k..e]);
      WeaveConsIs(s[..k], s[k..e], ls, bs);
    }
  }

  lemma CutTwice(s: string, k: nat, e: nat)
    requires k <= e <= |s|
    ensures s == s[..k] + s[k..e] + s[e..]
  {
  }

  lemma WeaveConsIs(line: string, br: string, lines: seq<string>, breaks: seq<string>)
    requires IsWeave(lines, breaks) && NoLineBreak(line) && IsBreak(br)
    requires br == "\r" ==> Weave(lines, breaks)[..1] != "\n"
    ensures IsWeave([line] + lines, [br] + breaks)
  {
  }

  /** Joining is weaving with the same separator everywhere. */
  lemma {:induction false} JoinIsWeave(sep: string, lines: seq<string>, seps: seq<string>)
    requires |seps| + 1 == |lines| && forall i | 0 <= i < |seps| :: seps[i] == sep
    ensures Join(sep, lines) == Weave(lines, seps)
    decreases |lines|
  {
    if |lines| > 1 {
      JoinIsWeave(sep, lines[1..], seps[1..]);
    }
  }

  /** Lines joined by newlines are what the text is split into. */
  lemma SplitJoined(lines: seq<string>)
    requires lines != [] && lines[|lines| - 1] != "" && forall i | 0 <= i < |lines| :: NoLineBreak(lines[i])
    ensures SplitLines(Join("\n", lines)) == lines
  {
    hide SplitLines, Weave, Join, NoLineBreak;
    var breaks := seq(|lines| - 1, i => "\n");
    NewlinesBreak(breaks);
    JoinIsWeave("\n", lines, breaks);
    assert IsWeave(lines, breaks);
    hide IsWeave;
    SplitWeave(lines, breaks);
  }

  lemma NewlinesBreak(breaks: seq<string>)
    requires forall i | 0 <= i < |breaks| :: breaks[i] == "\n"
    ensures forall i | 0 <= i < |breaks| :: IsBreak(breaks[i]) && breaks[i] != "\r"
  {
    assert IsBreak("\n") && "\n"[0] != "\r"[0];
  }

  /** A text without newlines is one line of a stream. */
  lemma UnterminatedLine(s: string)
    requires NoNewline(s) && s != ""
    ensures Lines(s) == [s]
  {
    assert LineEnd(s) == |s|;
    assert s[..|s|] == s && s[|s|..] == "";
  }
}
