/** What texts the patch reader and printer accept and produce, in terms of their characters. */
module HgExportsShapes {

  import opened Options
  import opened Text
  import opened HgExports
  import opened HgExportsLaws

  // ---------------------------------------------------------------------------
  // Messages and authors, whatever breaks their lines
  // ---------------------------------------------------------------------------

  /** Lines whose text is stripped and not empty. */
  predicate IsTidy(lines: seq<string>) {
    && lines != [] && lines[0] != "" && !IsSpace(lines[0][0])
    && var last := lines[|lines| - 1]; last != "" && !IsSpace(last[|last| - 1])
  }

  /** White space, tidy lines with breaks between them, and white space again. */
  ghost predicate IsLaidOut(text: string, left: string, lines: seq<string>, breaks: seq<string>, right: string) {
    && AllSpace(left) && AllSpace(right) && IsTidy(lines) && IsWeave(lines, breaks)
    && text == left + Weave(lines, breaks) + right
  }

  /** Every text that is not blank is laid out in some way. */
  lemma EveryTextIsLaidOut(text: string) returns (left: string, lines: seq<string>, breaks: seq<string>, right: string)
    requires Strip(text) != ""
    ensures IsLaidOut(text, left, lines, breaks, right)
  {
    hide Weave, SplitLines;
    left, right := StripFacts(text);
    lines, breaks := EveryTextIsWoven(Strip(text));
    SplitWeave(lines, breaks);
    SplitLinesEnds(Strip(text));
  }

  lemma {:induction false} WeaveEnds(lines: seq<string>, breaks: seq<string>)
    requires |breaks| + 1 == |lines| && lines[|lines| - 1] != ""
    ensures var last, s := lines[|lines| - 1], Weave(lines, breaks);
      s != "" && s[|s| - 1] == last[|last| - 1] && (lines[0] != "" ==> s[0] == lines[0][0])
    decreases |lines|
  {
    if |lines| > 1 {
      WeaveEnds(lines[1..], breaks[1..]);
    }
  }

  /** The lines of a laid out text are found whatever the white space and the line breaks. */
  lemma LinesOfLaidOut(text: string, left: string, lines: seq<string>, breaks: seq<string>, right: string)
    requires IsLaidOut(text, left, lines, breaks, right)
    ensures SplitLines(Strip(text)) == lines && Strip(text) == Weave(lines, breaks) != ""
  {
    hide Strip, SplitLines, Weave;
    WeaveEnds(lines, breaks);
    StripSurrounded(left, Weave(lines, breaks), right);
    SplitWeave(lines, breaks);
  }

  /** A patch made for a message reads back as the message's lines joined by newlines, together
      with the exact diff after one empty line, if and only if the first line does not start
      with "# ". */
  lemma MessageRoundTrip(diff: string, name: string, email: string, timestamp: string,
                         message: string, left: string, ls: seq<string>, breaks: seq<string>, right: string)
    requires IsLaidOut(message, left, ls, breaks, right)
    ensures var lines := Lines(BuildPatch(diff, name, email, message, timestamp));
      (Strip(Concat(DescriptionLines(lines))) == Join("\n", ls) && Concat(DiffLines(lines)) == "\n" + diff)
        <==>
      !(|ls[0]| >= 2 && ls[0][0] == '#' && ls[0][1] == ' ')
  {
    LinesOfLaidOut(message, left, ls, breaks, right);
    hide Strip, SplitLines, Weave, Lines, Concat, DescriptionLines, DiffLines, BuildPatch, IsHeaderLine;
    RoundTripIff(diff, name, email, message, timestamp);
    HashSpace(ls[0]);
  }

  /** The lines of a printed patch, for a message given by its lines. */
  lemma PrintedText(diff: string, name: string, email: string, timestamp: string,
                    message: string, left: string, ls: seq<string>, breaks: seq<string>, right: string)
    requires IsLaidOut(message, left, ls, breaks, right)
    ensures var lines := Lines(BuildPatch(diff, name, email, message, timestamp));
      && |lines| >= |ls| + 5
      && (forall i | 0 <= i < |ls| :: lines[4 + i] == ls[i] + "\n")
      && lines[3] == "# Diff Start Line " + Decimal(|ls| + 5) + "\n"
      && lines[4 + |ls|] == "\n" && lines[5 + |ls|..] == Lines(diff)
  {
    LinesOfLaidOut(message, left, ls, breaks, right);
    assert MessageLines(message) == ls;
    hide *;
    PrintedLinesAre(diff, name, email, message, timestamp);
    PrintedHeaderLines(name, email, timestamp, |ls| + 5);
    PartsOfPrinted(diff, name, email, message, timestamp);
  }

  lemma PartsOfPrinted(diff: string, name: string, email: string, message: string, timestamp: string)
    ensures var printed, ls := PrintedLines(diff, name, email, message, timestamp), MessageLines(message);
      && |printed| >= |ls| + 5
      && (forall i | 0 <= i < |ls| :: printed[4 + i] == ls[i] + "\n")
      && printed[3] == Terminate(HeaderLines(name, email, timestamp, |ls| + 5), "\n")[3]
      && printed[4 + |ls|] == "\n" && printed[5 + |ls|..] == Lines(diff)
  {
    hide MessageLines, HeaderLines, Lines;
  }

  /** A header value loses its line breaks and the white space around it, and nothing else. */
  lemma HeaderTextIs(text: string, left: string, lines: seq<string>, breaks: seq<string>, right: string)
    requires IsLaidOut(text, left, lines, breaks, right)
    ensures NoLineBreaks(text) == Concat(lines)
  {
    LinesOfLaidOut(text, left, lines, breaks, right);
  }

  lemma PlainText(text: string)
    requires IsPlain(text)
    ensures NoLineBreaks(text) == text
  {
    if text != "" {
      assert "" + Weave([text], []) + "" == text;
      HeaderTextIs(text, "", [text], [], "");
      assert text + "" == text;
    } else {
      assert Concat([]) == "";
    }
  }

  /** A plain author and time stamp are printed as they are. */
  lemma PlainHeaderLines(name: string, email: string, timestamp: string, n: nat)
    requires IsPlain(name) && IsPlain(email) && IsPlain(timestamp) && timestamp != ""
    ensures HeaderLines(name, email, timestamp, n) ==
      ["# HG changeset patch", "# User " + (name + " <" + email + ">"), "# Date " + (timestamp + " +0000"), "# Diff Start Line " + Decimal(n)]
  {
    PlainText(name);
    PlainText(email);
    PlainText(timestamp + " +0000");
  }

  /** And they are read back as they are. */
  lemma PlainHeaders(name: string, email: string, timestamp: string, n: nat)
    requires IsPlain(name) && name != "" && IsPlain(email) && IsPlain(timestamp) && timestamp != ""
    ensures Headers(Terminate(HeaderLines(name, email, timestamp, n), "\n")) ==
      map["User" := name + " <" + email + ">", "Date" := timestamp + " +0000", "Diff Start Line" := Decimal(n)]
  {
    PlainText(name);
    PlainText(email);
    PlainText(timestamp + " +0000");
    var user, date := name + " <" + email + ">", timestamp + " +0000";
    assert IsStripped(user) && IsStripped(date);
    hide *;
    PrintedHeaders(name, email, timestamp, n);
    PlainUser(name, email);
    PlainDate(timestamp);
    StrippedStays(user);
    StrippedStays(date);
  }

  lemma PlainUser(name: string, email: string)
    requires NoLineBreaks(name) == name && NoLineBreaks(email) == email
    ensures UserHeader(name, email) == Strip(name + " <" + email + ">")
  {
    hide NoLineBreaks, Strip;
  }

  lemma PlainDate(timestamp: string)
    requires NoLineBreaks(timestamp + " +0000") == timestamp + " +0000"
    ensures DateHeader(timestamp) == Strip(timestamp + " +0000")
  {
    hide NoLineBreaks, Strip;
  }

  predicate IsPlain(text: string) {
    NoLineBreak(text) && IsStripped(text)
  }

  lemma StrippedStays(s: string)
    requires IsStripped(s)
    ensures Strip(s) == s
  {
    StripSurrounded("", s, "");
    assert "" + s + "" == s;
  }

  // ---------------------------------------------------------------------------
  // Header lines
  // ---------------------------------------------------------------------------

  /** "#", white space, the name in any case, and then white space again. */
  ghost predicate Names(line: string, name: string, space: string, word: string, rest: string) {
    && line == "#" + space + word + rest && space != "" && AllSpace(space) && rest != "" && IsSpace(rest[0])
    && |word| == |name| && forall i | 0 <= i < |name| :: EqualIgnoringCase(word[i], name[i])
  }

  predicate EqualIgnoringCase(a: char, b: char) {
    || a == b
    || ('A' <= a <= 'Z' && b as int == a as int + 32)
    || ('A' <= b <= 'Z' && a as int == b as int + 32)
  }

  lemma LowerIff(a: char, b: char)
    ensures Lower(a) == Lower(b) <==> EqualIgnoringCase(a, b)
  {
    assert 'a' as int == 'A' as int + 32;
  }

  /** A line that names the header gives it the rest of the line, stripped. */
  lemma NamedHeader(line: string, name: string, space: string, word: string, rest: string)
    requires name != "" && !IsSpace(name[0]) && IsLetter(name[0]) && Names(line, name, space, word, rest)
    ensures HeaderValue(line, name) == Some(Strip(rest))
  {
    hide Strip;
    forall i | 0 <= i < |name|
      ensures Lower(word[i]) == Lower(name[i])
    {
      LowerIff(word[i], name[i]);
    }
    assert EqualIgnoringCase(word[0], name[0]);
    var tail := line[1..];
    assert tail == space + word + rest && tail[..|space|] == space && tail[|space|] == word[0];
    SpaceRunIs(tail, |space|);
    assert line[1 + |space|..] == word + rest;
    assert (word + rest)[|name|..] == rest;
  }

  predicate IsLetter(c: char) {
    'A' <= c <= 'Z' || 'a' <= c <= 'z'
  }

  /** Only a line that names the header gives it a value. */
  lemma HeaderIsNamed(line: string, name: string) returns (space: string, word: string, rest: string)
    requires HeaderValue(line, name).Some?
    ensures Names(line, name, space, word, rest) && HeaderValue(line, name) == Some(Strip(rest))
  {
    hide Strip;
    var k := SpaceRun(line[1..]);
    var tail := line[1 + k..];
    space, word, rest := line[1..][..k], tail[..|name|], tail[|name|..];
    assert line[..1] == "#";
    assert line == line[..1] + space + word + rest;
    forall i | 0 <= i < |name|
      ensures EqualIgnoringCase(word[i], name[i])
    {
      LowerIff(word[i], name[i]);
    }
  }

  /** A line sets the first of the names to which it gives a value that is not empty. */
  lemma {:induction false} FirstNamed(line: string, names: seq<string>, k: nat)
    requires k < |names| && HeaderValue(line, names[k]).Some? && HeaderValue(line, names[k]).value != ""
    requires forall i | 0 <= i < k :: HeaderValue(line, names[i]) in {None, Some("")}
    ensures NamedValue(line, names) == Some((names[k], HeaderValue(line, names[k]).value))
    decreases |names|
  {
    hide HeaderValue;
    if k > 0 {
      assert HeaderValue(line, names[0]) in {None, Some("")};
      FirstNamed(line, names[1..], k - 1);
    }
  }

  lemma {:induction false} NoneNamed(line: string, names: seq<string>)
    requires forall i | 0 <= i < |names| :: HeaderValue(line, names[i]) in {None, Some("")}
    ensures NamedValue(line, names) == None
    decreases |names|
  {
    hide HeaderValue;
    if names != [] {
      assert HeaderValue(line, names[0]) in {None, Some("")};
      NoneNamed(line, names[1..]);
    }
  }

  /** Each header has the value that the last line to set it gives it. */
  lemma {:induction false} LastLineSets(lines: seq<string>, name: string)
    ensures name in Headers(lines) <==> exists i :: 0 <= i < |lines| && Sets(lines[i], name)
    ensures forall i | 0 <= i < |lines| && Sets(lines[i], name) && (forall j | i < j < |lines| :: !Sets(lines[j], name)) ::
      name in Headers(lines) && Headers(lines)[name] == NamedValue(lines[i], HEADER_NAMES).value.1
    decreases |lines|
  {
    hide NamedValue;
    if lines != [] {
      var n := |lines| - 1;
      var init := lines[..n];
      LastLineSets(init, name);
      assert forall i | 0 <= i < n :: init[i] == lines[i];
      assert Sets(lines[n], name) ==> name in Headers(lines);
      if !Sets(lines[n], name) {
        assert name in Headers(lines) <==> name in Headers(init);
      }
    }
  }

  predicate Sets(line: string, name: string) {
    NamedValue(line, HEADER_NAMES).Some? && NamedValue(line, HEADER_NAMES).value.0 == name
  }

  // ---------------------------------------------------------------------------
  // The start of the diff
  // ---------------------------------------------------------------------------

  /** "diff", two words, and white space between them. */
  ghost predicate HasDiffShape(line: string, a: string, word: string, b: string, rest: string) {
    && line == "diff" + a + word + b + rest
    && a != "" && AllSpace(a) && b != "" && AllSpace(b)
    && word != "" && (forall i | 0 <= i < |word| :: !IsSpace(word[i]))
    && rest != "" && !IsSpace(rest[0])
  }

  lemma {:induction false} WordRunIs(s: string, k: nat)
    requires k <= |s| && (forall i | 0 <= i < k :: !IsSpace(s[i])) && (k < |s| ==> IsSpace(s[k]))
    ensures WordRun(s) == k
    decreases |s|
  {
    if k > 0 {
      WordRunIs(s[1..], k - 1);
    }
  }

  lemma AfterSpace(space: string, rest: string)
    requires AllSpace(space) && rest != "" && !IsSpace(rest[0])
    ensures SpaceRun(space + rest) == |space| && (space + rest)[|space|..] == rest
  {
    assert (space + rest)[..|space|] == space;
    SpaceRunIs(space + rest, |space|);
  }

  lemma AfterWord(word: string, rest: string)
    requires (forall i | 0 <= i < |word| :: !IsSpace(word[i])) && rest != "" && IsSpace(rest[0])
    ensures WordRun(word + rest) == |word| && (word + rest)[|word|..] == rest
  {
    WordRunIs(word + rest, |word|);
  }

  lemma StartOf(front: string, rest: string)
    requires front != ""
    ensures front + rest != "" && (front + rest)[0] == front[0]
  {
  }

  lemma AfterDiff(line: string, a: string, rest: string)
    requires line == "diff" + (a + rest)
    ensures StartsWith(line, "diff") && line[4..] == a + rest && line[4 + |a|..] == rest
  {
    assert line == "diff" + a + rest;
  }

  lemma ShapedIsDiffLine(line: string, a: string, word: string, b: string, rest: string)
    requires HasDiffShape(line, a, word, b, rest)
    ensures IsDiffLine(line)
  {
    hide SpaceRun, WordRun, IsSpace, AllSpace;
    var afterWord := b + rest;
    var afterA := word + afterWord;
    assert line == "diff" + (a + afterA);
    hide HasDiffShape;
    StartOf(word, afterWord);
    StartOf(b, rest);
    assert IsSpace(b[0]) by { IsAllSpace(b); }
    AfterSpace(a, afterA);
    AfterWord(word, afterWord);
    AfterSpace(b, rest);
    AfterDiff(line, a, afterA);
  }

  lemma IsAllSpace(s: string)
    requires AllSpace(s) && s != ""
    ensures IsSpace(s[0])
  {
  }

  lemma {:induction false} WordRunFacts(s: string)
    ensures var k := WordRun(s); (forall i | 0 <= i < k :: !IsSpace(s[i])) && (k < |s| ==> IsSpace(s[k]))
    decreases |s|
  {
    if s != "" && !IsSpace(s[0]) {
      WordRunFacts(s[1..]);
      forall i | 0 <= i < WordRun(s)
        ensures !IsSpace(s[i])
      {
        assert i > 0 ==> s[i] == s[1..][i - 1];
      }
    }
  }

  lemma DiffLineIsShaped(line: string) returns (a: string, word: string, b: string, rest: string)
    requires IsDiffLine(line)
    ensures HasDiffShape(line, a, word, b, rest)
  {
    hide WordRun, IsSpace, AllSpace, SpaceRun;
    var tail := line[4..];
    var i := SpaceRun(tail);
    var tail' := line[4 + i..];
    assert tail' == tail[i..];
    var j := WordRun(tail');
    WordRunFacts(tail');
    var tail'' := tail'[j..];
    var k := SpaceRun(tail'');
    a, word, b, rest := tail[..i], tail'[..j], tail''[..k], tail''[k..];
    Cut(tail'', k);
    Cut(tail', j);
    Cut(tail, i);
    CutDiff(line);
    Regroup("diff", a, word, b, rest);
  }

  lemma Cut(s: string, k: nat)
    requires k <= |s|
    ensures s == s[..k] + s[k..]
  {
  }

  lemma CutDiff(line: string)
    requires StartsWith(line, "diff")
    ensures line == "diff" + line[4..]
  {
  }

  lemma Regroup(front: string, a: string, b: string, c: string, d: string)
    ensures front + (a + (b + (c + d))) == front + a + b + c + d
  {
  }

  /** The reader stops at the announced line, counted from one, unless that lies before the first
      line it looks at or after the last; then it does not stop. */
  lemma StopsAtAnnounced(lines: seq<string>, n: int, i: nat)
    requires n != 0 && i <= |lines|
    ensures FirstStop(lines, Some(n), i) == if i < n <= |lines| then n - 1 else |lines|
  {
    FirstStopIs(lines, Some(n), i, if i < n <= |lines| then n - 1 else |lines|);
  }

  /** Without an announcement, or with that of line zero, it stops at the first diff line. */
  lemma StopsAtDiffLine(lines: seq<string>, start: Option<int>, i: nat, k: nat)
    requires start in {None, Some(0)} && i <= k <= |lines|
    ensures FirstStop(lines, start, i) == k <==> (forall j | i <= j < k :: !IsDiffLine(lines[j])) && (k == |lines| || IsDiffLine(lines[k]))
  {
    hide IsDiffLine;
    if (forall j | i <= j < k :: !IsDiffLine(lines[j])) && (k == |lines| || IsDiffLine(lines[k])) {
      FirstStopIs(lines, start, i, k);
    }
  }

  // ---------------------------------------------------------------------------
  // Numbers
  // ---------------------------------------------------------------------------

  /** Digits with single underscores between them. */
  predicate IsNumeral(s: string) {
    && s != "" && IsDigit(s[0]) && IsDigit(s[|s| - 1])
    && forall i | 0 <= i < |s| :: IsDigit(s[i]) || (s[i] == '_' && 0 < i < |s| - 1 && IsDigit(s[i + 1]))
  }

  function Digits(s: string): string
    decreases |s|
  {
    if s == "" then "" else if s[0] == '_' then Digits(s[1..]) else [s[0]] + Digits(s[1..])
  }

  lemma {:induction false} NumeralIff(s: string, acc: nat)
    ensures ParseDigits(s, acc).Some? <==> IsNumeral(s)
    decreases |s|
  {
    if |s| > 1 && IsDigit(s[0]) {
      var tail := if s[1] == '_' then s[2..] else s[1..];
      NumeralIff(tail, 10 * acc + ((s[0] - '0') as int));
      var d := |s| - |tail|;
      if IsNumeral(tail) {
        forall i | 0 <= i < |s|
          ensures IsDigit(s[i]) || (s[i] == '_' && 0 < i < |s| - 1 && IsDigit(s[i + 1]))
        {
          if i >= d {
            assert s[i] == tail[i - d];
          } else if i == 1 {
            assert s[2] == tail[0];
          }
        }
        assert s[|s| - 1] == tail[|tail| - 1];
      }
      if IsNumeral(s) {
        assert d == 2 ==> |s| > 2 && IsDigit(s[2]);
        assert tail != "";
        assert IsDigit(tail[0]);
        forall i | 0 <= i < |tail|
          ensures IsDigit(tail[i]) || (tail[i] == '_' && 0 < i < |tail| - 1 && IsDigit(tail[i + 1]))
        {
          assert tail[i] == s[i + d];
          if !IsDigit(tail[i]) {
            assert tail[i + 1] == s[i + d + 1];
          }
        }
      }
    }
  }

  /** What follows the first digit of a numeral, and an underscore if there is one. */
  lemma NumeralTail(s: string)
    requires IsNumeral(s) && |s| > 1
    ensures s[1] == '_' ==> IsNumeral(s[2..])
    ensures s[1] != '_' ==> IsNumeral(s[1..])
  {
    NumeralIff(s, 0);
    NumeralIff(if s[1] == '_' then s[2..] else s[1..], (s[0] - '0') as int);
  }

  lemma DigitsStart(s: string)
    requires IsNumeral(s)
    ensures Digits(s) != "" && Digits(s)[0] == s[0]
  {
  }

  /** Underscores make no difference to the value. */
  lemma {:induction false} UnderscoresIgnored(s: string, acc: nat)
    requires IsNumeral(s)
    ensures ParseDigits(s, acc) == ParseDigits(Digits(s), acc)
    decreases |s|
  {
    if |s| == 1 {
      assert s[1..] == "" && Digits(s) == [s[0]] + "" == s;
    } else {
      NumeralTail(s);
      var tail, n := if s[1] == '_' then s[2..] else s[1..], 10 * acc + ((s[0] - '0') as int);
      UnderscoresIgnored(tail, n);
      DigitsStart(tail);
      assert s[1] == '_' ==> s[1..][1..] == s[2..];
      assert Digits(s) == [s[0]] + Digits(tail);
      assert Digits(s)[1..] == Digits(tail) && IsDigit(Digits(s)[1]);
    }
  }

  /** An integer is read with white space around it and with its sign; nothing else is one. */
  lemma IntegerIs(left: string, s: string, right: string)
    requires AllSpace(left) && AllSpace(right) && IsNumeral(s)
    ensures var n := ParseDigits(s, 0);
      && n.Some?
      && ParseInt(left + s + right) == Some(n.value)
      && ParseInt(left + ("+" + s) + right) == Some(n.value)
      && ParseInt(left + ("-" + s) + right) == Some(0 - n.value)
  {
    NumeralIff(s, 0);
    hide Strip, ParseDigits;
    assert IsDigit(s[0]) && IsDigit(s[|s| - 1]);
    NumeralStripped(s);
    hide IsNumeral, IsStripped, AllSpace;
    StripSurrounded(left, s, right);
    StripSurrounded(left, "+" + s, right);
    StripSurrounded(left, "-" + s, right);
    assert ("+" + s)[1..] == s && ("-" + s)[1..] == s;
    assert ("+" + s)[..1] == "+" && ("-" + s)[..1] == "-";
  }

  lemma NumeralStripped(s: string)
    requires IsNumeral(s)
    ensures IsStripped(s) && IsStripped("+" + s) && IsStripped("-" + s)
  {
    assert !IsSpace('+') && !IsSpace('-');
  }

  lemma IntegerIff(s: string)
    ensures ParseInt(s).Some? <==>
      var t := Strip(s); IsNumeral(t) || (t != "" && t[0] in {'+', '-'} && IsNumeral(t[1..]))
  {
    hide Strip;
    var t := Strip(s);
    NumeralIff(t, 0);
    if t != "" {
      NumeralIff(t[1..], 0);
      assert StartsWith(t, "-") <==> t[0] == '-' by { assert t[..1] == [t[0]]; }
      assert StartsWith(t, "+") <==> t[0] == '+' by { assert t[..1] == [t[0]]; }
    }
  }
}
