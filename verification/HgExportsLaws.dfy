/** Reading back printed patches, and what the reader does with arbitrary text. */
module HgExportsLaws {

  import opened Options
  import opened Text
  import opened HgExports

  // ---------------------------------------------------------------------------
  // Arbitrary patches: header, description and diff partition the text
  // ---------------------------------------------------------------------------

  /** The announced start line lies inside the header block. */
  predicate StartsInHeader(start: Option<int>, end: nat) {
    start.Some? && 1 <= start.value <= end
  }

  lemma HeaderLineNoDiffLine(line: string)
    ensures IsHeaderLine(line) ==> !IsDiffLine(line)
  {
    assert StartsWith(line, "# ") ==> line[0] == "# "[0];
    assert StartsWith(line, "diff") ==> line[0] == "diff"[0];
  }

  lemma StopOutsideHeader(lines: seq<string>, start: Option<int>)
    requires !StartsInHeader(start, HeaderEnd(lines))
    ensures FirstStop(lines, start, 0) == FirstStop(lines, start, HeaderEnd(lines))
  {
    var end := HeaderEnd(lines);
    var k := FirstStop(lines, start, end);
    forall j | 0 <= j < k
      ensures !StopsAt(start, lines[j], j)
    {
      if j < end {
        HeaderLineNoDiffLine(lines[j]);
      }
    }
    FirstStopIs(lines, start, 0, k);
  }

  lemma StopInsideHeader(lines: seq<string>, start: Option<int>)
    requires StartsInHeader(start, HeaderEnd(lines))
    ensures FirstStop(lines, start, 0) == start.value - 1
    ensures FirstStop(lines, start, HeaderEnd(lines)) == |lines|
  {
    FirstStopIs(lines, start, 0, start.value - 1);
    FirstStopIs(lines, start, HeaderEnd(lines), |lines|);
  }

  lemma ConcatCut(lines: seq<string>, i: nat)
    requires i <= |lines|
    ensures Concat(lines) == Concat(lines[..i]) + Concat(lines[i..])
  {
    hide Concat;
    assert lines == lines[..i] + lines[i..];
    ConcatAppend(lines[..i], lines[i..]);
  }

  lemma ConcatSplit(lines: seq<string>, i: nat, j: nat)
    requires i <= j <= |lines|
    ensures Concat(lines) == Concat(lines[..i]) + Concat(lines[i..j]) + Concat(lines[j..])
  {
    hide Concat;
    ConcatCut(lines, j);
    ConcatCut(lines[..j], i);
    assert lines[..j][..i] == lines[..i] && lines[..j][i..] == lines[i..j];
  }

  /** For any text: the header lines, the description before stripping and the diff concatenate to
      exactly the text if and only if no start line inside the header block is announced. */
  lemma PartitionIff(text: string)
    ensures var lines := Lines(text);
      var end := HeaderEnd(lines);
      Concat(lines[..end]) + Concat(DescriptionLines(lines)) + Concat(DiffLines(lines)) == text
      <==> !StartsInHeader(DiffStartLine(Headers(lines[..end])), end)
  {
    hide Headers, DiffStartLine, Lines, HeaderEnd, FirstStop, StopsAt, Concat;
    var lines := Lines(text);
    var end := HeaderEnd(lines);
    var start := DiffStartLine(Headers(lines[..end]));
    ConcatLines(text);
    if StartsInHeader(start, end) {
      StopInsideHeader(lines, start);
      ConcatSplit(lines, end, |lines|);
      assert lines[|lines|..] == [];
      NoLines();
      var diff := DiffLines(lines);
      LinesNotEmpty(text, start.value - 1);
      assert diff == [lines[start.value - 1]] + lines[start.value..];
      ConcatCons(lines[start.value - 1], lines[start.value..]);
      assert |Concat(diff)| > 0;
      assert |Concat(lines[..end]) + Concat(DescriptionLines(lines)) + Concat(DiffLines(lines))| > |text|;
    } else {
      StopOutsideHeader(lines, start);
      ConcatSplit(lines, end, FirstStop(lines, start, end));
    }
  }

  // ---------------------------------------------------------------------------
  // Numbers
  // ---------------------------------------------------------------------------

  lemma {:induction false} DecimalDigits(n: nat)
    ensures Decimal(n) != "" && forall i | 0 <= i < |Decimal(n)| :: IsDigit(Decimal(n)[i])
  {
    if n >= 10 {
      DecimalDigits(n / 10);
    }
  }

  lemma {:induction false} ParseDigitsSnoc(s: string, d: nat, acc: nat)
    requires s != "" && d < 10 && forall i | 0 <= i < |s| :: IsDigit(s[i])
    ensures ParseDigits(s, acc).Some? && ParseDigits(s + [DIGITS[d]], acc) == Some(10 * ParseDigits(s, acc).value + d)
    decreases |s|
  {
    var t := s + [DIGITS[d]];
    if |s| == 1 {
      assert t[1..] == [DIGITS[d]];
      assert IsDigit(DIGITS[d]) && (DIGITS[d] - '0') as int == d;
    } else {
      assert t[1..] == s[1..] + [DIGITS[d]];
      assert IsDigit(s[1]);
      ParseDigitsSnoc(s[1..], d, 10 * acc + ((s[0] - '0') as int));
    }
  }

  lemma {:induction false} ParseDecimalDigits(n: nat)
    ensures ParseDigits(Decimal(n), 0) == Some(n)
  {
    if n >= 10 {
      ParseDecimalDigits(n / 10);
      DecimalDigits(n / 10);
      ParseDigitsSnoc(Decimal(n / 10), n % 10, 0);
    } else {
      assert IsDigit(DIGITS[n]) && (DIGITS[n] - '0') as int == n;
    }
  }

  lemma ParseDecimal(n: nat)
    ensures Strip(Decimal(n)) == Decimal(n) && ParseInt(Decimal(n)) == Some(n)
  {
    var s := Decimal(n);
    DecimalDigits(n);
    ParseDecimalDigits(n);
    assert IsDigit(s[0]) && IsDigit(s[|s| - 1]);
    StripSurrounded("", s, "");
    assert "" + s + "" == s;
  }

  // ---------------------------------------------------------------------------
  // Header lines
  // ---------------------------------------------------------------------------

  lemma {:induction false} SpaceRunIs(s: string, k: nat)
    requires k <= |s| && AllSpace(s[..k]) && (k < |s| ==> !IsSpace(s[k]))
    ensures SpaceRun(s) == k
    decreases |s|
  {
    if k > 0 {
      assert s[..k][0] == s[0];
      assert s[1..][..k - 1] == s[..k][1..];
      SpaceRunIs(s[1..], k - 1);
    }
  }

  /** After "# " and a first character that is not white space, names are looked for. */
  lemma HeaderValueOf(rest: string, name: string)
    requires rest != "" && !IsSpace(rest[0])
    ensures HeaderValue("# " + rest, name) ==
      if MatchesIgnoringCase(rest, name) && |rest| > |name| && IsSpace(rest[|name|]) then Some(Strip(rest[|name|..])) else None
  {
    var line := "# " + rest;
    assert line[1..] == " " + rest;
    SpaceRunIs(line[1..], 1);
    assert line[2..] == rest;
  }

  lemma HeaderValueFound(name: string, value: string)
    requires name != "" && !IsSpace(name[0])
    ensures HeaderValue("# " + name + " " + value + "\n", name) == Some(Strip(value))
  {
    hide HeaderValue, Strip;
    var rest := name + " " + value + "\n";
    assert "# " + name + " " + value + "\n" == "# " + rest;
    HeaderValueOf(rest, name);
    assert rest[|name|..] == " " + value + "\n";
    StripIgnores(" ", value, "\n");
  }

  lemma UserLine(value: string)
    requires Strip(value) != ""
    ensures NamedValue("# User " + value + "\n", HEADER_NAMES) == Some(("User", Strip(value)))
  {
    assert "# User " + value + "\n" == "# " + "User" + " " + value + "\n";
    HeaderValueFound("User", value);
  }

  lemma DateLine(value: string)
    requires Strip(value) != ""
    ensures NamedValue("# Date " + value + "\n", HEADER_NAMES) == Some(("Date", Strip(value)))
  {
    hide HeaderValue, Strip;
    var line, rest := "# Date " + value + "\n", "Date " + value + "\n";
    assert line == "# " + "Date" + " " + value + "\n" && line == "# " + rest;
    HeaderValueFound("Date", value);
    OtherName(rest, "User", 0);
    SkipNames(line, HEADER_NAMES, 1);
    assert HEADER_NAMES[1..][0] == "Date";
  }

  /** A name that starts with another letter gets no value from the line. */
  lemma OtherName(rest: string, name: string, k: nat)
    requires rest != "" && !IsSpace(rest[0]) && k < |name| && k < |rest| && Lower(rest[k]) != Lower(name[k])
    ensures HeaderValue("# " + rest, name) == None
  {
    HeaderValueOf(rest, name);
  }

  lemma SkipNames(line: string, names: seq<string>, k: nat)
    requires k < |names| && forall i | 0 <= i < k :: HeaderValue(line, names[i]) == None
    ensures NamedValue(line, names) == NamedValue(line, names[k..])
    decreases |names|
  {
    hide HeaderValue;
    if k == 0 {
      assert names[0..] == names;
    } else {
      assert HeaderValue(line, names[0]) == None;
      SkipNames(line, names[1..], k - 1);
      assert names[1..][k - 1..] == names[k..];
    }
  }

  lemma DiffStartLineLine(value: string)
    requires Strip(value) != ""
    ensures NamedValue("# Diff Start Line " + value + "\n", HEADER_NAMES) == Some(("Diff Start Line", Strip(value)))
  {
    hide HeaderValue, Strip;
    var line, rest := "# Diff Start Line " + value + "\n", "Diff Start Line " + value + "\n";
    assert line == "# " + "Diff Start Line" + " " + value + "\n" && line == "# " + rest;
    HeaderValueFound("Diff Start Line", value);
    OtherName(rest, "User", 0);
    OtherName(rest, "Date", 1);
    OtherName(rest, "Node ID", 0);
    OtherName(rest, "Parent", 0);
    SkipNames(line, HEADER_NAMES, 4);
    assert HEADER_NAMES[4..][0] == "Diff Start Line";
  }

  lemma TitleLine()
    ensures NamedValue("# HG changeset patch\n", HEADER_NAMES) == None
  {
    hide HeaderValue, Strip;
    var line, rest := "# HG changeset patch\n", "HG changeset patch\n";
    assert line == "# " + rest;
    OtherName(rest, "User", 0);
    OtherName(rest, "Date", 0);
    OtherName(rest, "Node ID", 0);
    OtherName(rest, "Parent", 0);
    OtherName(rest, "Diff Start Line", 0);
    OtherName(rest, "Fail HG Import", 0);
    SkipNames(line, HEADER_NAMES, 5);
    assert HEADER_NAMES[5..] == ["Fail HG Import"] && HEADER_NAMES[5..][1..] == [];
  }

  // ---------------------------------------------------------------------------
  // Printing, then reading
  // ---------------------------------------------------------------------------

  lemma {:induction false} ConcatNoLineBreak(lines: seq<string>)
    requires forall i | 0 <= i < |lines| :: NoLineBreak(lines[i])
    ensures NoLineBreak(Concat(lines))
    decreases |lines|
  {
    if lines != [] {
      ConcatNoLineBreak(lines[1..]);
    }
  }

  /** Nothing that was removed of its line breaks can start another line. */
  lemma NoLineBreaksHasNone(s: string)
    ensures NoLineBreak(NoLineBreaks(s))
  {
    forall i | 0 <= i < |SplitLines(Strip(s))|
      ensures NoLineBreak(SplitLines(Strip(s))[i])
    {
      SplitLinesNoBreak(Strip(s), i);
    }
    ConcatNoLineBreak(SplitLines(Strip(s)));
  }

  lemma HeaderLinesNoNewline(name: string, email: string, timestamp: string, n: nat, i: nat)
    requires i < HEADER_LENGTH
    ensures NoNewline(HeaderLines(name, email, timestamp, n)[i])
  {
    NoLineBreaksHasNone(name);
    NoLineBreaksHasNone(email);
    NoLineBreaksHasNone(timestamp + " +0000");
    DecimalDigits(n);
    hide NoLineBreaks, Decimal;
  }

  /** The user and date headers that a printed patch carries. */
  function UserHeader(name: string, email: string): string {
    Strip(NoLineBreaks(name) + " <" + NoLineBreaks(email) + ">")
  }

  function DateHeader(timestamp: string): string {
    Strip(NoLineBreaks(timestamp + " +0000"))
  }

  lemma StripKeepsEnd(s: string)
    requires s != "" && !IsSpace(s[|s| - 1])
    ensures Strip(s) != ""
  {
    var l, r := StripFacts(s);
  }

  lemma {:induction false} ConcatEnd(lines: seq<string>)
    requires lines != [] && lines[|lines| - 1] != ""
    ensures var last := lines[|lines| - 1];
      Concat(lines) != "" && Concat(lines)[|Concat(lines)| - 1] == last[|last| - 1]
    decreases |lines|
  {
    if |lines| > 1 {
      ConcatEnd(lines[1..]);
    } else {
      assert Concat(lines) == lines[0] + "";
    }
  }

  lemma HeaderValuesNotEmpty(name: string, email: string, timestamp: string)
    ensures UserHeader(name, email) != "" && DateHeader(timestamp) != ""
  {
    hide Strip, SplitLines, Concat;
    StripKeepsEnd(NoLineBreaks(name) + " <" + NoLineBreaks(email) + ">");
    var x := timestamp + " +0000";
    StripKeepsEnd(x);
    var l, r := StripFacts(x);
    SplitLinesEnds(Strip(x));
    ConcatEnd(SplitLines(Strip(x)));
    StripKeepsEnd(NoLineBreaks(x));
  }

  lemma PrintedHeaderLines(name: string, email: string, timestamp: string, n: nat)
    ensures var lines := Terminate(HeaderLines(name, email, timestamp, n), "\n");
      && lines[0] == "# HG changeset patch\n"
      && lines[1] == "# User " + (NoLineBreaks(name) + " <" + NoLineBreaks(email) + ">") + "\n"
      && lines[2] == "# Date " + NoLineBreaks(timestamp + " +0000") + "\n"
      && lines[3] == "# Diff Start Line " + Decimal(n) + "\n"
  {
    hide NoLineBreaks, Decimal;
    assert "# HG changeset patch" + "\n" == "# HG changeset patch\n";
  }

  /** The headers of a printed patch, as they are read back. */
  lemma PrintedHeaders(name: string, email: string, timestamp: string, n: nat)
    ensures Headers(Terminate(HeaderLines(name, email, timestamp, n), "\n")) ==
      map["User" := UserHeader(name, email), "Date" := DateHeader(timestamp), "Diff Start Line" := Decimal(n)]
    ensures DiffStartLine(Headers(Terminate(HeaderLines(name, email, timestamp, n), "\n"))) == Some(n)
  {
    hide NamedValue, NoLineBreaks, Decimal, Strip, ParseInt, Headers, HeaderLines;
    var lines := Terminate(HeaderLines(name, email, timestamp, n), "\n");
    PrintedHeaderLines(name, email, timestamp, n);
    HeaderValuesNotEmpty(name, email, timestamp);
    ParseDecimal(n);
    DecimalDigits(n);
    TitleLine();
    UserLine(NoLineBreaks(name) + " <" + NoLineBreaks(email) + ">");
    DateLine(NoLineBreaks(timestamp + " +0000"));
    DiffStartLineLine(Decimal(n));
    HeadersOfFour(lines, ("User", UserHeader(name, email)), ("Date", DateHeader(timestamp)), ("Diff Start Line", Decimal(n)));
  }

  lemma HeadersOfFour(lines: seq<string>, a: (string, string), b: (string, string), c: (string, string))
    requires |lines| == 4 && NamedValue(lines[0], HEADER_NAMES) == None && NamedValue(lines[1], HEADER_NAMES) == Some(a)
    requires NamedValue(lines[2], HEADER_NAMES) == Some(b) && NamedValue(lines[3], HEADER_NAMES) == Some(c)
    ensures Headers(lines) == map[a.0 := a.1, b.0 := b.1, c.0 := c.1]
  {
    hide NamedValue, Headers;
    HeadersSnoc(lines, 0);
    HeadersSnoc(lines, 1);
    HeadersSnoc(lines, 2);
    HeadersSnoc(lines, 3);
    NoLines();
    assert lines[..0] == [] && lines[..4] == lines;
  }

  /** The lines of a printed patch with a non-empty message. */
  function PrintedLines(diff: string, name: string, email: string, message: string, timestamp: string): seq<string> {
    var lines := MessageLines(message);
    Terminate(HeaderLines(name, email, timestamp, |lines| + HEADER_LENGTH + 1), "\n") + Terminate(lines, "\n") + ["\n"] + Lines(diff)
  }

  lemma PrintedLinesAre(diff: string, name: string, email: string, message: string, timestamp: string)
    requires MessageLines(message) != []
    ensures Lines(BuildPatch(diff, name, email, message, timestamp)) == PrintedLines(diff, name, email, message, timestamp)
  {
    hide Lines, Concat, Join, NoLineBreaks, Decimal, SplitLines, Strip, HeaderLines;
    var lines := MessageLines(message);
    var n := |lines| + HEADER_LENGTH + 1;
    var header := HeaderLines(name, email, timestamp, n);
    forall i | 0 <= i < |header|
      ensures NoNewline(header[i])
    {
      HeaderLinesNoNewline(name, email, timestamp, n, i);
    }
    forall i | 0 <= i < |lines|
      ensures NoNewline(lines[i])
    {
      SplitLinesNoBreak(Strip(message), i);
    }
    JoinTerminated("\n", header);
    JoinTerminated("\n", lines);
    var text := BuildPatch(diff, name, email, message, timestamp);
    var body := Concat(Terminate(lines, "\n")) + ("\n" + diff);
    assert text == Concat(Terminate(header, "\n")) + body;
    LinesAppend(header, body);
    LinesAppend(lines, "\n" + diff);
    assert "" + "\n" + diff == "\n" + diff;
    LinesCons("", diff);
    assert "" + "\n" == "\n";
  }

  lemma PrintedHeaderEnd(diff: string, name: string, email: string, message: string, timestamp: string)
    requires MessageLines(message) != []
    ensures var printed := PrintedLines(diff, name, email, message, timestamp);
      && HEADER_LENGTH <= HeaderEnd(printed)
      && (HeaderEnd(printed) == HEADER_LENGTH <==> !IsHeaderLine(MessageLines(message)[0]))
      && printed[..HEADER_LENGTH] == Terminate(HeaderLines(name, email, timestamp, |MessageLines(message)| + HEADER_LENGTH + 1), "\n")
  {
    hide Lines, Concat, NoLineBreaks, Decimal, SplitLines, Strip, IsHeaderLine;
    var lines := MessageLines(message);
    var printed := PrintedLines(diff, name, email, message, timestamp);
    assert printed[0] == "# HG changeset patch" + "\n";
    forall i | 0 <= i < HEADER_LENGTH
      ensures IsHeaderLine(printed[i])
    {
      assert printed[i][0] == '#' && printed[i][1] == ' ';
      HashSpace(printed[i]);
    }
    assert printed[4] == lines[0] + "\n";
    HashSpace(printed[4]);
    HashSpace(lines[0]);
  }

  /** The message with the white space around it gone and all its line breaks made equal. */
  function Normalised(message: string): string {
    Join("\n", MessageLines(message))
  }

  lemma {:induction false} JoinEnds(lines: seq<string>)
    requires lines != [] && lines[0] != "" && lines[|lines| - 1] != ""
    ensures var last, joined := lines[|lines| - 1], Join("\n", lines);
      joined != "" && joined[0] == lines[0][0] && joined[|joined| - 1] == last[|last| - 1]
  {
    if |lines| == 2 {
      assert Join("\n", lines) == lines[0] + "\n" + lines[1];
    } else if |lines| > 2 {
      JoinLast(lines[1..]);
    }
  }

  lemma {:induction false} JoinLast(lines: seq<string>)
    requires lines != [] && lines[|lines| - 1] != ""
    ensures var last, joined := lines[|lines| - 1], Join("\n", lines);
      joined != "" && joined[|joined| - 1] == last[|last| - 1]
    decreases |lines|
  {
    if |lines| > 1 {
      JoinLast(lines[1..]);
    }
  }

  lemma MessageNotEmpty(message: string)
    requires Strip(message) != ""
    ensures MessageLines(message) != [] && Normalised(message) != "" && IsStripped(Normalised(message))
  {
    var l, r := StripFacts(message);
    SplitLinesEnds(Strip(message));
    JoinEnds(MessageLines(message));
  }

  /** What the reader returns for a printed patch whose message does not look like a header. */
  lemma PrintThenRead(diff: string, name: string, email: string, message: string, timestamp: string)
    requires Strip(message) != "" && !IsHeaderLine(MessageLines(message)[0])
    ensures var lines := Lines(BuildPatch(diff, name, email, message, timestamp));
      && Strip(Concat(DescriptionLines(lines))) == Normalised(message)
      && Concat(DiffLines(lines)) == "\n" + diff
      && Headers(lines[..HeaderEnd(lines)]) == map["User" := UserHeader(name, email), "Date" := DateHeader(timestamp),
           "Diff Start Line" := Decimal(|MessageLines(message)| + HEADER_LENGTH + 1)]
  {
    hide Lines, Concat, Join, NoLineBreaks, Decimal, SplitLines, Strip, HeaderLines, Headers, HeaderEnd, DiffStartLine, FirstStop;
    MessageNotEmpty(message);
    PrintedLinesAre(diff, name, email, message, timestamp);
    PrintedHeaderEnd(diff, name, email, message, timestamp);
    var m := MessageLines(message);
    var n := |m| + HEADER_LENGTH + 1;
    PrintedHeaders(name, email, timestamp, n);
    var lines := PrintedLines(diff, name, email, message, timestamp);
    FirstStopIs(lines, Some(n), HEADER_LENGTH, n - 1);
    FirstStopIs(lines, Some(n), 0, n - 1);
    assert lines[HEADER_LENGTH..n - 1] == Terminate(m, "\n");
    JoinTerminated("\n", m);
    StripSurrounded("", Normalised(message), "\n");
    assert "" + Normalised(message) + "\n" == Normalised(message) + "\n";
    assert lines[n - 1..] == ["\n"] + Lines(diff);
    ConcatCons("\n", Lines(diff));
    ConcatLines(diff);
  }

  lemma ConcatPart(lines: seq<string>, i: nat, j: nat)
    requires i <= j <= |lines|
    ensures |Concat(lines[i..j])| <= |Concat(lines)|
  {
    hide Concat;
    ConcatSplit(lines, i, j);
  }

  /** A description that starts after the first message line is shorter than the message. */
  lemma CutDescription(message: string, header: seq<string>, end: nat, stop: nat)
    requires MessageLines(message) != [] && |MessageLines(message)[0]| >= 2
    requires |header| < end <= stop <= |header| + |MessageLines(message)| + 1
    ensures |Concat((header + Terminate(MessageLines(message), "\n") + ["\n"])[end..stop])| < |Normalised(message)|
  {
    hide Concat, Join, MessageLines;
    var m, h := MessageLines(message), |header|;
    var lines := header + Terminate(m, "\n") + ["\n"];
    var rest := Terminate(m[1..], "\n") + ["\n"];
    assert lines[end..stop] == rest[end - h - 1..stop - h - 1];
    ConcatPart(rest, end - h - 1, stop - h - 1);
    ConcatAppend(Terminate(m[1..], "\n"), ["\n"]);
    ConcatCons("\n", []);
    NoLines();
    assert ["\n"] + [] == ["\n"];
    assert Terminate(m, "\n") == [m[0] + "\n"] + Terminate(m[1..], "\n");
    ConcatCons(m[0] + "\n", Terminate(m[1..], "\n"));
    JoinTerminated("\n", m);
  }

  lemma {:induction false} ConcatNotEmpty(lines: seq<string>)
    requires lines != [] && forall i | 0 <= i < |lines| :: lines[i] != ""
    ensures Concat(lines) != ""
    decreases |lines|
  {
    assert lines == [lines[0]] + lines[1..];
    ConcatCons(lines[0], lines[1..]);
  }

  /** Of lines that are not empty, the text from a line on tells which line it is. */
  lemma SuffixTells(lines: seq<string>, i: nat, j: nat)
    requires i <= j <= |lines| && Concat(lines[i..]) == Concat(lines[j..])
    requires forall k | 0 <= k < |lines| :: lines[k] != ""
    ensures i == j
  {
    hide Concat;
    ConcatCut(lines[i..], j - i);
    assert lines[i..][j - i..] == lines[j..];
    if i < j {
      ConcatNotEmpty(lines[i..][..j - i]);
    }
  }

  /** A reader that finds the exact diff has stopped right after the message; then, if the header
      block runs into the message, the description has lost its first line. */
  lemma ExactDiffCutsMessage(lines: seq<string>, start: Option<int>, stop: nat)
    requires FirstStop(lines, start, 0) == stop && HeaderEnd(lines) <= stop < |lines|
    ensures FirstStop(lines, start, HeaderEnd(lines)) == stop
  {
    hide StopsAt;
    if StartsInHeader(start, HeaderEnd(lines)) {
      StopInsideHeader(lines, start);
    } else {
      StopOutsideHeader(lines, start);
    }
  }

  lemma PrintedNotEmpty(diff: string, name: string, email: string, message: string, timestamp: string)
    ensures var lines := PrintedLines(diff, name, email, message, timestamp);
      forall k | 0 <= k < |lines| :: lines[k] != ""
  {
    hide HeaderLines, MessageLines, Lines;
    var lines := PrintedLines(diff, name, email, message, timestamp);
    forall k | 0 <= k < |lines|
      ensures lines[k] != ""
    {
      var n := |MessageLines(message)| + HEADER_LENGTH + 1;
      if k >= n {
        LinesNotEmpty(diff, k - n);
        assert lines[k] == Lines(diff)[k - n];
      }
    }
  }

  /** The header block ends before the empty line that follows the message. */
  lemma HeaderEndsBefore(diff: string, name: string, email: string, message: string, timestamp: string)
    ensures HeaderEnd(PrintedLines(diff, name, email, message, timestamp)) <= HEADER_LENGTH + |MessageLines(message)|
  {
    hide HeaderLines, MessageLines, Lines, IsHeaderLine;
    var lines := PrintedLines(diff, name, email, message, timestamp);
    HashSpace("\n");
    assert lines[HEADER_LENGTH + |MessageLines(message)|] == "\n";
  }

  /** If the message starts like a header line, that line is taken for a header: whatever the diff
      is, either the message comes back without it, or the diff does not come back. */
  lemma HeaderLikeMessageIsCut(diff: string, name: string, email: string, message: string, timestamp: string)
    requires Strip(message) != "" && IsHeaderLine(MessageLines(message)[0])
    ensures !ReadsBack(diff, name, email, message, timestamp)
  {
    hide Lines, Concat, Join, MessageLines, Strip, HeaderLines, Headers, HeaderEnd, DiffStartLine, FirstStop, BuildPatch, Normalised, IsHeaderLine;
    MessageNotEmpty(message);
    PrintedLinesAre(diff, name, email, message, timestamp);
    PrintedHeaderEnd(diff, name, email, message, timestamp);
    PrintedNotEmpty(diff, name, email, message, timestamp);
    HeaderEndsBefore(diff, name, email, message, timestamp);
    HashSpace(MessageLines(message)[0]);
    var lines, m := PrintedLines(diff, name, email, message, timestamp), |MessageLines(message)|;
    var end, header := HeaderEnd(lines), lines[..HEADER_LENGTH];
    var start := DiffStartLine(Headers(lines[..end]));
    var stop, front := FirstStop(lines, start, 0), header + Terminate(MessageLines(message), "\n") + ["\n"];
    assert lines == front + Lines(diff);
    DiffAfterMessage(lines, diff, HEADER_LENGTH + m);
    if Concat(DiffLines(lines)) == "\n" + diff {
      var k := HEADER_LENGTH + m;
      SuffixTells(lines, if stop <= k then stop else k, if stop <= k then k else stop);
      ExactDiffCutsMessage(lines, start, k);
      assert DescriptionLines(lines) == lines[end..k] == front[end..k];
      CutDescription(message, header, end, k);
      StripNoLonger(Concat(front[end..k]));
    }
  }

  lemma DiffAfterMessage(lines: seq<string>, diff: string, k: nat)
    requires k <= |lines| && lines[k..] == ["\n"] + Lines(diff)
    ensures Concat(lines[k..]) == "\n" + diff
  {
    hide Concat, Lines;
    ConcatCons("\n", Lines(diff));
    ConcatLines(diff);
  }

  /** Printing and reading back, for any diff and any message that is not blank: the reader returns
      the normalised message, and the exact diff after one empty line, if and only if the message
      does not start like a header line. Lines of the message that look like the start of a diff do
      no harm. */
  lemma RoundTripIff(diff: string, name: string, email: string, message: string, timestamp: string)
    requires Strip(message) != ""
    ensures MessageLines(message) != []
    ensures ReadsBack(diff, name, email, message, timestamp) <==> !IsHeaderLine(MessageLines(message)[0])
  {
    hide Lines, Concat, SplitLines, Strip, DescriptionLines, DiffLines, BuildPatch, MessageLines, IsHeaderLine;
    MessageNotEmpty(message);
    if IsHeaderLine(MessageLines(message)[0]) {
      HeaderLikeMessageIsCut(diff, name, email, message, timestamp);
    } else {
      PrintThenRead(diff, name, email, message, timestamp);
    }
  }

  ghost predicate ReadsBack(diff: string, name: string, email: string, message: string, timestamp: string) {
    var lines := Lines(BuildPatch(diff, name, email, message, timestamp));
    && Strip(Concat(DescriptionLines(lines))) == Normalised(message)
    && Concat(DiffLines(lines)) == "\n" + diff
  }

  /** A blank message comes back as the empty one, but the diff with one more empty line. */
  lemma BlankMessage(diff: string, name: string, email: string, message: string, timestamp: string)
    requires Strip(message) == ""
    ensures var lines := Lines(BuildPatch(diff, name, email, message, timestamp));
      && Strip(Concat(DescriptionLines(lines))) == ""
      && Concat(DiffLines(lines)) == "\n\n" + diff
  {
    hide Lines, Concat, NoLineBreaks, Decimal, Strip, HeaderLines, Headers, HeaderEnd, DiffStartLine, FirstStop;
    assert MessageLines(message) == [];
    var n := HEADER_LENGTH + 1;
    var header := HeaderLines(name, email, timestamp, n);
    forall i | 0 <= i < |header|
      ensures NoNewline(header[i])
    {
      HeaderLinesNoNewline(name, email, timestamp, n, i);
    }
    JoinTerminated("\n", header);
    hide Join;
    var text := BuildPatch(diff, name, email, message, timestamp);
    assert text == Concat(Terminate(header, "\n")) + ("\n\n" + diff) by {
      JoinNothing();
    }
    LinesAppend(header, "\n\n" + diff);
    assert "\n\n" + diff == "" + "\n" + ("\n" + diff);
    LinesCons("", "\n" + diff);
    assert "\n" + diff == "" + "\n" + diff;
    LinesCons("", diff);
    assert "" + "\n" == "\n";
    var lines := Terminate(header, "\n") + ["\n", "\n"] + Lines(diff);
    assert Lines(text) == lines;
    BlankHeaderEnd(header, lines, name, email, timestamp);
    PrintedHeaders(name, email, timestamp, n);
    assert lines[..HEADER_LENGTH] == Terminate(header, "\n");
    FirstStopIs(lines, Some(n), HEADER_LENGTH, n - 1);
    FirstStopIs(lines, Some(n), 0, n - 1);
    assert lines[HEADER_LENGTH..n - 1] == [];
    NoLines();
    JoinNothing();
    assert lines[n - 1..] == ["\n"] + (["\n"] + Lines(diff));
    ConcatCons("\n", ["\n"] + Lines(diff));
    ConcatCons("\n", Lines(diff));
    ConcatLines(diff);
  }

  lemma JoinNothing()
    ensures Join("\n", []) == "" && Strip("") == ""
  {
  }

  lemma BlankHeaderEnd(header: seq<string>, lines: seq<string>, name: string, email: string, timestamp: string)
    requires header == HeaderLines(name, email, timestamp, HEADER_LENGTH + 1)
    requires |lines| > HEADER_LENGTH && lines[..HEADER_LENGTH] == Terminate(header, "\n") && lines[HEADER_LENGTH] == "\n"
    ensures HeaderEnd(lines) == HEADER_LENGTH
  {
    hide NoLineBreaks, Decimal, IsHeaderLine;
    forall i | 0 <= i < HEADER_LENGTH
      ensures IsHeaderLine(lines[i])
    {
      assert lines[i] == lines[..HEADER_LENGTH][i] == header[i] + "\n";
      assert header[i][0] == '#' && header[i][1] == ' ';
      HashSpace(header[i] + "\n");
    }
    HashSpace("\n");
    HeaderEndIs(lines, HEADER_LENGTH);
  }

  lemma HashSpace(line: string)
    ensures IsHeaderLine(line) <==> |line| >= 2 && line[0] == '#' && line[1] == ' '
  {
    assert "# " <= line <==> |line| >= 2 && line[0] == '#' && line[1] == ' ';
  }
}
