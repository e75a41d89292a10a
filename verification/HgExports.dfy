/** Printing a patch in `hg export` format, and reading it back from a stream. */
module HgExports {

  import opened Options
  import opened Text

  // ---------------------------------------------------------------------------
  // Printing
  // ---------------------------------------------------------------------------

  const DIGITS := "0123456789"

  function Decimal(n: nat): string {
    if n < 10 then [DIGITS[n]] else Decimal(n / 10) + [DIGITS[n % 10]]
  }

  /** Strips a text and joins its lines without line breaks. */
  function NoLineBreaks(s: string): string {
    Concat(SplitLines(Strip(s)))
  }

  function MessageLines(message: string): seq<string> {
    SplitLines(Strip(message))
  }

  const HEADER_LENGTH := 4

  /** The four header lines, which announce the line on which the diff starts. */
  function HeaderLines(name: string, email: string, timestamp: string, diffStartLine: nat): (r: seq<string>)
    ensures |r| == HEADER_LENGTH
  {
    [
      "# HG changeset patch",
      "# User " + (NoLineBreaks(name) + " <" + NoLineBreaks(email) + ">"),
      "# Date " + NoLineBreaks(timestamp + " +0000"),
      "# Diff Start Line " + Decimal(diffStartLine)
    ]
  }

  function BuildPatch(diff: string, name: string, email: string, message: string, timestamp: string): string {
    var lines := MessageLines(message);
    Join("\n", HeaderLines(name, email, timestamp, |lines| + HEADER_LENGTH + 1)) + "\n" + Join("\n", lines) + "\n\n" + diff
  }

  // ---------------------------------------------------------------------------
  // Header values and diff lines
  // ---------------------------------------------------------------------------

  const HEADER_NAMES: seq<string> := ["User", "Date", "Node ID", "Parent", "Diff Start Line", "Fail HG Import"]

  function Lower(c: char): char {
    if 'A' <= c <= 'Z' then c - 'A' + 'a' else c
  }

  predicate MatchesIgnoringCase(s: string, prefix: string) {
    |prefix| <= |s| && forall i | 0 <= i < |prefix| :: Lower(s[i]) == Lower(prefix[i])
  }

  /** The number of white space characters at the start. */
  function SpaceRun(s: string): (k: nat)
    ensures k <= |s| && AllSpace(s[..k]) && (k < |s| ==> !IsSpace(s[k]))
    decreases |s|
  {
    if s == "" || !IsSpace(s[0]) then 0
    else
      var k := 1 + SpaceRun(s[1..]);
      assert s[..k] == [s[0]] + s[1..][..k - 1];
      k
  }

  /** The value of a header line `# name value`, names being compared without regard to case. */
  function HeaderValue(line: string, name: string): Option<string> {
    if !StartsWith(line, "#") then
      None
    else
      var k := SpaceRun(line[1..]);
      var rest := line[1 + k..];
      if k == 0 || !MatchesIgnoringCase(rest, name) || |rest| == |name| || !IsSpace(rest[|name|])
      then None
      else Some(Strip(rest[|name|..]))
  }

  /** The first of the names, in their order, that the line gives a value to. */
  function NamedValue(line: string, names: seq<string>): Option<(string, string)>
    decreases |names|
  {
    if names == [] then
      None
    else
      var v := HeaderValue(line, names[0]);
      if v.Some? && v.value != "" then Some((names[0], v.value)) else NamedValue(line, names[1..])
  }

  predicate IsHeaderLine(line: string) {
    StartsWith(line, "# ")
  }

  /** `^diff\s+\S+\s+\S+` */
  predicate IsDiffLine(line: string) {
    && StartsWith(line, "diff")
    && var a := SpaceRun(line[4..]);
      var word := line[4 + a..];
      var b := WordRun(word);
      var c := SpaceRun(word[b..]);
      a > 0 && b > 0 && c > 0 && b + c < |word|
  }

  /** The number of characters at the start that are not white space. */
  function WordRun(s: string): (k: nat)
    ensures k <= |s|
    decreases |s|
  {
    if s == "" || IsSpace(s[0]) then 0 else 1 + WordRun(s[1..])
  }

  // ---------------------------------------------------------------------------
  // Python's `int`
  // ---------------------------------------------------------------------------

  predicate IsDigit(c: char) {
    '0' <= c <= '9'
  }

  /** Digits, with single underscores allowed between them; `acc` is what was read before. */
  function ParseDigits(s: string, acc: nat): Option<nat>
    decreases |s|
  {
    if s == "" || !IsDigit(s[0]) then
      None
    else
      var n := 10 * acc + ((s[0] - '0') as int);
      if |s| == 1 then Some(n)
      else if s[1] == '_' then ParseDigits(s[2..], n)
      else ParseDigits(s[1..], n)
  }

  function ParseInt(s: string): Option<int> {
    var t := Strip(s);
    if StartsWith(t, "-") then
      var n := ParseDigits(t[1..], 0);
      if n.Some? then Some(0 - n.value as int) else None
    else
      var n := ParseDigits(if StartsWith(t, "+") then t[1..] else t, 0);
      if n.Some? then Some(n.value) else None
  }

  // ---------------------------------------------------------------------------
  // What the reader makes of the lines of a patch
  // ---------------------------------------------------------------------------

  /** The number of lines in the header block. */
  function HeaderEnd(lines: seq<string>): (k: nat)
    ensures k <= |lines|
    ensures forall i | 0 <= i < k :: IsHeaderLine(lines[i])
    ensures k < |lines| ==> !IsHeaderLine(lines[k])
    decreases |lines|
  {
    if lines == [] || !IsHeaderLine(lines[0]) then 0 else 1 + HeaderEnd(lines[1..])
  }

  /** The headers that a block of lines sets; a later line overrides an earlier one. */
  function Headers(lines: seq<string>): map<string, string>
    decreases |lines|
  {
    if lines == [] then
      map[]
    else
      var n := |lines| - 1;
      var v := NamedValue(lines[n], HEADER_NAMES);
      if v.Some? then Headers(lines[..n])[v.value.0 := v.value.1] else Headers(lines[..n])
  }

  function DiffStartLine(headers: map<string, string>): Option<int> {
    if "Diff Start Line" in headers then ParseInt(headers["Diff Start Line"]) else None
  }

  /** Whether a start line is announced; Python takes 0 for no announcement. */
  predicate Announced(start: Option<int>) {
    start.Some? && start.value != 0
  }

  /** Whether the reader stops at the line with index `i`. */
  predicate StopsAt(start: Option<int>, line: string, i: nat) {
    if Announced(start) then i + 1 == start.value else IsDiffLine(line)
  }

  /** The first line from `i` on at which the reader stops. */
  function FirstStop(lines: seq<string>, start: Option<int>, i: nat): (k: nat)
    requires i <= |lines|
    ensures i <= k <= |lines|
    ensures forall j | i <= j < k :: !StopsAt(start, lines[j], j)
    ensures k < |lines| ==> StopsAt(start, lines[k], k)
    decreases |lines| - i
  {
    if i == |lines| || StopsAt(start, lines[i], i) then i else FirstStop(lines, start, i + 1)
  }

  /** The lines of the commit description, before they are stripped. */
  function DescriptionLines(lines: seq<string>): seq<string> {
    var end := HeaderEnd(lines);
    lines[end..FirstStop(lines, DiffStartLine(Headers(lines[..end])), end)]
  }

  function DiffLines(lines: seq<string>): seq<string> {
    lines[FirstStop(lines, DiffStartLine(Headers(lines[..HeaderEnd(lines)])), 0)..]
  }

  // ---------------------------------------------------------------------------
  // The reader
  // ---------------------------------------------------------------------------

  class HgPatchHelper {
    const patch: string
    var pos: nat // the position of the stream
    var headers: map<string, string>
    var headerEndLineNo: nat
    var diffStartLine: Option<int>

    /** The headers have been read, and the stream is back at its start. */
    ghost predicate Valid()
      reads this
    {
      var lines := Lines(patch);
      && pos == 0
      && headerEndLineNo == HeaderEnd(lines)
      && headers == Headers(lines[..HeaderEnd(lines)])
      && diffStartLine == DiffStartLine(headers)
    }

    constructor (patch: string)
      ensures this.patch == patch && Valid()
    {
      this.patch := patch;
      pos, headers, headerEndLineNo, diffStartLine := 0, map[], 0, None;
      new;
      ParseHeader();
      diffStartLine := DiffStartLine(headers);
    }

    /** Makes a reader for a patch, unless no header is found in it. */
    static method Open(patch: string) returns (helper: Option<HgPatchHelper>)
      ensures helper.None? <==> Headers(Lines(patch)[..HeaderEnd(Lines(patch))]) == map[]
      ensures helper.Some? ==> fresh(helper.value) && helper.value.patch == patch && helper.value.Valid()
    {
      var h := new HgPatchHelper(patch);
      if h.headers == map[] {
        return None;
      }
      return Some(h);
    }

    /** Reads the next line of the stream. */
    method ReadLine() returns (line: string)
      requires pos < |patch|
      modifies this`pos
      ensures old(pos) < pos <= |patch| && line == patch[old(pos)..pos]
      ensures Lines(patch[old(pos)..]) == [line] + Lines(patch[pos..])
    {
      hide LineEnd, Lines;
      var rest := patch[pos..];
      var k := LineEnd(rest);
      line := rest[..k];
      NextLine(rest);
      assert rest[k..] == patch[pos + k..];
      pos := pos + k;
    }

    method ParseHeader()
      requires headers == map[] && headerEndLineNo == 0
      modifies this
      ensures pos == 0 && headerEndLineNo == HeaderEnd(Lines(patch))
      ensures headers == Headers(Lines(patch)[..HeaderEnd(Lines(patch))])
    {
      hide HeaderEnd, Headers, FirstStop, StopsAt, IsHeaderLine, Lines, Strip, Concat, DiffStartLine, NamedValue;
      pos := 0;
      ghost var lines := Lines(patch);
      ghost var stopped := false;
      assert patch[0..] == patch && lines[..0] == [];
      NoLines();
      while pos < |patch|
        invariant !stopped
        invariant pos <= |patch| && headerEndLineNo <= |lines|
        invariant Lines(patch[pos..]) == lines[headerEndLineNo..]
        invariant headers == Headers(lines[..headerEndLineNo])
        invariant forall i | 0 <= i < headerEndLineNo :: IsHeaderLine(lines[i])
        decreases |patch| - pos
      {
        var line := ReadLine();
        Advance(lines, headerEndLineNo, line, Lines(patch[pos..]));
        if !IsHeaderLine(line) {
          stopped := true;
          break;
        }
        HeadersSnoc(lines, headerEndLineNo);
        headerEndLineNo := headerEndLineNo + 1;
        var v := FindHeader(line);
        if v.Some? {
          headers := headers[v.value.0 := v.value.1];
        }
      }
      if !stopped {
        assert patch[pos..] == "";
        NoLines();
      }
      HeaderEndIs(lines, headerEndLineNo);
      pos := 0;
    }

    /** Tries the known names in turn. */
    static method FindHeader(line: string) returns (v: Option<(string, string)>)
      ensures v == NamedValue(line, HEADER_NAMES)
    {
      var names := HEADER_NAMES;
      for i := 0 to |names|
        invariant NamedValue(line, HEADER_NAMES) == NamedValue(line, names[i..])
      {
        var value := HeaderValue(line, names[i]);
        if value.Some? && value.value != "" {
          return Some((names[i], value.value));
        }
        assert names[i..][1..] == names[i + 1..];
      }
      return None;
    }

    method GetCommitDescription() returns (description: string)
      requires Valid()
      modifies this`pos
      ensures Valid()
      ensures description == Strip(Concat(DescriptionLines(Lines(patch))))
    {
      hide HeaderEnd, Headers, FirstStop, StopsAt, IsHeaderLine, Lines, Strip, Concat, DiffStartLine, NamedValue;
      var found: seq<string> := [];
      var i := 0;
      ghost var lines, end := Lines(patch), headerEndLineNo;
      ghost var stopped := false;
      assert patch[0..] == patch;
      while pos < |patch|
        invariant !stopped
        invariant pos <= |patch| && i <= |lines| && Lines(patch[pos..]) == lines[i..]
        invariant found == if i <= end then [] else lines[end..i]
        invariant forall j | end <= j < i :: !StopsAt(diffStartLine, lines[j], j)
        decreases |patch| - pos
      {
        var line := ReadLine();
        Advance(lines, i, line, Lines(patch[pos..]));
        i := i + 1;
        if i <= headerEndLineNo {
          continue;
        }
        if StopsAt(diffStartLine, line, i - 1) {
          i, stopped := i - 1, true;
          break;
        }
        found := found + [line];
      }
      if !stopped {
        assert patch[pos..] == "";
        NoLines();
      }
      FirstStopIs(lines, diffStartLine, end, i);
      pos := 0;
      return Strip(Concat(found));
    }

    method GetDiff() returns (diff: string)
      requires Valid()
      modifies this`pos
      ensures Valid()
      ensures diff == Concat(DiffLines(Lines(patch)))
    {
      hide HeaderEnd, Headers, FirstStop, StopsAt, IsHeaderLine, Lines, Strip, Concat, DiffStartLine, NamedValue;
      diff := "";
      var i := 0;
      ghost var lines := Lines(patch);
      ghost var stopped := false;
      assert patch[0..] == patch;
      while pos < |patch|
        invariant !stopped
        invariant pos <= |patch| && i <= |lines| && Lines(patch[pos..]) == lines[i..]
        invariant forall j | 0 <= j < i :: !StopsAt(diffStartLine, lines[j], j)
        invariant diff == ""
        decreases |patch| - pos
      {
        var line := ReadLine();
        Advance(lines, i, line, Lines(patch[pos..]));
        if StopsAt(diffStartLine, line, i) {
          diff, stopped := line, true;
          break;
        }
        i := i + 1;
      }
      if !stopped {
        assert patch[pos..] == "";
        NoLines();
      }
      FirstStopIs(lines, diffStartLine, 0, i);
      ConcatLines(patch[pos..]);
      if stopped {
        assert lines[i..] == [diff] + lines[i + 1..];
        ConcatCons(diff, lines[i + 1..]);
      } else {
        assert lines[i..] == [];
      }
      var rest := patch[pos..];
      pos := 0;
      return diff + rest;
    }

    method Write() returns (text: string)
      requires Valid()
      modifies this`pos
      ensures Valid() && text == patch
    {
      text := patch[pos..];
      pos := 0;
    }
  }

  lemma {:induction false} HeaderEndIs(lines: seq<string>, k: nat)
    requires k <= |lines| && (forall i | 0 <= i < k :: IsHeaderLine(lines[i]))
    requires k < |lines| ==> !IsHeaderLine(lines[k])
    ensures HeaderEnd(lines) == k
    decreases |lines|
  {
    if k > 0 {
      HeaderEndIs(lines[1..], k - 1);
    }
  }

  lemma {:induction false} FirstStopIs(lines: seq<string>, start: Option<int>, i: nat, k: nat)
    requires i <= k <= |lines|
    requires forall j | i <= j < k :: !StopsAt(start, lines[j], j)
    requires k == |lines| || StopsAt(start, lines[k], k)
    ensures FirstStop(lines, start, i) == k
    decreases k - i
  {
    if i < k {
      FirstStopIs(lines, start, i + 1, k);
    }
  }

  lemma HeadersSnoc(lines: seq<string>, k: nat)
    requires k < |lines|
    ensures var v := NamedValue(lines[k], HEADER_NAMES);
      Headers(lines[..k + 1]) == if v.Some? then Headers(lines[..k])[v.value.0 := v.value.1] else Headers(lines[..k])
  {
    hide NamedValue;
    assert lines[..k + 1][..k] == lines[..k];
  }

  lemma Advance(lines: seq<string>, i: nat, line: string, rest: seq<string>)
    requires i <= |lines| && lines[i..] == [line] + rest
    ensures i < |lines| && lines[i] == line && lines[i + 1..] == rest
  {
    assert lines[i..][0] == line && lines[i..][1..] == rest;
  }

  lemma NoLines()
    ensures Lines("") == [] && Headers([]) == map[] && Concat([]) == ""
  {
  }
}
