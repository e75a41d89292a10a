/** Parsing the body of a `git format-patch` mail. */
module GitPatches {

  import opened Options
  import opened Text
  import opened HgExports

  datatype ParseError = NoSubject | NoDiffStart | NoVersionInfo

  /** `s.rstrip("\r\n")` */
  function StripEol(s: string): string
    decreases |s|
  {
    if s != "" && (s[|s| - 1] == '\r' || s[|s| - 1] == '\n') then StripEol(s[..|s| - 1]) else s
  }

  function RemovePrefix(s: string, prefix: string): string {
    if StartsWith(s, prefix) then s[|prefix|..] else s
  }

  function FirstMessageLine(subject: string): string {
    StripEol(RemovePrefix(subject, "[PATCH] "))
  }

  predicate IsSeparator(line: string) {
    StripEol(line) == "---"
  }

  /** The first separator, or the number of lines. */
  function FirstSeparator(lines: seq<string>): (k: nat)
    ensures k <= |lines| && (k < |lines| ==> IsSeparator(lines[k]))
    ensures forall i | 0 <= i < k :: !IsSeparator(lines[i])
    decreases |lines|
  {
    if lines == [] || IsSeparator(lines[0]) then 0 else 1 + FirstSeparator(lines[1..])
  }

  /** The first line that starts a diff, or the number of lines. */
  function FirstDiff(lines: seq<string>): (k: nat)
    ensures k <= |lines|
    decreases |lines|
  {
    if lines == [] || IsDiffLine(lines[0]) then 0 else 1 + FirstDiff(lines[1..])
  }

  /** The lines before the last one that starts with two dashes. */
  function StripVersionInfo(lines: seq<string>): (r: Result<seq<string>, ParseError>)
    ensures r.Ok? ==> r.value <= lines && |r.value| < |lines| && StartsWith(lines[|r.value|], "--")
    ensures r.Ok? ==> forall i | |r.value| < i < |lines| :: !StartsWith(lines[i], "--")
    ensures r.Err? ==> r.error == NoVersionInfo && forall i | 0 <= i < |lines| :: !StartsWith(lines[i], "--")
    decreases |lines|
  {
    if lines == [] then Err(NoVersionInfo)
    else if StartsWith(lines[|lines| - 1], "--") then Ok(lines[..|lines| - 1])
    else StripVersionInfo(lines[..|lines| - 1])
  }

  function StripEols(lines: seq<string>): (r: seq<string>)
    ensures |r| == |lines|
    ensures forall i | 0 <= i < |r| :: r[i] == StripEol(lines[i])
  {
    seq(|lines|, i requires 0 <= i < |lines| => StripEol(lines[i]))
  }

  /** The subject, then an empty line and the lines of the body if there are any. */
  function MessageLines(subject: string, body: seq<string>): seq<string> {
    [FirstMessageLine(subject)] + (if body == [] then [] else [""]) + StripEols(body)
  }

  /** The diff in the lines after the separator: from its first line to the version info. */
  function DiffIn(lines: seq<string>): Result<string, ParseError> {
    var d := FirstDiff(lines);
    if d == |lines| then
      Err(NoDiffStart)
    else
      var rest := StripVersionInfo(lines[d + 1..]);
      if rest.Ok? then Ok(Concat([lines[d]] + rest.value)) else Err(rest.error)
  }

  /** The commit message and the diff that the lines of a mail body hold. */
  function ParseLines(subject: string, lines: seq<string>): Result<(string, string), ParseError> {
    var k := FirstSeparator(lines);
    if k == |lines| then
      var message := StripVersionInfo(MessageLines(subject, lines));
      if message.Ok? then Ok((Join("\n", message.value), "")) else Err(message.error)
    else
      var diff := DiffIn(lines[k + 1..]);
      if diff.Ok? then Ok((Join("\n", MessageLines(subject, lines[..k])), diff.value)) else Err(diff.error)
  }

  /** Scans backwards for the line that separates the patch from the version info. */
  method StripGitVersionInfoLines(lines: seq<string>) returns (r: Result<seq<string>, ParseError>)
    ensures r == StripVersionInfo(lines)
  {
    assert lines[..|lines|] == lines;
    for i := |lines| downto 0
      invariant StripVersionInfo(lines) == StripVersionInfo(lines[..i])
    {
      assert lines[..i + 1][..i] == lines[..i];
      if StartsWith(lines[i], "--") {
        return Ok(lines[..i]);
      }
    }
    return Err(NoVersionInfo);
  }

  /** Takes lines for the commit message up to the separator, which is consumed as well. */
  method TakeMessage(subject: string, lines: seq<string>) returns (message: seq<string>, next: nat, found: bool)
    ensures found <==> FirstSeparator(lines) < |lines|
    ensures next == if found then FirstSeparator(lines) + 1 else |lines|
    ensures message == MessageLines(subject, lines[..FirstSeparator(lines)])
  {
    hide StripEol;
    message, next, found := [FirstMessageLine(subject)], 0, false;
    while next < |lines|
      invariant next <= |lines| && forall i | 0 <= i < next :: !IsSeparator(lines[i])
      invariant message == MessageLines(subject, lines[..next])
    {
      var line := StripEol(lines[next]);
      if line == "---" {
        FirstSeparatorIs(lines, next);
        return message, next + 1, true;
      }
      if next == 0 {
        message := message + [""];
      }
      message := message + [line];
      assert lines[..next + 1] == lines[..next] + [lines[next]];
      assert StripEols(lines[..next + 1]) == StripEols(lines[..next]) + [line];
      next := next + 1;
    }
    FirstSeparatorIs(lines, |lines|);
  }

  /** Skips lines up to the one that starts the diff. */
  method SkipToDiff(lines: seq<string>, start: nat) returns (next: nat)
    requires start <= |lines|
    ensures next == start + FirstDiff(lines[start..])
  {
    hide IsDiffLine;
    next := start;
    while next < |lines| && !IsDiffLine(lines[next])
      invariant start <= next <= |lines|
      invariant forall i | start <= i < next :: !IsDiffLine(lines[i])
    {
      next := next + 1;
    }
    FirstDiffIs(lines[start..], next - start);
  }

  /** Takes the diff from the lines that are left. */
  method TakeDiff(lines: seq<string>, start: nat) returns (r: Result<string, ParseError>)
    requires start <= |lines|
    ensures r == DiffIn(lines[start..])
  {
    hide StripVersionInfo, FirstDiff, Concat;
    ghost var after := lines[start..];
    var at := SkipToDiff(lines, start);
    if at == |lines| {
      return Err(NoDiffStart);
    }
    assert after[at - start] == lines[at] && after[at - start + 1..] == lines[at + 1..];
    var remaining := StripGitVersionInfoLines(lines[at + 1..]);
    match remaining {
      case Err(e) => return Err(e);
      case Ok(kept) => return Ok(Concat([lines[at]] + kept));
    }
  }

  /** Consumes the lines of the body in one pass: the message up to the separator, the diffstat up
      to the diff, and the diff up to the version info. */
  method ParseEmailBody(subject: Option<string>, content: string) returns (r: Result<(string, string), ParseError>)
    ensures (subject.None? || subject.value == "") ==> r == Err(NoSubject)
    ensures subject.Some? && subject.value != "" ==> r == ParseLines(subject.value, SplitLinesKeep(content))
  {
    if subject.None? || subject.value == "" {
      return Err(NoSubject);
    }
    hide StripVersionInfo, FirstSeparator, DiffIn, IsSeparator, Join, SplitLinesKeep, MessageLines;
    var lines := SplitLinesKeep(content);
    var message, next, found := TakeMessage(subject.value, lines);
    if !found {
      assert lines[..|lines|] == lines;
      var stripped := StripGitVersionInfoLines(message);
      match stripped {
        case Err(e) => return Err(e);
        case Ok(kept) => return Ok((Join("\n", kept), ""));
      }
    }
    var diff := TakeDiff(lines, next);
    match diff {
      case Err(e) => return Err(e);
      case Ok(text) => return Ok((Join("\n", message), text));
    }
  }

  lemma {:induction false} FirstSeparatorIs(lines: seq<string>, k: nat)
    requires k <= |lines| && (k < |lines| ==> IsSeparator(lines[k]))
    requires forall i | 0 <= i < k :: !IsSeparator(lines[i])
    ensures FirstSeparator(lines) == k
    decreases |lines|
  {
    if k > 0 {
      FirstSeparatorIs(lines[1..], k - 1);
    }
  }

  lemma {:induction false} FirstDiffIs(lines: seq<string>, k: nat)
    requires k <= |lines| && (k < |lines| ==> IsDiffLine(lines[k]))
    requires forall i | 0 <= i < k :: !IsDiffLine(lines[i])
    ensures FirstDiff(lines) == k
    decreases |lines|
  {
    if k > 0 {
      FirstDiffIs(lines[1..], k - 1);
    }
  }

  lemma {:induction false} StripVersionInfoIs(lines: seq<string>, trailer: seq<string>)
    requires trailer != [] && StartsWith(trailer[0], "--") && forall i | 0 < i < |trailer| :: !StartsWith(trailer[i], "--")
    ensures StripVersionInfo(lines + trailer) == Ok(lines)
    decreases |trailer|
  {
    var all, n := lines + trailer, |trailer| - 1;
    assert all[|all| - 1] == trailer[n];
    if n == 0 {
      assert all[..|all| - 1] == lines;
    } else {
      assert all[..|all| - 1] == lines + trailer[..n];
      StripVersionInfoIs(lines, trailer[..n]);
    }
  }

  // ---------------------------------------------------------------------------
  // Round trip
  // ---------------------------------------------------------------------------

  /** A mail body as Git writes it: the message body, the separator, the diffstat, the diff and a
      trailer with the version info. */
  ghost predicate IsMail(body: seq<string>, stat: seq<string>, diff: seq<string>, trailer: seq<string>) {
    && (forall i | 0 <= i < |body| :: !IsSeparator(body[i]))
    && (forall i | 0 <= i < |stat| :: !IsDiffLine(stat[i]))
    && diff != [] && IsDiffLine(diff[0])
    && trailer != [] && StartsWith(trailer[0], "--")
    && (forall i | 0 < i < |trailer| :: !StartsWith(trailer[i], "--"))
  }

  lemma SeparatorLine()
    ensures IsSeparator("---\n")
  {
    assert "---\n"[..3] == "---";
  }

  /** Parsing a mail body gives back its message, under its subject, and exactly its diff, even if
      lines of the diff start with two dashes. */
  lemma MailRoundTrip(subject: string, body: seq<string>, stat: seq<string>, diff: seq<string>, trailer: seq<string>, content: string)
    requires IsMail(body, stat, diff, trailer)
    requires AreLines(body + ["---\n"] + stat + diff + trailer)
    requires content == Concat(body + ["---\n"] + stat + diff + trailer)
    ensures ParseLines(subject, SplitLinesKeep(content)) == Ok((Join("\n", MessageLines(subject, body)), Concat(diff)))
  {
    hide IsDiffLine, Concat, Join, AreLines, StripVersionInfo, FirstSeparator, FirstDiff, SplitLinesKeep, MessageLines, StripEol;
    var lines := body + ["---\n"] + stat + diff + trailer;
    SplitConcat(lines);
    SeparatorLine();
    FirstSeparatorIs(lines, |body|);
    assert lines[..|body|] == body;
    var after := lines[|body| + 1..];
    assert after == stat + diff + trailer;
    FirstDiffIs(after, |stat|);
    assert after[|stat|] == diff[0];
    assert after[|stat| + 1..] == diff[1..] + trailer;
    StripVersionInfoIs(diff[1..], trailer);
    assert [diff[0]] + diff[1..] == diff;
  }

  /** A mail without a separator is an empty commit: the version info is cut off its message. */
  lemma EmptyCommit(subject: string, body: seq<string>, trailer: seq<string>)
    requires body != [] && forall i | 0 <= i < |body| :: !IsSeparator(body[i])
    requires trailer != [] && forall i | 0 <= i < |trailer| :: !IsSeparator(trailer[i])
    requires StartsWith(StripEol(trailer[0]), "--") && forall i | 0 < i < |trailer| :: !StartsWith(StripEol(trailer[i]), "--")
    ensures ParseLines(subject, body + trailer) == Ok((Join("\n", MessageLines(subject, body)), ""))
  {
    hide IsDiffLine, Concat, Join, StripEol;
    var lines := body + trailer;
    FirstSeparatorIs(lines, |lines|);
    assert MessageLines(subject, lines) == MessageLines(subject, body) + StripEols(trailer);
    StripVersionInfoIs(MessageLines(subject, body), StripEols(trailer));
  }

  // ---------------------------------------------------------------------------
  // What becomes of each line
  // ---------------------------------------------------------------------------

  predicate AllEol(s: string) {
    forall i | 0 <= i < |s| :: s[i] == '\r' || s[i] == '\n'
  }

  predicate EndsInText(s: string) {
    s != "" ==> s[|s| - 1] != '\r' && s[|s| - 1] != '\n'
  }

  /** Only what ends the line is stripped, and all of it. */
  lemma {:induction false} StripEolIs(text: string, eol: string)
    requires EndsInText(text) && AllEol(eol)
    ensures StripEol(text + eol) == text
    decreases |eol|
  {
    if eol == "" {
      assert text + eol == text;
    } else {
      assert (text + eol)[..|text + eol| - 1] == text + eol[..|eol| - 1];
      StripEolIs(text, eol[..|eol| - 1]);
    }
  }

  lemma {:induction false} EveryLineHasText(line: string) returns (text: string, eol: string)
    ensures line == text + eol && EndsInText(text) && AllEol(eol)
    decreases |line|
  {
    if EndsInText(line) {
      text, eol := line, "";
    } else {
      text, eol := EveryLineHasText(line[..|line| - 1]);
      eol := eol + [line[|line| - 1]];
    }
  }

  /** The title is the subject without the mark of a patch and without what ends the line. */
  lemma TitleIs(title: string, eol: string)
    requires EndsInText(title) && AllEol(eol)
    ensures FirstMessageLine("[PATCH] " + title + eol) == title
    ensures !("[PATCH] " <= title + eol) ==> FirstMessageLine(title + eol) == title
  {
    var s := "[PATCH] " + title + eol;
    assert s == "[PATCH] " + (title + eol) && s[8..] == title + eol;
    StripEolIs(title, eol);
  }

  /** A separator is three dashes and whatever ends the line. */
  lemma SeparatorIff(line: string)
    ensures IsSeparator(line) <==> |line| >= 3 && line[..3] == "---" && AllEol(line[3..])
  {
    if |line| >= 3 && line[..3] == "---" && AllEol(line[3..]) {
      assert line == "---" + line[3..];
      StripEolIs("---", line[3..]);
    }
    var text, eol := EveryLineHasText(line);
    StripEolIs(text, eol);
    if text == "---" {
      assert line[..3] == "---" && line[3..] == eol;
    }
  }

  ghost predicate AreTexts(lines: seq<string>, texts: seq<string>) {
    |lines| == |texts| && forall i | 0 <= i < |lines| ::
      EndsInText(texts[i]) && texts[i] <= lines[i] && AllEol(lines[i][|texts[i]|..])
  }

  lemma TextsAre(lines: seq<string>, texts: seq<string>)
    requires AreTexts(lines, texts)
    ensures StripEols(lines) == texts
  {
    forall i | 0 <= i < |lines|
      ensures StripEol(lines[i]) == texts[i]
    {
      assert lines[i] == texts[i] + lines[i][|texts[i]|..];
      StripEolIs(texts[i], lines[i][|texts[i]|..]);
    }
  }

  /** The message of a mail is its title and, after an empty line, the texts of its body. */
  lemma MessageIs(title: string, subject: string, body: seq<string>, texts: seq<string>)
    requires AreTexts(body, texts) && IsTitle(subject, title)
    ensures MessageLines(subject, body) == if texts == [] then [title] else [title, ""] + texts
  {
    TextsAre(body, texts);
    TitleOf(subject, title);
    hide StripEol, FirstMessageLine;
    assert [title] + [""] == [title, ""];
  }

  /** The subject is the title, with or without the mark of a patch before it. */
  ghost predicate IsTitle(subject: string, title: string) {
    exists eol :: AllEol(eol) && EndsInText(title) &&
      (subject == "[PATCH] " + title + eol || (subject == title + eol && !("[PATCH] " <= subject)))
  }

  lemma TitleOf(subject: string, title: string)
    requires IsTitle(subject, title)
    ensures FirstMessageLine(subject) == title
  {
    hide FirstMessageLine;
    var eol :| AllEol(eol) && EndsInText(title) &&
      (subject == "[PATCH] " + title + eol || (subject == title + eol && !("[PATCH] " <= subject)));
    TitleIs(title, eol);
  }

  lemma EverySubjectHasTitle(subject: string) returns (title: string)
    ensures IsTitle(subject, title)
  {
    var rest := if "[PATCH] " <= subject then subject[8..] else subject;
    var eol;
    title, eol := EveryLineHasText(rest);
    if "[PATCH] " <= subject {
      assert subject == "[PATCH] " + title + eol;
    }
    assert AllEol(eol) && EndsInText(title) &&
      (subject == "[PATCH] " + title + eol || (subject == title + eol && !("[PATCH] " <= subject)));
  }

  // ---------------------------------------------------------------------------
  // The outcome of parsing, for any lines
  // ---------------------------------------------------------------------------

  /** `k` is the first line that separates the message from the diffstat. */
  predicate SeparatesAt(lines: seq<string>, k: nat) {
    && k < |lines| && IsSeparator(lines[k]) && forall i | 0 <= i < k :: !IsSeparator(lines[i])
  }

  /** `d` is the first line after the separator that starts a diff. */
  predicate DiffStartsAt(lines: seq<string>, k: nat, d: nat) {
    && k < d < |lines| && IsDiffLine(lines[d]) && forall i | k < i < d :: !IsDiffLine(lines[i])
  }

  /** `v` is the last line after `d` that starts with two dashes. */
  predicate VersionInfoAt(lines: seq<string>, d: int, v: nat) {
    && d < v < |lines| && StartsWith(lines[v], "--") && forall i | v < i < |lines| :: !StartsWith(lines[i], "--")
  }

  /** After the separator there has to be a diff line, and after that a line with two dashes; the
      diff ends before the last such line. */
  lemma ParsedWithSeparator(subject: string, lines: seq<string>, k: nat)
    requires SeparatesAt(lines, k)
    ensures ParseLines(subject, lines) == Err(NoDiffStart) <==> forall d | k < d < |lines| :: !IsDiffLine(lines[d])
    ensures forall d: nat | DiffStartsAt(lines, k, d) && (forall v | d < v < |lines| :: !StartsWith(lines[v], "--")) ::
      ParseLines(subject, lines) == Err(NoVersionInfo)
    ensures forall d: nat, v: nat | DiffStartsAt(lines, k, d) && VersionInfoAt(lines, d, v) ::
      ParseLines(subject, lines) == Ok((Join("\n", MessageLines(subject, lines[..k])), Concat(lines[d..v])))
  {
    hide IsDiffLine, Concat, Join, StripVersionInfo, FirstSeparator, FirstDiff, MessageLines, IsSeparator;
    FirstSeparatorIs(lines, k);
    var after := lines[k + 1..];
    NoDiffStartIff(after);
    assert forall d | k < d < |lines| :: lines[d] == after[d - k - 1];
    forall d: nat | DiffStartsAt(lines, k, d)
      ensures (forall v | d < v < |lines| :: !StartsWith(lines[v], "--")) ==> DiffIn(lines[k + 1..]) == Err(NoVersionInfo)
      ensures forall v: nat | VersionInfoAt(lines, d, v) :: DiffIn(lines[k + 1..]) == Ok(Concat(lines[d..v]))
    {
      DiffAt(lines, k, d);
    }
    hide DiffIn;
  }

  lemma NoDiffStartIff(lines: seq<string>)
    ensures DiffIn(lines) == Err(NoDiffStart) <==> forall i | 0 <= i < |lines| :: !IsDiffLine(lines[i])
  {
    hide IsDiffLine, StripVersionInfo, Concat;
    if forall i | 0 <= i < |lines| :: !IsDiffLine(lines[i]) {
      FirstDiffIs(lines, |lines|);
    } else {
      FirstDiffFacts(lines);
    }
  }

  lemma {:induction false} FirstDiffFacts(lines: seq<string>)
    ensures var k := FirstDiff(lines);
      (k < |lines| ==> IsDiffLine(lines[k])) && forall i | 0 <= i < k :: !IsDiffLine(lines[i])
    decreases |lines|
  {
    hide IsDiffLine;
    if lines != [] && !IsDiffLine(lines[0]) {
      FirstDiffFacts(lines[1..]);
      forall i | 0 <= i < FirstDiff(lines)
        ensures !IsDiffLine(lines[i])
      {
        assert i > 0 ==> lines[i] == lines[1..][i - 1];
      }
    }
  }

  lemma DiffAt(lines: seq<string>, k: nat, d: nat)
    requires DiffStartsAt(lines, k, d)
    ensures (forall v | d < v < |lines| :: !StartsWith(lines[v], "--")) ==> DiffIn(lines[k + 1..]) == Err(NoVersionInfo)
    ensures forall v: nat | VersionInfoAt(lines, d, v) :: DiffIn(lines[k + 1..]) == Ok(Concat(lines[d..v]))
  {
    hide IsDiffLine, Concat, StripVersionInfo, FirstDiff;
    var after, rest := lines[k + 1..], lines[d + 1..];
    assert after[d - k - 1] == lines[d] && after[d - k..] == rest;
    FirstDiffIs(after, d - k - 1);
    assert forall i | 0 <= i < |rest| :: rest[i] == lines[d + 1 + i];
    forall v: nat | VersionInfoAt(lines, d, v)
      ensures StripVersionInfo(rest) == Ok(rest[..v - d - 1]) && [lines[d]] + rest[..v - d - 1] == lines[d..v]
    {
      var kept, trailer := rest[..v - d - 1], rest[v - d - 1..];
      assert rest == kept + trailer && trailer[0] == lines[v];
      StripVersionInfoIs(kept, trailer);
    }
    if forall v | d < v < |lines| :: !StartsWith(lines[v], "--") {
      StripVersionInfoNone(rest);
    }
  }

  lemma StripVersionInfoNone(lines: seq<string>)
    requires forall i | 0 <= i < |lines| :: !StartsWith(lines[i], "--")
    ensures StripVersionInfo(lines) == Err(NoVersionInfo)
  {
    hide StripVersionInfo;
  }

  /** Without a separator the message ends before its last line with two dashes, which there has
      to be, and the diff is empty. */
  lemma ParsedWithoutSeparator(subject: string, lines: seq<string>)
    requires forall i | 0 <= i < |lines| :: !IsSeparator(lines[i])
    ensures var message := MessageLines(subject, lines);
      && ((forall v | 0 <= v < |message| :: !StartsWith(message[v], "--")) ==> ParseLines(subject, lines) == Err(NoVersionInfo))
      && (forall v: nat | VersionInfoAt(message, -1, v) :: ParseLines(subject, lines) == Ok((Join("\n", message[..v]), "")))
  {
    hide Join, StripVersionInfo, FirstSeparator, MessageLines, IsSeparator;
    FirstSeparatorIs(lines, |lines|);
    var message := MessageLines(subject, lines);
    forall v: nat | VersionInfoAt(message, -1, v)
      ensures StripVersionInfo(message) == Ok(message[..v])
    {
      assert message == message[..v] + message[v..] && message[v..][0] == message[v];
      assert forall i | 0 <= i < |message[v..]| :: message[v..][i] == message[v + i];
      StripVersionInfoIs(message[..v], message[v..]);
    }
    if forall v | 0 <= v < |message| :: !StartsWith(message[v], "--") {
      StripVersionInfoNone(message);
    }
  }

  /** A mail with a title and the texts of a body parses to just these, and to exactly its diff. */
  lemma MailIsRead(title: string, subject: string, body: seq<string>, texts: seq<string>, stat: seq<string>, diff: seq<string>,
                   trailer: seq<string>, content: string)
    requires IsTitle(subject, title) && AreTexts(body, texts)
    requires IsMail(body, stat, diff, trailer)
    requires AreLines(body + ["---\n"] + stat + diff + trailer)
    requires content == Concat(body + ["---\n"] + stat + diff + trailer)
    ensures ParseLines(subject, SplitLinesKeep(content))
      == Ok((Join("\n", if texts == [] then [title] else [title, ""] + texts), Concat(diff)))
  {
    hide *;
    MessageIs(title, subject, body, texts);
    MailRoundTrip(subject, body, stat, diff, trailer, content);
  }
}
