/** Sanitised commit messages: formatted into a comment for review, and parsed back from it. */
module SecApproval {

  import opened Options
  import opened Text

  const FENCE := "```"

  // The lines around the message, in parts that are short enough for the verifier to look at every
  // character, and with the ticks apart, as the proof that there is no fence among them needs it.
  const INTRODUCTION := "I have written a sanitized comment " + "message for this revision. It should"
  const FOLLOWS := "follow the [Security " + "Bug Approval"
  const GUIDELINES := "Guidelines](https://wiki.mozilla.org" + "/Security/Bug_Approval_Process)."
  const REQUEST := "Could a member of the " + "`" + "sec-approval" + "`" + " team please review this message?"
  const IF_SUITABLE := "If the message is suitable for " + "landing in mozilla-central please mark"
  const MARK := "this code review as " + "`" + "Accepted" + "`" + "."

  const PREAMBLE_LINES: seq<string> := ["", INTRODUCTION, FOLLOWS, GUIDELINES, "", REQUEST, IF_SUITABLE, MARK, "", ""]

  function Preamble(): string {
    Join("\n", PREAMBLE_LINES)
  }

  /** The comment that asks for the review of a message. */
  function FormatComment(message: string): string {
    Preamble() + FENCE + ("\n" + message + "\n") + FENCE + "\n"
  }

  // ---------------------------------------------------------------------------
  // Splitting
  // ---------------------------------------------------------------------------

  predicate FenceAt(s: string, i: nat) {
    i + 3 <= |s| && s[i] == '`' && s[i + 1] == '`' && s[i + 2] == '`'
  }

  predicate HasFence(s: string) {
    exists i: nat | i < |s| :: FenceAt(s, i)
  }

  /** The first fence, or the length of the text. */
  function FirstFence(s: string): (k: nat)
    ensures k <= |s| && (k < |s| ==> FenceAt(s, k))
    ensures forall i: nat | i < k :: !FenceAt(s, i)
    decreases |s|
  {
    if s == "" || FenceAt(s, 0) then
      0
    else
      var k := 1 + FirstFence(s[1..]);
      assert forall i: nat | 0 < i < k :: FenceAt(s, i) <==> FenceAt(s[1..], i - 1);
      k
  }

  /** Python's `split` at fences, taken from left to right. */
  function SplitAtFences(s: string): (parts: seq<string>)
    ensures parts != []
    decreases |s|
  {
    var k := FirstFence(s);
    if k == |s| then [s] else [s[..k]] + SplitAtFences(s[k + 3..])
  }

  // ---------------------------------------------------------------------------
  // Parsing
  // ---------------------------------------------------------------------------

  /** The first line of a message, and the rest of it stripped. */
  function SplitTitleAndSummary(message: string): (string, string) {
    var k := FirstNewline(message);
    (message[..k], if k < |message| then Strip(message[k + 1..]) else "")
  }

  datatype CommitDescription = CommitDescription(title: string, summary: string, sanitized: bool)

  datatype CommentParseError = NoMessageBlock | NoTitle

  function ParseComment(comment: string): Result<CommitDescription, CommentParseError> {
    var parts := SplitAtFences(comment);
    if |parts| != 3 then
      Err(NoMessageBlock)
    else
      var (title, summary) := SplitTitleAndSummary(Strip(parts[1]));
      if title == "" then Err(NoTitle) else Ok(CommitDescription(title, summary, true))
  }

  // ---------------------------------------------------------------------------
  // Round trip
  // ---------------------------------------------------------------------------

  lemma {:induction false} FirstFenceIs(s: string, k: nat)
    requires k <= |s| && (k < |s| ==> FenceAt(s, k)) && forall i: nat | i < k :: !FenceAt(s, i)
    ensures FirstFence(s) == k
    decreases |s|
  {
    if k > 0 {
      assert !FenceAt(s, 0);
      assert forall i: nat | i < k - 1 :: FenceAt(s[1..], i) <==> FenceAt(s, i + 1);
      FirstFenceIs(s[1..], k - 1);
    }
  }

  /** No fence runs over the boundary before a fence if what precedes ends in another character. */
  lemma FenceAfter(s: string, rest: string)
    requires !HasFence(s) && (s == "" || s[|s| - 1] != '`')
    ensures SplitAtFences(s + FENCE + rest) == [s] + SplitAtFences(rest)
  {
    var t := s + FENCE + rest;
    forall i: nat | i < |s|
      ensures !FenceAt(t, i)
    {
      assert i + 3 <= |s| ==> !FenceAt(s, i);
      assert t[i] == s[i] && t[|s| - 1] == s[|s| - 1];
      assert i + 1 < |s| ==> t[i + 1] == s[i + 1];
      assert i + 2 < |s| ==> t[i + 2] == s[i + 2];
    }
    FirstFenceIs(t, |s|);
    assert t[..|s|] == s && t[|s| + 3..] == rest;
  }

  lemma NoFenceNoSplit(s: string)
    requires !HasFence(s)
    ensures SplitAtFences(s) == [s]
  {
    FirstFenceIs(s, |s|);
  }

  /** One part more for each fence: text with a fence, before another fence, gives three or more. */
  lemma FenceInside(s: string, rest: string)
    requires HasFence(s)
    ensures |SplitAtFences(s + "\n" + FENCE + rest)| >= 3
  {
    var t := s + "\n" + FENCE + rest;
    var i: nat :| i < |s| && FenceAt(s, i);
    assert FenceAt(t, i);
    var k := FirstFence(t);
    assert k <= i && k + 3 <= |s|;
    var u := t[k + 3..];
    assert u == s[k + 3..] + "\n" + FENCE + rest;
    var j: nat := |s| + 1 - (k + 3);
    assert FenceAt(u, j);
    assert FirstFence(u) < |u|;
    assert |SplitAtFences(u)| >= 2;
  }

  /** Two single ticks that are apart make no fence. */
  lemma TicksApart(a: string, b: string, c: string)
    requires '`' !in a && '`' !in b && '`' !in c && b != ""
    ensures !HasFence(a + "`" + b + "`" + c)
  {
    var s := a + "`" + b + "`" + c;
    forall i | 0 <= i < |s|
      ensures s[i] == '`' <==> i == |a| || i == |a| + 1 + |b|
    {
      if i < |a| {
        assert s[i] == a[i];
      } else if |a| < i < |a| + 1 + |b| {
        assert s[i] == b[i - |a| - 1];
      } else if i > |a| + 1 + |b| {
        assert s[i] == c[i - |a| - |b| - 2];
      }
    }
  }

  lemma NoTickNoFence(a: string, b: string)
    requires '`' !in a && '`' !in b
    ensures !HasFence(a + b)
  {
    assert forall i | 0 <= i < |a + b| :: (a + b)[i] in a || (a + b)[i] in b;
  }

  lemma FenceInOne(a: string, b: string)
    requires !HasFence(a) && !HasFence(b)
    ensures !HasFence(a + "\n" + b)
  {
    var s := a + "\n" + b;
    forall i: nat | i < |s|
      ensures !FenceAt(s, i)
    {
      assert s[|a|] == '\n';
      if i < |a| {
        assert !FenceAt(a, i);
      } else if i > |a| {
        assert !FenceAt(b, i - |a| - 1);
      }
    }
  }

  lemma {:induction false} JoinNoFence(lines: seq<string>)
    requires forall i | 0 <= i < |lines| :: !HasFence(lines[i])
    ensures !HasFence(Join("\n", lines))
    decreases |lines|
  {
    hide HasFence;
    if lines == [] {
      assert !HasFence("") by {
        NoTickNoFence("", "");
        assert "" + "" == "";
      }
    } else if |lines| > 1 {
      JoinNoFence(lines[1..]);
      FenceInOne(lines[0], Join("\n", lines[1..]));
    }
  }

  lemma PreambleHasNoFence()
    ensures !HasFence(Preamble()) && Preamble() != "" && Preamble()[|Preamble()| - 1] == '\n'
  {
    hide HasFence, Join;
    IntroductionPlain();
    FollowsPlain();
    GuidelinesPlain();
    IfSuitablePlain();
    TickedLines();
    hide *;
    PreambleFromLines();
  }

  lemma IntroductionPlain()
    ensures !HasFence(INTRODUCTION)
  {
    hide HasFence;
    NoTickNoFence("I have written a sanitized comment ", "message for this revision. It should");
  }

  lemma FollowsPlain()
    ensures !HasFence(FOLLOWS)
  {
    hide HasFence;
    NoTickNoFence("follow the [Security ", "Bug Approval");
  }

  lemma LinkHost()
    ensures '`' !in "Guidelines](https://wiki.mozilla.org"
  {
  }

  lemma LinkPath()
    ensures '`' !in "/Security/Bug_Approval_Process)."
  {
  }

  lemma GuidelinesPlain()
    ensures !HasFence(GUIDELINES)
  {
    hide HasFence;
    LinkHost();
    LinkPath();
    NoTickNoFence("Guidelines](https://wiki.mozilla.org", "/Security/Bug_Approval_Process).");
  }

  lemma IfSuitablePlain()
    ensures !HasFence(IF_SUITABLE)
  {
    hide HasFence;
    NoTickNoFence("If the message is suitable for ", "landing in mozilla-central please mark");
  }

  lemma TickedLines()
    ensures !HasFence(REQUEST) && !HasFence(MARK)
  {
    hide HasFence;
    TicksApart("Could a member of the ", "sec-approval", " team please review this message?");
    TicksApart("this code review as ", "Accepted", ".");
  }

  lemma PreambleFromLines()
    requires !HasFence(INTRODUCTION) && !HasFence(FOLLOWS) && !HasFence(GUIDELINES) && !HasFence(IF_SUITABLE)
    requires !HasFence(REQUEST) && !HasFence(MARK)
    ensures !HasFence(Preamble()) && Preamble() != "" && Preamble()[|Preamble()| - 1] == '\n'
  {
    hide HasFence, Join;
    var a, b, c, d, e, f := INTRODUCTION, FOLLOWS, GUIDELINES, REQUEST, IF_SUITABLE, MARK;
    NoTickNoFence("", "");
    assert "" + "" == "";
    JoinNoFence(["", a, b, c, "", d, e, f, "", ""]);
    JoinEndsInEmpty(["", a, b, c, "", d, e, f, "", ""]);
  }

  lemma {:induction false} JoinEndsInEmpty(lines: seq<string>)
    requires |lines| > 1 && lines[|lines| - 1] == ""
    ensures var s := Join("\n", lines); s != "" && s[|s| - 1] == '\n'
    decreases |lines|
  {
    if |lines| > 2 {
      JoinEndsInEmpty(lines[1..]);
    } else {
      assert Join("\n", lines) == lines[0] + "\n" + "";
    }
  }

  /** The split of a formatted comment: the message stands alone between the fences exactly when it
      holds no fence itself; otherwise there are too many parts. */
  lemma SplitComment(message: string)
    ensures var parts := SplitAtFences(FormatComment(message));
      if HasFence(message) then |parts| > 3 else parts == [Preamble(), "\n" + message + "\n", "\n"]
  {
    hide SplitAtFences, Preamble;
    PreambleHasNoFence();
    var inner := "\n" + message + "\n";
    var rest := inner + FENCE + "\n";
    assert FormatComment(message) == Preamble() + FENCE + rest;
    FenceAfter(Preamble(), rest);
    FenceMoves(message);
    if HasFence(message) {
      assert rest == ("\n" + message) + "\n" + FENCE + "\n";
      FenceInside("\n" + message, "\n");
    } else {
      FenceAfter(inner, "\n");
      NoFenceNoSplit("\n");
    }
  }

  lemma FenceMoves(message: string)
    ensures HasFence("\n" + message + "\n") <==> HasFence(message)
    ensures HasFence("\n" + message) <==> HasFence(message)
    ensures !HasFence("\n")
  {
    var inner, front := "\n" + message + "\n", "\n" + message;
    assert forall i: nat :: FenceAt(message, i) <==> FenceAt(inner, i + 1);
    assert forall i: nat :: FenceAt(message, i) <==> FenceAt(front, i + 1);
    assert forall i: nat | i > 0 :: FenceAt(inner, i) <==> FenceAt(message, i - 1);
    assert forall i: nat | i > 0 :: FenceAt(front, i) <==> FenceAt(message, i - 1);
    assert !FenceAt(inner, 0) && !FenceAt(front, 0);
  }

  /** Formatting a message and parsing the comment: a message without a fence that is not blank
      gives its own title and summary, every other message is refused. Nothing else is ever
      returned. */
  lemma CommentRoundTrip(message: string)
    ensures ParseComment(FormatComment(message)) ==
      if HasFence(message) then Err(NoMessageBlock)
      else if Strip(message) == "" then Err(NoTitle)
      else Ok(CommitDescription(SplitTitleAndSummary(Strip(message)).0, SplitTitleAndSummary(Strip(message)).1, true))
    ensures !HasFence(message) && Strip(message) != "" ==> SplitTitleAndSummary(Strip(message)).0 != ""
  {
    hide SplitAtFences, Strip;
    SplitComment(message);
    StripIgnores("\n", message, "\n");
    var l, r := StripFacts(message);
    var stripped := Strip(message);
    if stripped != "" {
      assert stripped[0] != '\n';
    }
  }

  /** The title and the summary, put together again, are the stripped message up to the white space
      between them. */
  lemma TitleAndSummary(message: string)
    requires IsStripped(message)
    ensures var (title, summary) := SplitTitleAndSummary(message);
      && NoNewline(title) && IsStripped(summary)
      && (if NoNewline(message) then title == message && summary == ""
        else exists space :: AllSpace(space) && message == title + "\n" + space + summary)
  {
    hide Strip, FirstNewline;
    var k := FirstNewline(message);
    if k < |message| {
      var l, r := StripFacts(message[k + 1..]);
      var front := message[..k] + "\n" + l + Strip(message[k + 1..]);
      assert message == front + r;
      StrippedEnd(front, r);
    }
  }

  lemma StrippedEnd(s: string, space: string)
    requires IsStripped(s + space) && AllSpace(space)
    ensures space == ""
  {
    assert forall j | 0 <= j < |space| :: (s + space)[|s| + j] == space[j];
  }

  // ---------------------------------------------------------------------------
  // Any comment
  // ---------------------------------------------------------------------------

  /** Texts without fences, of which no fence starts early when they are joined by fences. */
  predicate StayApart(parts: seq<string>) {
    && parts != [] && (forall i | 0 <= i < |parts| :: !HasFence(parts[i]))
    && (forall i | 0 <= i < |parts| - 1 :: parts[i] != "" ==> parts[i][|parts[i]| - 1] != '`')
  }

  /** Texts joined by fences are found again. */
  lemma {:induction false} SplitFenced(parts: seq<string>)
    requires StayApart(parts)
    ensures SplitAtFences(Join(FENCE, parts)) == parts
    decreases |parts|
  {
    hide SplitAtFences, HasFence;
    if |parts| == 1 {
      NoFenceNoSplit(parts[0]);
    } else {
      SplitFenced(parts[1..]);
      FenceAfter(parts[0], Join(FENCE, parts[1..]));
    }
  }

  /** And every comment is joined from its parts in this way. */
  lemma {:induction false} PartsStayApart(comment: string)
    ensures StayApart(SplitAtFences(comment)) && Join(FENCE, SplitAtFences(comment)) == comment
    decreases |comment|
  {
    var k := FirstFence(comment);
    NextPart(comment);
    if k == |comment| {
      OnlyPart(comment);
    } else {
      var rest := comment[k + 3..];
      hide *;
      PartsStayApart(rest);
      FenceIsFirst(comment, k);
      CutAtFence(comment, k);
      OneMorePart(comment[..k], SplitAtFences(rest));
    }
  }

  lemma NextPart(comment: string)
    ensures var k := FirstFence(comment);
      && k <= |comment|
      && (k == |comment| ==> SplitAtFences(comment) == [comment] && !HasFence(comment))
      && (k < |comment| ==> FenceAt(comment, k) && SplitAtFences(comment) == [comment[..k]] + SplitAtFences(comment[k + 3..]))
  {
    NoFenceFound(comment);
    hide HasFence, FirstFence;
  }

  lemma NoFenceFound(comment: string)
    ensures FirstFence(comment) == |comment| ==> !HasFence(comment)
  {
    hide FirstFence, FenceAt;
  }

  lemma OnlyPart(part: string)
    requires !HasFence(part)
    ensures StayApart([part]) && Join(FENCE, [part]) == part
  {
    hide HasFence;
  }

  lemma CutAtFence(s: string, k: nat)
    requires FenceAt(s, k)
    ensures s == s[..k] + FENCE + s[k + 3..]
  {
    assert s[k..k + 3] == FENCE;
    assert s == s[..k] + s[k..k + 3] + s[k + 3..];
  }

  lemma OneMorePart(part: string, parts: seq<string>)
    requires StayApart(parts) && !HasFence(part) && (part != "" ==> part[|part| - 1] != '`')
    ensures StayApart([part] + parts) && Join(FENCE, [part] + parts) == part + FENCE + Join(FENCE, parts)
  {
    hide HasFence;
    assert ([part] + parts)[1..] == parts;
  }

  lemma FenceIsFirst(s: string, k: nat)
    requires k < |s| && FenceAt(s, k) && forall i: nat | i < k :: !FenceAt(s, i)
    ensures !HasFence(s[..k]) && (k > 0 ==> s[k - 1] != '`')
  {
    if k > 0 {
      assert !FenceAt(s, k - 1);
    }
    forall i: nat | i < k
      ensures !FenceAt(s[..k], i)
    {
      assert !FenceAt(s, i);
    }
  }

  /** The title is the first line, and the summary is what follows it, stripped. */
  lemma TitleThenSummary(line: string, rest: string)
    requires NoNewline(line)
    ensures SplitTitleAndSummary(line + "\n" + rest) == (line, Strip(rest))
    ensures SplitTitleAndSummary(line) == (line, "")
  {
    FirstNewlineAt(line, rest);
    var s := line + "\n" + rest;
    assert s[..|line|] == line && s[|line| + 1..] == rest;
    assert FirstNewline(line) == |line| && line[..|line|] == line;
  }

  /** A comment is read if there are exactly two fences in it and the text between them is not
      blank; otherwise the error says which of these failed. */
  lemma CommentIsRead(parts: seq<string>)
    requires StayApart(parts)
    ensures var r := ParseComment(Join(FENCE, parts));
      && (r == Err(NoMessageBlock) <==> |parts| != 3)
      && (r == Err(NoTitle) <==> |parts| == 3 && Strip(parts[1]) == "")
      && (|parts| == 3 && Strip(parts[1]) != "" ==>
        && r.Ok? && r.value.sanitized && r.value.title != ""
        && (r.value.title, r.value.summary) == SplitTitleAndSummary(Strip(parts[1])))
  {
    SplitFenced(parts);
    hide SplitAtFences, Strip, HasFence;
    if |parts| == 3 {
      var l, r := StripFacts(parts[1]);
      var stripped := Strip(parts[1]);
      assert stripped != "" ==> stripped[0] != '\n' && FirstNewline(stripped) > 0;
    }
  }
}
