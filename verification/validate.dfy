/**
 validate-markdown.js: the checks `validateFile` runs over one post once gray-matter has
 separated the header from the body. The front-matter title and the body text are parameters;
 the body is split on `\n` alone, so a carriage return stays at the end of its line.
 */
module Validate {
  import opened Wrappers
  import opened Text
  import opened Markdown

  datatype Kind = MissingTitle | DuplicateTitle | HeadingFormat | ListIndentation | MalformedLink | UnclosedCodeBlock

  /** One reported problem, at a 1-based line number. */
  datatype Issue = Issue(kind: Kind, line: int)

  // ---------------------------------------------------------------------------------------
  // The first heading

  /** The index of the first heading line at or after `i`; code fences are not considered. */
  function FirstHeadingFrom(lines: seq<string>, i: nat): (r: Option<nat>)
    requires i <= |lines|
    ensures r.Some? ==> i <= r.value < |lines| && IsHeading(lines[r.value])
    ensures r.Some? ==> forall k :: i <= k < r.value ==> !IsHeading(lines[k])
    ensures r.None? <==> forall k :: i <= k < |lines| ==> !IsHeading(lines[k])
    decreases |lines| - i
  {
    if i == |lines| then None
    else if IsHeading(lines[i]) then Some(i)
    else FirstHeadingFrom(lines, i + 1)
  }

  /**
   `duplicate_title`: the first heading's text is not empty and equals the trimmed title,
   ignoring case; it is reported at the heading's line.
   */
  function DuplicateIssue(title: Option<string>, lines: seq<string>): (r: seq<Issue>)
  {
    match FirstHeadingFrom(lines, 0)
    case None => []
    case Some(h) =>
      var text := HeadingText(Trim(lines[h]));
      if text != "" && Truthy(title) && Lower(text) == Lower(Trim(title.value)) then [Issue(DuplicateTitle, h + 1)]
      else []
  }

  // ---------------------------------------------------------------------------------------
  // Checks of one line outside code

  function Digits(s: string): (n: nat)
    ensures n <= |s|
    ensures forall i :: 0 <= i < n ==> '0' <= s[i] <= '9'
  {
    if |s| > 0 && '0' <= s[0] <= '9' then 1 + Digits(s[1..]) else 0
  }

  /**
   The list-item pattern: whitespace (the captured indent), then `-`, `*`, `+` or digits and a
   dot, then a whitespace character. Greedy matching is exact here: no shorter whitespace or
   digit run can be followed by what the pattern needs next.
   */
  predicate ListItem(t: string) {
    var rest := t[LeadingSpaces(t)..];
    || (|rest| >= 2 && (rest[0] == '-' || rest[0] == '*' || rest[0] == '+') && IsSpace(rest[1]))
    || (1 <= Digits(rest) && Digits(rest) + 1 < |rest| && rest[Digits(rest)] == '.' && IsSpace(rest[Digits(rest) + 1]))
  }

  /** `list_indentation`: the pattern matched on the trimmed line and its indent is odd. */
  predicate BadIndent(line: string) {
    ListItem(Trim(line)) && LeadingSpaces(Trim(line)) % 2 != 0
  }

  /** The first index at or after `i` holding `c`. */
  function FindChar(s: string, c: char, i: nat): (r: Option<nat>)
    requires i <= |s|
    ensures r.Some? ==> i <= r.value < |s| && s[r.value] == c
    ensures r.Some? ==> forall k :: i <= k < r.value ==> s[k] != c
    ensures r.None? ==> forall k :: i <= k < |s| ==> s[k] != c
    decreases |s| - i
  {
    if i == |s| then None
    else if s[i] == c then Some(i)
    else FindChar(s, c, i + 1)
  }

  /**
   The match of `\[([^\]]+)\]\(([^)]+)\)` starting at `i`, as the start of its URL and the index
   of its closing parenthesis. The bracketed text runs to the first `]`, which must be followed
   by `(`, and the URL runs to the first `)` after that; both must be non-empty.
   */
  function LinkAt(line: string, i: nat): (r: Option<(nat, nat)>)
    requires i <= |line|
    ensures r.Some? ==> i + 3 < r.value.0 < r.value.1 < |line|
  {
    if i < |line| && line[i] == '[' then
      match FindChar(line, ']', i + 1)
      case None => None
      case Some(j) =>
        if j > i + 1 && j + 1 < |line| && line[j + 1] == '(' then
          match FindChar(line, ')', j + 2)
          case None => None
          case Some(k) => if k > j + 2 then Some((j + 2, k)) else None
        else None
    else None
  }

  /** The URLs of the successive matches from `i` on, as the global `exec` loop finds them. */
  function Links(line: string, i: nat): (urls: seq<string>)
    requires i <= |line|
    ensures forall k :: 0 <= k < |urls| ==> |urls[k]| > 0 && ')' !in urls[k]
    decreases |line| - i
  {
    if i == |line| then []
    else
      match LinkAt(line, i)
      case None => Links(line, i + 1)
      case Some((u, k)) => [line[u..k]] + Links(line, k + 1)
  }

  /** Some link on the line has a URL that is all whitespace. */
  predicate HasBlankLink(line: string) {
    exists k :: 0 <= k < |Links(line, 0)| && Trim(Links(line, 0)[k]) == ""
  }

  /** One `malformed_link` per URL that is all whitespace. */
  function BlankLinks(urls: seq<string>, n: int): (r: seq<Issue>)
    ensures forall k :: 0 <= k < |r| ==> r[k] == Issue(MalformedLink, n)
    ensures |r| > 0 <==> exists k :: 0 <= k < |urls| && Trim(urls[k]) == ""
  {
    if |urls| == 0 then []
    else (if Trim(urls[0]) == "" then [Issue(MalformedLink, n)] else []) + BlankLinks(urls[1..], n)
  }

  /** Everything reported for one line outside code, numbered `n`. */
  function LineIssues(line: string, n: int): seq<Issue>
  {
    (if BadHeading(line) then [Issue(HeadingFormat, n)] else [])
    + (if BadIndent(line) then [Issue(ListIndentation, n)] else [])
    + BlankLinks(Links(line, 0), n)
  }

  /** The indent captured on a trimmed line is always empty, so no list item is ever reported. */
  lemma NeverBadIndent(line: string)
    ensures !BadIndent(line)
  {
    var t := Trim(line);
    if |t| > 0 {
      assert !IsSpace(t[0]);
    }
  }

  /** The issues of one line: a heading issue, then one issue per blank link. */
  lemma LineIssuesParts(line: string, n: int)
    ensures LineIssues(line, n) == (if BadHeading(line) then [Issue(HeadingFormat, n)] else []) + BlankLinks(Links(line, 0), n)
  {
    NeverBadIndent(line);
  }

  /** The issues of one line, by kind. */
  lemma LineIssuesMembers(line: string, n: int, x: Issue)
    ensures x in LineIssues(line, n) ==> x.line == n
    ensures x.kind == HeadingFormat ==> (x in LineIssues(line, n) <==> x.line == n && BadHeading(line))
    ensures x.kind == MalformedLink ==> (x in LineIssues(line, n) <==> x.line == n && HasBlankLink(line))
    ensures x.kind != HeadingFormat && x.kind != MalformedLink ==> x !in LineIssues(line, n)
  {
    LineIssuesParts(line, n);
    var h: seq<Issue> := if BadHeading(line) then [Issue(HeadingFormat, n)] else [];
    var b := BlankLinks(Links(line, 0), n);
    assert x in LineIssues(line, n) <==> x in h || x in b;
    if x.kind == MalformedLink && x.line == n && |b| > 0 {
      assert b[0] == x;
    }
  }

  /** A link written as bracketed text and a parenthesised URL is found, with exactly that URL. */
  lemma LinkOfMarkup(text: string, url: string)
    requires |text| > 0 && ']' !in text
    requires |url| > 0 && ')' !in url
    ensures Links("[" + text + "](" + url + ")", 0) == [url]
  {
    var line := "[" + text + "](" + url + ")";
    var j := |text| + 1;
    var k := j + 2 + |url|;
    assert forall q :: 1 <= q < j ==> line[q] == text[q - 1];
    assert FindChar(line, ']', 1) == Some(j) by {
      FindCharAt(line, ']', 1, j);
    }
    assert forall q :: j + 2 <= q < k ==> line[q] == url[q - j - 2];
    assert FindChar(line, ')', j + 2) == Some(k) by {
      FindCharAt(line, ')', j + 2, k);
    }
    assert LinkAt(line, 0) == Some((j + 2, k));
    assert line[j + 2..k] == url;
    assert Links(line, k + 1) == [];
  }

  lemma {:induction false} FindCharAt(s: string, c: char, i: nat, j: nat)
    requires i <= j < |s| && s[j] == c
    requires forall q :: i <= q < j ==> s[q] != c
    ensures FindChar(s, c, i) == Some(j)
    decreases j - i
  {
    if i < j {
      FindCharAt(s, c, i + 1, j);
    }
  }

  // ---------------------------------------------------------------------------------------
  // The scan over the body

  /** A line whose trim starts with three backticks: it opens or closes a code block. */
  predicate IsFenceLine(line: string) {
    "```" <= Trim(line)
  }

  /** The state of the scan: the issues so far, whether it is inside a code block, and the line that opened it. */
  datatype Scan = Scan(issues: seq<Issue>, inCode: bool, start: int)

  /** One step of the scan, over line `i`. */
  function Step(st: Scan, line: string, i: nat): Scan
  {
    var inCode := if IsFenceLine(line) then !st.inCode else st.inCode;
    var start := if IsFenceLine(line) && inCode then i + 1 else st.start;
    if inCode then Scan(st.issues, inCode, start)
    else Scan(st.issues + LineIssues(line, i + 1), inCode, start)
  }

  function ScanFrom(lines: seq<string>, i: nat, st: Scan): Scan
    requires i <= |lines|
    decreases |lines| - i
  {
    if i == |lines| then st else ScanFrom(lines, i + 1, Step(st, lines[i], i))
  }

  /** The number of fence lines among the first `n`. */
  function FenceCount(lines: seq<string>, n: nat): nat
    requires n <= |lines|
  {
    if n == 0 then 0 else FenceCount(lines, n - 1) + (if IsFenceLine(lines[n - 1]) then 1 else 0)
  }

  /** Whether a code block is open after the first `n` lines: every fence line flips it. */
  predicate OpenAfter(lines: seq<string>, n: nat)
    requires n <= |lines|
  {
    if n == 0 then false else OpenAfter(lines, n - 1) != IsFenceLine(lines[n - 1])
  }

  /** A block is open exactly after an odd number of fence lines. */
  lemma {:induction false} OpenAfterOdd(lines: seq<string>, n: nat)
    requires n <= |lines|
    ensures OpenAfter(lines, n) <==> FenceCount(lines, n) % 2 == 1
  {
    if n > 0 {
      OpenAfterOdd(lines, n - 1);
    }
  }

  /** Line `i` is inside a code block once its own fence, if any, has been counted. */
  predicate InCode(lines: seq<string>, i: nat)
    requires i < |lines|
  {
    OpenAfter(lines, i + 1)
  }

  /** The index of the last fence line among the first `n`. */
  function LastFence(lines: seq<string>, n: nat): (r: Option<nat>)
    requires n <= |lines|
    ensures r.Some? ==> r.value < n && IsFenceLine(lines[r.value])
    ensures r.Some? ==> forall k :: r.value < k < n ==> !IsFenceLine(lines[k])
    ensures r.None? ==> FenceCount(lines, n) == 0 && !OpenAfter(lines, n)
  {
    if n == 0 then None
    else if IsFenceLine(lines[n - 1]) then Some(n - 1)
    else LastFence(lines, n - 1)
  }

  /** The issues reported for line `i` (numbered `i + 1`): none inside code. */
  function LineReport(lines: seq<string>, i: nat): seq<Issue>
    requires i < |lines|
  {
    if InCode(lines, i) then [] else LineIssues(lines[i], i + 1)
  }

  /** Reference definition: the issues of every line among the first `n` that is outside code. */
  function BodyIssues(lines: seq<string>, n: nat): seq<Issue>
    requires n <= |lines|
  {
    if n == 0 then [] else BodyIssues(lines, n - 1) + LineReport(lines, n - 1)
  }

  /**
   The scan keeps to the reference after `i` lines: its issues are those of the lines outside
   code, its flag is the parity of the fences seen, and inside a block its start is the line
   after the last fence.
   */
  predicate Agrees(lines: seq<string>, i: nat, st: Scan)
    requires i <= |lines|
  {
    && st.issues == BodyIssues(lines, i)
    && st.inCode == OpenAfter(lines, i)
    && (st.inCode ==> LastFence(lines, i).Some? && st.start == LastFence(lines, i).value + 1)
  }

  lemma StepAgrees(lines: seq<string>, i: nat, st: Scan)
    requires i < |lines|
    requires Agrees(lines, i, st)
    ensures Agrees(lines, i + 1, Step(st, lines[i], i))
  {
    StepFlag(lines, i, st);
    StepStart(lines, i, st);
    StepIssues(lines, i, st);
  }

  lemma StepFlag(lines: seq<string>, i: nat, st: Scan)
    requires i < |lines|
    requires st.inCode == OpenAfter(lines, i)
    ensures Step(st, lines[i], i).inCode == InCode(lines, i)
  {
  }

  lemma StepStart(lines: seq<string>, i: nat, st: Scan)
    requires i < |lines|
    requires st.inCode == OpenAfter(lines, i)
    requires st.inCode ==> LastFence(lines, i).Some? && st.start == LastFence(lines, i).value + 1
    ensures Step(st, lines[i], i).inCode ==>
      LastFence(lines, i + 1).Some? && Step(st, lines[i], i).start == LastFence(lines, i + 1).value + 1
  {
    if IsFenceLine(lines[i]) {
      assert LastFence(lines, i + 1) == Some(i);
    } else {
      assert LastFence(lines, i + 1) == LastFence(lines, i);
    }
  }

  lemma StepIssues(lines: seq<string>, i: nat, st: Scan)
    requires i < |lines|
    requires st.issues == BodyIssues(lines, i)
    requires Step(st, lines[i], i).inCode == InCode(lines, i)
    ensures Step(st, lines[i], i).issues == BodyIssues(lines, i + 1)
  {
    if InCode(lines, i) {
      assert LineReport(lines, i) == [];
      assert BodyIssues(lines, i + 1) == BodyIssues(lines, i) + [];
    } else {
      assert LineReport(lines, i) == LineIssues(lines[i], i + 1);
      assert BodyIssues(lines, i + 1) == BodyIssues(lines, i) + LineIssues(lines[i], i + 1);
    }
  }

  lemma {:induction false} ScanMatches(lines: seq<string>, i: nat, st: Scan)
    requires i <= |lines|
    requires Agrees(lines, i, st)
    ensures Agrees(lines, |lines|, ScanFrom(lines, i, st))
    decreases |lines| - i
  {
    if i < |lines| {
      var next := Step(st, lines[i], i);
      StepAgrees(lines, i, st);
      ScanMatches(lines, i + 1, next);
      assert ScanFrom(lines, i, st) == ScanFrom(lines, i + 1, next);
    } else {
      assert ScanFrom(lines, i, st) == st;
    }
  }

  /** Every issue of a line carries that line's number. */
  lemma LineIssuesLine(line: string, n: int, x: Issue)
    requires x in LineIssues(line, n)
    ensures x.line == n
  {
    LineIssuesParts(line, n);
  }

  /** The reports of successive lines, one after another. */
  function Flatten(rs: seq<seq<Issue>>): seq<Issue>
  {
    if |rs| == 0 then [] else Flatten(rs[..|rs| - 1]) + rs[|rs| - 1]
  }

  /** Every issue in the `i`-th report carries the number `i + 1`. */
  predicate Numbered(rs: seq<seq<Issue>>)
  {
    forall i, y :: 0 <= i < |rs| && y in rs[i] ==> y.line == i + 1
  }

  lemma {:induction false} FlattenMembers(rs: seq<seq<Issue>>, x: Issue)
    requires Numbered(rs)
    ensures x in Flatten(rs) <==> 1 <= x.line <= |rs| && x in rs[x.line - 1]
  {
    if |rs| > 0 {
      var init := rs[..|rs| - 1];
      assert Numbered(init) by {
        forall i: nat, y: Issue | i < |init| && y in init[i] ensures y.line == i + 1 {
          assert init[i] == rs[i];
        }
      }
      FlattenMembers(init, x);
      if 1 <= x.line < |rs| {
        assert init[x.line - 1] == rs[x.line - 1];
      }
    }
  }

  /** The reports of the first `n` lines. */
  function Reports(lines: seq<string>, n: nat): (rs: seq<seq<Issue>>)
    requires n <= |lines|
    ensures |rs| == n
  {
    seq(n, i requires 0 <= i < n => LineReport(lines, i))
  }

  lemma {:induction false} BodyIssuesFlat(lines: seq<string>, n: nat)
    requires n <= |lines|
    ensures BodyIssues(lines, n) == Flatten(Reports(lines, n))
  {
    if n > 0 {
      BodyIssuesFlat(lines, n - 1);
      assert Reports(lines, n)[..n - 1] == Reports(lines, n - 1);
    }
  }

  /** Each issue of the body is one of the issues reported for the line its number names. */
  lemma BodyIssuesMembers(lines: seq<string>, n: nat, x: Issue)
    requires n <= |lines|
    ensures x in BodyIssues(lines, n) <==> 1 <= x.line <= n && x in LineReport(lines, x.line - 1)
  {
    var rs := Reports(lines, n);
    BodyIssuesFlat(lines, n);
    assert Numbered(rs) by {
      forall i: nat, y: Issue | i < |rs| && y in rs[i] ensures y.line == i + 1 {
        LineReportLine(lines, i, y);
      }
    }
    FlattenMembers(rs, x);
  }

  lemma LineReportMembers(lines: seq<string>, i: nat, x: Issue)
    requires i < |lines|
    ensures x in LineReport(lines, i) <==> !InCode(lines, i) && x in LineIssues(lines[i], i + 1)
  {
  }

  /** An issue reported for line `i` carries the number `i + 1`. */
  lemma LineReportLine(lines: seq<string>, i: nat, x: Issue)
    requires i < |lines|
    requires x in LineReport(lines, i)
    ensures x.line == i + 1
  {
    LineIssuesLine(lines[i], i + 1, x);
  }

  /** The body's issues are heading and link issues. */
  lemma BodyIssueKind(lines: seq<string>, x: Issue)
    requires x in BodyIssues(lines, |lines|)
    ensures x.kind == HeadingFormat || x.kind == MalformedLink
  {
    BodyIssueAt(lines, x);
    LineIssuesMembers(lines[x.line - 1], x.line, x);
  }

  // ---------------------------------------------------------------------------------------
  // One post

  /**
   The report, in order: the missing title, the duplicate title, the issues of the body's lines,
   and an unclosed block at `start` when one is `open` at the end.
   */
  function Report(title: Option<string>, lines: seq<string>, issues: seq<Issue>, open: bool, start: int): seq<Issue>
  {
    (if !Truthy(title) then [Issue(MissingTitle, 1)] else [])
    + DuplicateIssue(title, lines)
    + issues
    + (if open then [Issue(UnclosedCodeBlock, start)] else [])
  }

  /** `validateFile` for a post with front-matter title `title` and body `body`. */
  function ValidateBody(title: Option<string>, body: string): seq<Issue>
  {
    var lines := Split(body, '\n');
    var end := ScanFrom(lines, 0, Scan([], false, -1));
    Report(title, lines, end.issues, end.inCode, end.start)
  }

  /** The report in terms of the reference definitions. */
  lemma ValidateParts(title: Option<string>, body: string)
    ensures var lines := Split(body, '\n');
      var open := OpenAfter(lines, |lines|);
      ValidateBody(title, body) ==
        Report(title, lines, BodyIssues(lines, |lines|), open, if open then LastFence(lines, |lines|).value + 1 else -1)
  {
    var lines := Split(body, '\n');
    ScanFromStart(lines);
  }

  lemma ScanFromStart(lines: seq<string>)
    ensures var end := ScanFrom(lines, 0, Scan([], false, -1));
      && end.issues == BodyIssues(lines, |lines|)
      && end.inCode == OpenAfter(lines, |lines|)
      && (end.inCode ==> end.start == LastFence(lines, |lines|).value + 1)
  {
    var first := Scan([], false, -1);
    assert Agrees(lines, 0, first);
    ScanMatches(lines, 0, first);
  }

  /** The duplicate-title issue: at the first heading, when its text matches the title. */
  lemma DuplicateMembers(title: Option<string>, lines: seq<string>, x: Issue)
    ensures x in DuplicateIssue(title, lines) <==>
      && x.kind == DuplicateTitle
      && FirstHeadingFrom(lines, 0).Some?
      && var h := FirstHeadingFrom(lines, 0).value;
      && x.line == h + 1
      && HeadingText(Trim(lines[h])) != ""
      && Truthy(title)
      && Lower(HeadingText(Trim(lines[h]))) == Lower(Trim(title.value))
  {
  }

  /** `missing_title` and `duplicate_title` are reported exactly as the title and first heading call for. */
  lemma ValidateTitleIssues(title: Option<string>, body: string, x: Issue)
    ensures x.kind == MissingTitle ==> (x in ValidateBody(title, body) <==> x.line == 1 && !Truthy(title))
    ensures x.kind == DuplicateTitle ==> (x in ValidateBody(title, body) <==> x in DuplicateIssue(title, Split(body, '\n')))
  {
    var lines := Split(body, '\n');
    ValidateParts(title, body);
    DuplicateMembers(title, lines, x);
    if x in BodyIssues(lines, |lines|) {
      BodyIssueKind(lines, x);
    }
  }

  /**
   `heading_format` and `malformed_link` are reported at exactly the lines outside code that call
   for them, and `list_indentation` never is.
   */
  lemma ValidateLineIssues(title: Option<string>, body: string, x: Issue)
    ensures var lines := Split(body, '\n');
      x.kind == HeadingFormat ==> (x in ValidateBody(title, body) <==>
        1 <= x.line <= |lines| && !InCode(lines, x.line - 1) && BadHeading(lines[x.line - 1]))
    ensures var lines := Split(body, '\n');
      x.kind == MalformedLink ==> (x in ValidateBody(title, body) <==>
        1 <= x.line <= |lines| && !InCode(lines, x.line - 1) && HasBlankLink(lines[x.line - 1]))
    ensures x.kind == ListIndentation ==> x !in ValidateBody(title, body)
  {
    var lines := Split(body, '\n');
    if x.kind == HeadingFormat || x.kind == MalformedLink || x.kind == ListIndentation {
      LineKindsInBody(title, body, x);
      BodyIssueAt(lines, x);
      if 1 <= x.line <= |lines| {
        LineIssuesMembers(lines[x.line - 1], x.line, x);
      }
    }
  }

  /** An issue of a kind lines report is in the report exactly when it is among the body's issues. */
  lemma LineKindsInBody(title: Option<string>, body: string, x: Issue)
    requires x.kind == HeadingFormat || x.kind == MalformedLink || x.kind == ListIndentation
    ensures x in ValidateBody(title, body) <==> x in BodyIssues(Split(body, '\n'), |Split(body, '\n')|)
  {
    var lines := Split(body, '\n');
    ValidateParts(title, body);
    DuplicateMembers(title, lines, x);
  }

  /** An issue is among the body's issues exactly when its line is outside code and reports it. */
  lemma BodyIssueAt(lines: seq<string>, x: Issue)
    ensures x in BodyIssues(lines, |lines|) <==>
      1 <= x.line <= |lines| && !InCode(lines, x.line - 1) && x in LineIssues(lines[x.line - 1], x.line)
  {
    BodyIssuesMembers(lines, |lines|, x);
    if 1 <= x.line <= |lines| {
      LineReportMembers(lines, x.line - 1, x);
    }
  }

  /**
   `unclosed_code_block` is reported exactly when the body has an odd number of fence lines, at
   the 1-based number of the last fence line, the one that opened the block.
   */
  lemma ValidateUnclosed(title: Option<string>, body: string, x: Issue)
    requires x.kind == UnclosedCodeBlock
    ensures var lines := Split(body, '\n');
      x in ValidateBody(title, body) <==>
        FenceCount(lines, |lines|) % 2 == 1 && x.line == LastFence(lines, |lines|).value + 1
  {
    var lines := Split(body, '\n');
    ValidateParts(title, body);
    OpenAfterOdd(lines, |lines|);
    DuplicateMembers(title, lines, x);
    if x in BodyIssues(lines, |lines|) {
      BodyIssueKind(lines, x);
    }
  }

  /** A heading line ending in a carriage return (a CRLF body) is always reported as badly formatted. */
  lemma CarriageReturnHeading(line: string)
    requires IsHeading(line) && |line| > 0 && line[|line| - 1] == '\r'
    ensures BadHeading(line)
  {
  }
}
