/**
 refine-frontmatter.js: the header/body split of `parseFrontMatter`, the heading and paragraph
 extraction from the body, sentence shortening, and the rules that decide each field of the
 refined header. The YAML loader and dumper, the file's relative path, the path separator and
 the publication date are parameters.
 */
module Refine {
  import opened Wrappers
  import opened Text
  import opened FrontMatter
  import opened Markdown

  // ---------------------------------------------------------------------------------------
  // Header and body

  /** What `parseFrontMatter` finds: the header text (None when there is no header) and the body. */
  datatype Parsed = Parsed(header: Option<string>, body: string)

  /**
   The delimiter part of `parseFrontMatter`: without a first-line `---` and a later `---` the
   whole content is the body; otherwise the lines between are the header text and the lines
   after the closing delimiter, joined with `\n`, are the body.
   */
  function ParseFrontMatter(content: string): (p: Parsed)
    ensures FindClosing(SplitLines(content)).None? ==> p.header.None? && p.body == content
    ensures FindClosing(SplitLines(content)).Some? ==>
      var lines := SplitLines(content);
      var e := FindClosing(lines).value;
      p.header == Some(Join(lines[1..e], "\n")) && p.body == Join(lines[e + 1..], "\n")
  {
    var lines := SplitLines(content);
    match FindClosing(lines)
    case None => Parsed(None, content)
    case Some(e) => Parsed(Some(Join(lines[1..e], "\n")), Join(lines[e + 1..], "\n"))
  }

  /** The text written back: the dumped header between delimiter lines, then the body. */
  function Written(header: string, body: string): string
  {
    "---\n" + header + "\n---\n" + body
  }

  lemma WrittenReassembled(header: string, body: string)
    ensures Written(header, body) == Reassemble(Split(header, '\n'), Split(body, '\n'))
  {
    JoinSplit(header, '\n');
    JoinSplit(body, '\n');
  }

  /** Header text whose lines are no delimiter and keep their carriage returns off. */
  predicate PlainText(header: string)
  {
    forall i :: 0 <= i < |Split(header, '\n')| ==>
      Split(header, '\n')[i] != Delimiter && DropCR(Split(header, '\n')[i]) == Split(header, '\n')[i]
  }

  /** Body text none of whose lines but the last ends in a carriage return. */
  predicate PlainBody(body: string)
  {
    forall i :: 0 <= i < |Split(body, '\n')| - 1 ==> DropCR(Split(body, '\n')[i]) == Split(body, '\n')[i]
  }

  /**
   The refined file reads back as written: the header text that was dumped and, byte for byte,
   the body that was parsed.
   */
  lemma ReadWritten(header: string, body: string)
    requires PlainText(header)
    requires PlainBody(body)
    ensures ParseFrontMatter(Written(header, body)) == Parsed(Some(header), body)
  {
    var f, b := Split(header, '\n'), Split(body, '\n');
    calc {
      ParseFrontMatter(Written(header, body));
      { WrittenLines(header, body); }
      Parsed(Some(Join(f, "\n")), Join(b, "\n"));
      { JoinSplit(header, '\n'); JoinSplit(body, '\n'); }
      Parsed(Some(header), body);
    }
  }

  /** The lines of the written file: the header's lines close at `|f| + 1`, and the body's follow. */
  lemma WrittenLines(header: string, body: string)
    requires PlainText(header)
    requires PlainBody(body)
    ensures var f, b := Split(header, '\n'), Split(body, '\n');
      var lines := SplitLines(Written(header, body));
      && FindClosing(lines) == Some(|f| + 1)
      && lines[1..|f| + 1] == f
      && lines[|f| + 2..] == b
  {
    var f, b := Split(header, '\n'), Split(body, '\n');
    assert JoinedLines(f) == f && JoinedLines(b) == b;
    var lines := SplitLines(Written(header, body));
    var sp := Span(0, |f| + 1);
    assert FindHeader(lines) == Some(sp) && HeaderLines(lines, sp) == f && BodyLines(lines, sp) == b by {
      WrittenReassembled(header, body);
      RereadReassembled(f, b);
    }
    ClosingAgreesWithHeader(lines);
  }

  /** A body that `parseFrontMatter` returns is plain, so it survives the write-back. */
  lemma ParsedBodyPlain(content: string)
    requires FindClosing(SplitLines(content)).Some?
    requires PlainLines(SplitLines(content))
    ensures PlainBody(ParseFrontMatter(content).body)
  {
    var lines := SplitLines(content);
    var e := FindClosing(lines).value;
    var body := lines[e + 1..];
    assert forall k :: 0 <= k < |body| ==> body[k] == lines[k + e + 1];
    if |body| > 0 {
      SplitJoin(body, '\n');
    } else {
      assert Split("", '\n') == [""];
    }
  }

  // ---------------------------------------------------------------------------------------
  // extractTitle: the first line matching `^#+\s+(.+)`

  /** The characters a regular expression's `.` does not match. */
  predicate IsLineTerminator(c: char)
  {
    c == '\n' || c == '\r' || c == '\U{2028}' || c == '\U{2029}'
  }

  /**
   `q` is a place where the capture of `^#+\s+(.+)` can begin: the line's `#` run, whitespace
   from there up to `q`, and at `q` a character that `.` matches. Since `\s` never matches `#`,
   the `#+` part always takes the whole run.
   */
  predicate CaptureStart(line: string, q: nat)
  {
    && 1 <= Hashes(line) < q < |line|
    && q - Hashes(line) <= LeadingSpaces(line[Hashes(line)..])
    && !IsLineTerminator(line[q])
  }

  /** The greatest capture start at or below `q`. */
  function StartAtOrBelow(line: string, q: nat): (r: Option<nat>)
    requires q < |line|
    ensures r.Some? ==> r.value <= q
    decreases q
  {
    if q <= Hashes(line) then None
    else if CaptureStart(line, q) then Some(q)
    else StartAtOrBelow(line, q - 1)
  }

  lemma {:induction false} StartAtOrBelowSpec(line: string, q: nat)
    requires q < |line|
    ensures var r := StartAtOrBelow(line, q);
      && (r.Some? ==> r.value <= q && CaptureStart(line, r.value))
      && (r.Some? ==> forall p: nat :: r.value < p <= q ==> !CaptureStart(line, p))
      && (r.None? ==> forall p: nat :: p <= q ==> !CaptureStart(line, p))
    decreases q
  {
    if q > Hashes(line) && !CaptureStart(line, q) {
      StartAtOrBelowSpec(line, q - 1);
    }
  }

  /**
   Where the capture begins: greedy `\s+` first takes the whole whitespace run and gives back
   characters only until `.` can match.
   */
  function TitleStart(line: string): (r: Option<nat>)
    ensures r.Some? ==> r.value < |line|
  {
    var h := Hashes(line);
    if h == 0 || |line| <= h + 1 then None
    else
      var w := LeadingSpaces(line[h..]);
      StartAtOrBelow(line, if h + w < |line| then h + w else |line| - 1)
  }

  /** The capture begins at the greatest possible start, and there is none exactly when no start exists. */
  lemma TitleStartSpec(line: string)
    ensures TitleStart(line).Some? ==> CaptureStart(line, TitleStart(line).value)
    ensures TitleStart(line).Some? ==> forall p: nat :: CaptureStart(line, p) ==> p <= TitleStart(line).value
    ensures TitleStart(line).None? <==> forall p: nat :: !CaptureStart(line, p)
  {
    var h := Hashes(line);
    if h >= 1 && |line| > h + 1 {
      var w := LeadingSpaces(line[h..]);
      StartAtOrBelowSpec(line, if h + w < |line| then h + w else |line| - 1);
    }
  }

  /** The length of the run of characters from `q` that `.` matches; greedy `(.+)` takes all of it. */
  function RunFrom(line: string, q: nat): (n: nat)
    requires q <= |line|
    ensures q + n <= |line|
    ensures forall i :: q <= i < q + n ==> !IsLineTerminator(line[i])
    ensures q + n == |line| || IsLineTerminator(line[q + n])
    decreases |line| - q
  {
    if q == |line| || IsLineTerminator(line[q]) then 0 else 1 + RunFrom(line, q + 1)
  }

  /** What `(.+)` captures on a matching line. */
  function HeadingCapture(line: string): Option<string>
  {
    CaptureFrom(line, TitleStart(line))
  }

  /** The run `(.+)` takes from `start`, when there is one. */
  function CaptureFrom(line: string, start: Option<nat>): Option<string>
    requires start.Some? ==> start.value <= |line|
  {
    match start
    case None => None
    case Some(q) => Some(line[q..q + RunFrom(line, q)])
  }

  /** The title one line yields: the trimmed capture, or None when the line does not match. */
  function HeadingTitle(line: string): Option<string>
  {
    match HeadingCapture(line)
    case None => None
    case Some(c) => Some(Trim(c))
  }

  /** A line yields a title exactly when the regular expression can match it. */
  lemma HeadingMatches(line: string)
    ensures HeadingTitle(line).Some? <==> exists q: nat :: CaptureStart(line, q)
  {
    TitleStartSpec(line);
  }

  /** The index of the first matching line from `i` on. */
  function FirstHeading(lines: seq<string>, i: nat): (r: Option<nat>)
    requires i <= |lines|
    ensures r.Some? ==> i <= r.value < |lines| && HeadingTitle(lines[r.value]).Some?
    ensures r.Some? ==> forall j :: i <= j < r.value ==> HeadingTitle(lines[j]).None?
    ensures r.None? <==> forall k :: i <= k < |lines| ==> HeadingTitle(lines[k]).None?
    decreases |lines| - i
  {
    if i == |lines| then None
    else if HeadingTitle(lines[i]).Some? then Some(i)
    else FirstHeading(lines, i + 1)
  }

  /** `extractTitle`: the title of the first matching line; None is its `null`. */
  function ExtractTitle(content: string): (r: Option<string>)
    ensures r.None? <==> forall k :: 0 <= k < |SplitLines(content)| ==> HeadingTitle(SplitLines(content)[k]).None?
    ensures r.Some? ==> exists k :: 0 <= k < |SplitLines(content)| && r == HeadingTitle(SplitLines(content)[k])
  {
    match FirstHeading(SplitLines(content), 0)
    case None => None
    case Some(k) => HeadingTitle(SplitLines(content)[k])
  }

  /**
   An ordinary heading, `#`s, one space and text starting at `q`, yields the trimmed text from
   `q` on.
   */
  lemma PlainHeading(line: string, q: nat)
    requires q == Hashes(line) + 1 && 2 <= q < |line|
    requires line[q - 1] == ' ' && !IsSpace(line[q])
    requires forall i :: q <= i < |line| ==> !IsLineTerminator(line[i])
    ensures HeadingTitle(line) == Some(Trim(line[q..]))
  {
    PlainStart(line);
    RunToEnd(line, q);
    TitleAt(line, q);
  }

  /** The capture begins at a start that no later start follows. */
  lemma TitleStartAt(line: string, q: nat)
    requires CaptureStart(line, q)
    requires forall p: nat :: q < p < |line| ==> !CaptureStart(line, p)
    ensures TitleStart(line) == Some(q)
  {
    TitleStartSpec(line);
  }

  /** A capture that runs to the end of the line is the rest of the line. */
  lemma TitleAt(line: string, q: nat)
    requires TitleStart(line) == Some(q)
    requires q + RunFrom(line, q) == |line|
    ensures HeadingCapture(line) == Some(line[q..])
    ensures HeadingTitle(line) == Some(Trim(line[q..]))
  {
    CaptureToEnd(line, TitleStart(line), q);
  }

  lemma CaptureToEnd(line: string, start: Option<nat>, q: nat)
    requires start == Some(q) && q <= |line|
    requires q + RunFrom(line, q) == |line|
    ensures CaptureFrom(line, start) == Some(line[q..])
  {
    var n := RunFrom(line, q);
    assert CaptureFrom(line, start) == Some(line[q..q + n]);
    SliceToEnd(line, q, n);
  }

  lemma SliceToEnd(s: string, q: nat, n: nat)
    requires q + n == |s|
    ensures s[q..q + n] == s[q..]
  {
  }

  lemma PlainStart(line: string)
    requires 1 <= Hashes(line) && Hashes(line) + 1 < |line|
    requires line[Hashes(line)] == ' ' && !IsSpace(line[Hashes(line) + 1])
    requires forall i :: Hashes(line) < i < |line| ==> !IsLineTerminator(line[i])
    ensures TitleStart(line) == Some(Hashes(line) + 1)
  {
    var h := Hashes(line);
    var rest := line[h..];
    assert rest[0] == ' ' && rest[1] == line[h + 1];
    assert LeadingSpaces(rest) == 1;
    TitleStartAt(line, h + 1);
  }

  /** From a place with no line terminator after it, `(.+)` runs to the end of the line. */
  lemma {:induction false} RunToEnd(line: string, q: nat)
    requires q <= |line|
    requires forall i :: q <= i < |line| ==> !IsLineTerminator(line[i])
    ensures q + RunFrom(line, q) == |line|
    decreases |line| - q
  {
    if q < |line| {
      RunToEnd(line, q + 1);
    }
  }

  /** Without whitespace after the `#`s a line is no heading. */
  lemma HashesThenText(line: string)
    requires Hashes(line) < |line| && !IsSpace(line[Hashes(line)])
    ensures HeadingTitle(line).None?
  {
    TitleStartSpec(line);
  }

  /**
   A line of `#`s and two or more spaces matches, the capture being the last space, so it
   yields the empty title; with only one space it does not match at all.
   */
  lemma SpacesOnlyHeading(line: string)
    requires 1 <= Hashes(line)
    requires forall i :: Hashes(line) <= i < |line| ==> line[i] == ' '
    ensures |line| >= Hashes(line) + 2 ==> HeadingTitle(line) == Some("")
    ensures |line| <= Hashes(line) + 1 ==> HeadingTitle(line).None?
  {
    if |line| >= Hashes(line) + 2 {
      SpacesCapture(line);
      assert Trim(" ") == "";
    }
  }

  lemma SpacesCapture(line: string)
    requires 1 <= Hashes(line) && Hashes(line) + 2 <= |line|
    requires forall i :: Hashes(line) <= i < |line| ==> line[i] == ' '
    ensures HeadingCapture(line) == Some(" ")
  {
    var h := Hashes(line);
    var rest := line[h..];
    assert forall i :: 0 <= i < |rest| ==> rest[i] == ' ';
    SpacesRun(rest);
    var q := |line| - 1;
    TitleStartAt(line, q);
    assert RunFrom(line, q) == 1;
    TitleAt(line, q);
    assert line[q..] == " ";
  }

  lemma {:induction false} SpacesRun(s: string)
    requires forall i :: 0 <= i < |s| ==> s[i] == ' '
    ensures LeadingSpaces(s) == |s|
    decreases |s|
  {
    if |s| > 0 {
      SpacesRun(s[1..]);
    }
  }

  // ---------------------------------------------------------------------------------------
  // extractDescription: the text lines outside fenced code blocks

  /** A line that opens or closes a fenced code block. */
  predicate IsFence(line: string) {
    "```" <= line
  }

  /** Whether line `n` lies inside a code block: an odd number of fences comes before it. */
  function InCode(lines: seq<string>, n: nat): bool
    requires n <= |lines|
  {
    if n == 0 then false else InCode(lines, n - 1) != IsFence(lines[n - 1])
  }

  /**
   A line whose text goes into the description: not a fence, outside any code block, not blank
   and not starting with `#`.
   */
  predicate Kept(lines: seq<string>, k: nat)
    requires k < |lines|
  {
    && !IsFence(lines[k])
    && !InCode(lines, k)
    && Trim(lines[k]) != ""
    && !("#" <= lines[k])
  }

  /** Reference definition: the kept lines among the first `n`, each followed by a space. */
  function KeptText(lines: seq<string>, n: nat): string
    requires n <= |lines|
  {
    if n == 0 then "" else KeptText(lines, n - 1) + (if Kept(lines, n - 1) then lines[n - 1] + " " else "")
  }

  /**
   The loop of `extractDescription` from line `i` on, in or out of a code block, with `acc`
   gathered so far. Its early exit on a blank line never fires: it sits inside the test that
   already requires a non-blank line, so it is not part of the loop.
   */
  function Gather(lines: seq<string>, i: nat, inCode: bool, acc: string): string
    requires i <= |lines|
    decreases |lines| - i
  {
    if i == |lines| then acc
    else if IsFence(lines[i]) then Gather(lines, i + 1, !inCode, acc)
    else if !inCode && Trim(lines[i]) != "" && !("#" <= lines[i]) then Gather(lines, i + 1, inCode, acc + (lines[i] + " "))
    else Gather(lines, i + 1, inCode, acc)
  }

  /** The loop gathers exactly the reference text: its flag tracks the parity of the fences seen. */
  lemma {:induction false} GatherKept(lines: seq<string>, i: nat, inCode: bool, acc: string)
    requires i <= |lines|
    requires inCode == InCode(lines, i)
    requires acc == KeptText(lines, i)
    ensures Gather(lines, i, inCode, acc) == KeptText(lines, |lines|)
    decreases |lines| - i
  {
    if i < |lines| {
      GatherStep(lines, i, inCode, acc);
      GatherKept(lines, i + 1, InCode(lines, i + 1), KeptText(lines, i + 1));
    }
  }

  /** One turn of the loop moves to the next line with the flag and text the reference gives. */
  lemma GatherStep(lines: seq<string>, i: nat, inCode: bool, acc: string)
    requires i < |lines|
    requires inCode == InCode(lines, i)
    requires acc == KeptText(lines, i)
    ensures Gather(lines, i, inCode, acc) == Gather(lines, i + 1, InCode(lines, i + 1), KeptText(lines, i + 1))
  {
    var line := lines[i];
    assert InCode(lines, i + 1) == (inCode != IsFence(line));
    if IsFence(line) {
      assert !Kept(lines, i);
      assert KeptText(lines, i + 1) == acc + "" == acc;
      assert Gather(lines, i, inCode, acc) == Gather(lines, i + 1, !inCode, acc);
    } else if Kept(lines, i) {
      assert KeptText(lines, i + 1) == acc + (line + " ");
      assert Gather(lines, i, inCode, acc) == Gather(lines, i + 1, inCode, acc + (line + " "));
    } else {
      assert KeptText(lines, i + 1) == acc + "" == acc;
      assert Gather(lines, i, inCode, acc) == Gather(lines, i + 1, inCode, acc);
    }
  }

  /** `extractDescription`: the gathered text, trimmed, with whitespace runs collapsed. */
  function ExtractDescription(content: string): string
  {
    CollapseSpaces(Trim(Gather(SplitLines(content), 0, false, "")))
  }

  /** A blank line between two paragraphs' lines does not end the description. */
  lemma GatherPastBlank(a: string, b: string)
    requires !IsFence(a) && Trim(a) != "" && !("#" <= a)
    requires !IsFence(b) && Trim(b) != "" && !("#" <= b)
    ensures Gather([a, "", b], 0, false, "") == a + " " + b + " "
  {
    var lines := [a, "", b];
    var acc := "" + (a + " ");
    assert !IsFence(lines[1]) && Trim(lines[1]) == "";
    assert Gather(lines, 2, false, acc) == acc + (b + " ");
    assert Gather(lines, 1, false, acc) == Gather(lines, 2, false, acc);
    assert acc + (b + " ") == a + " " + b + " ";
  }

  /** The description is the kept lines of the content, trimmed and collapsed. */
  lemma DescriptionOfKept(content: string)
    ensures var lines := SplitLines(content);
      ExtractDescription(content) == CollapseSpaces(Trim(KeptText(lines, |lines|)))
  {
    GatherKept(SplitLines(content), 0, false, "");
  }

  /** A description is single-spaced and trimmed. */
  lemma DescriptionNormalized(content: string)
    ensures IsNormalized(ExtractDescription(content))
  {
    TrimmedCollapse(Trim(Gather(SplitLines(content), 0, false, "")));
  }

  lemma {:induction false} KeptTextBlank(lines: seq<string>, n: nat)
    requires n <= |lines|
    ensures AllSpace(KeptText(lines, n)) <==> forall k :: 0 <= k < n ==> !Kept(lines, k)
  {
    if n > 0 {
      KeptTextBlank(lines, n - 1);
      var line := lines[n - 1];
      AllSpaceAppend(KeptText(lines, n - 1), if Kept(lines, n - 1) then line + " " else "");
      if Kept(lines, n - 1) {
        AllSpaceAppend(line, " ");
        TrimEmpty(line);
      }
    }
  }

  /** The description is empty exactly when no line of the content is kept. */
  lemma DescriptionEmpty(content: string)
    ensures var lines := SplitLines(content);
      ExtractDescription(content) == "" <==> forall k :: 0 <= k < |lines| ==> !Kept(lines, k)
  {
    var lines := SplitLines(content);
    DescriptionOfKept(content);
    var t := Trim(KeptText(lines, |lines|));
    CollapseShape(t);
    TrimEmpty(KeptText(lines, |lines|));
    KeptTextBlank(lines, |lines|);
  }

  // ---------------------------------------------------------------------------------------
  // shortenToSentences

  predicate IsStop(c: char) {
    c == '.' || c == '!' || c == '?'
  }

  predicate StopFree(s: string) {
    forall i :: 0 <= i < |s| ==> !IsStop(s[i])
  }

  /** Length of the run of sentence stops at the start of `s`. */
  function StopRun(s: string): (n: nat)
    ensures n <= |s|
    ensures forall i :: 0 <= i < n ==> IsStop(s[i])
    ensures n < |s| ==> !IsStop(s[n])
  {
    if |s| > 0 && IsStop(s[0]) then 1 + StopRun(s[1..]) else 0
  }

  /** `s.split(/[.!?]+/)`: the pieces between maximal runs of stops. */
  function StopPieces(s: string): (ps: seq<string>)
    ensures |ps| >= 1
    decreases |s|
  {
    if |s| == 0 then [""]
    else if IsStop(s[0]) then
      var rest := s[StopRun(s)..];
      [""] + StopPieces(rest)
    else
      var tail := StopPieces(s[1..]);
      [[s[0]] + tail[0]] + tail[1..]
  }

  /**
   Every piece is stop-free, every piece but the first and the last is non-empty, and the first
   is non-empty unless the text starts with a stop.
   */
  lemma {:induction false} StopPiecesShape(s: string)
    ensures forall k :: 0 <= k < |StopPieces(s)| ==> StopFree(StopPieces(s)[k])
    ensures forall k :: 0 < k < |StopPieces(s)| - 1 ==> StopPieces(s)[k] != ""
    ensures s != [] && !IsStop(s[0]) ==> StopPieces(s)[0] != ""
    decreases |s|
  {
    if |s| > 0 {
      if IsStop(s[0]) {
        var rest := s[StopRun(s)..];
        StopPiecesShape(rest);
        assert StopPieces(s) == [""] + StopPieces(rest);
      } else {
        var tail := StopPieces(s[1..]);
        StopPiecesShape(s[1..]);
        assert StopPieces(s) == [[s[0]] + tail[0]] + tail[1..];
      }
    }
  }

  /** Stop-free pieces, non-empty inside, joined by `.` split back into themselves. */
  lemma {:induction false} StopPiecesJoin(ps: seq<string>, sep: string)
    requires |ps| >= 1 && |sep| >= 1
    requires forall i :: 0 <= i < |sep| ==> IsStop(sep[i])
    requires forall k :: 0 <= k < |ps| ==> StopFree(ps[k])
    requires forall k :: 0 < k < |ps| - 1 ==> ps[k] != ""
    ensures StopPieces(Join(ps, sep)) == ps
    decreases |ps|
  {
    if |ps| == 1 {
      StopPiecesOfStopFree(ps[0]);
    } else {
      var t := Join(ps[1..], sep);
      StopPiecesJoin(ps[1..], sep);
      if |ps| > 2 {
        assert ps[1] != "" && t == ps[1] + sep + Join(ps[2..], sep);
        assert t[0] == ps[1][0];
      }
      StopPiecesAfterRun(ps[0], sep, t);
      assert [ps[0]] + ps[1..] == ps;
    }
  }

  lemma {:induction false} StopPiecesOfStopFree(s: string)
    requires StopFree(s)
    ensures StopPieces(s) == [s]
    decreases |s|
  {
    if |s| > 0 {
      StopPiecesOfStopFree(s[1..]);
      assert [s[0]] + s[1..] == s;
    }
  }

  lemma {:induction false} StopRunOf(sep: string, t: string)
    requires forall i :: 0 <= i < |sep| ==> IsStop(sep[i])
    requires t == [] || !IsStop(t[0])
    ensures StopRun(sep + t) == |sep|
    decreases |sep|
  {
    if |sep| > 0 {
      StopRunOf(sep[1..], t);
      assert (sep + t)[1..] == sep[1..] + t;
    } else {
      assert sep + t == t;
    }
  }

  /** A stop-free piece, a run of stops, then a text not starting with a stop. */
  lemma {:induction false} StopPiecesAfterRun(a: string, sep: string, t: string)
    requires StopFree(a)
    requires |sep| >= 1 && forall i :: 0 <= i < |sep| ==> IsStop(sep[i])
    requires t == [] || !IsStop(t[0])
    ensures StopPieces(a + sep + t) == [a] + StopPieces(t)
    decreases |a|
  {
    var s := a + sep + t;
    if |a| == 0 {
      assert s == sep + t;
      StopRunOf(sep, t);
      assert s[|sep|..] == t;
    } else {
      StopPiecesAfterRun(a[1..], sep, t);
      assert s[1..] == a[1..] + sep + t;
      assert [a[0]] + a[1..] == a;
    }
  }

  /**
   The pieces after one more character: a stop closes the last piece and opens an empty one,
   unless the text already ended in a stop; any other character extends the last piece.
   */
  function AfterPieces(ps: seq<string>, c: char, endsInStop: bool): seq<string>
    requires |ps| >= 1
  {
    if !IsStop(c) then ps[..|ps| - 1] + [ps[|ps| - 1] + [c]]
    else if endsInStop then ps
    else ps + [""]
  }

  predicate EndsInStop(s: string) {
    s != [] && IsStop(s[|s| - 1])
  }

  /** The first piece grown by a character in front. */
  function Cons(x: char, ps: seq<string>): seq<string>
    requires |ps| >= 1
  {
    [[x] + ps[0]] + ps[1..]
  }

  lemma ConsAfter(x: char, ps: seq<string>, c: char, e: bool)
    requires |ps| >= 1
    ensures Cons(x, AfterPieces(ps, c, e)) == AfterPieces(Cons(x, ps), c, e)
  {
    if !IsStop(c) && |ps| == 1 {
      assert [x] + (ps[0] + [c]) == ([x] + ps[0]) + [c];
    }
  }

  lemma OpenAfter(ps: seq<string>, c: char, e: bool)
    requires |ps| >= 1
    ensures [""] + AfterPieces(ps, c, e) == AfterPieces([""] + ps, c, e)
  {
  }

  lemma StopPiecesCons(x: char, t: string)
    requires !IsStop(x)
    ensures StopPieces([x] + t) == Cons(x, StopPieces(t))
  {
    assert ([x] + t)[1..] == t;
  }

  lemma StopPiecesOpen(s: string)
    requires |s| > 0 && IsStop(s[0])
    ensures StopPieces(s) == [""] + StopPieces(s[StopRun(s)..])
  {
  }

  /** How the pieces change when one character is appended to the text. */
  lemma {:induction false} StopPiecesSnoc(s: string, c: char)
    ensures StopPieces(s + [c]) == AfterPieces(StopPieces(s), c, EndsInStop(s))
    decreases |s|
  {
    var sc := s + [c];
    if |s| == 0 {
      assert sc == [c] && sc[1..] == [];
      assert StopPieces(s) == [""];
      if IsStop(c) {
        assert StopRun(sc) == 1;
        StopPiecesOpen(sc);
      } else {
        StopPiecesOfStopFree(sc);
        assert "" + [c] == [c];
      }
    } else if !IsStop(s[0]) {
      var t := s[1..];
      assert s == [s[0]] + t;
      assert sc == [s[0]] + (t + [c]);
      StopPiecesSnoc(t, c);
      StopPiecesCons(s[0], t);
      StopPiecesCons(s[0], t + [c]);
      assert EndsInStop(s) == EndsInStop(t) by {
        if |t| > 0 {
          assert s[|s| - 1] == t[|t| - 1];
        }
      }
      ConsAfter(s[0], StopPieces(t), c, EndsInStop(t));
    } else {
      var n := StopRun(s);
      StopRunSnoc(s, c);
      StopPiecesOpen(s);
      StopPiecesOpen(sc);
      if n == |s| {
        SnocAfterStops(s, c);
      } else {
        var t := s[n..];
        assert sc[n..] == t + [c];
        StopPiecesSnoc(t, c);
        assert EndsInStop(s) == EndsInStop(t) by {
          assert s[|s| - 1] == t[|t| - 1];
        }
        OpenAfter(StopPieces(t), c, EndsInStop(t));
      }
    }
  }

  /** A text of stops only, then one more character. */
  lemma SnocAfterStops(s: string, c: char)
    requires |s| > 0 && StopRun(s) == |s|
    requires StopRun(s + [c]) == |s| + (if IsStop(c) then 1 else 0)
    ensures StopPieces(s + [c]) == AfterPieces(StopPieces(s), c, EndsInStop(s))
  {
    var sc := s + [c];
    StopPiecesOpen(s);
    StopPiecesOpen(sc);
    assert s[|s|..] == [];
    assert StopPieces(s) == ["", ""];
    assert IsStop(s[|s| - 1]);
    if IsStop(c) {
      assert sc[StopRun(sc)..] == [];
    } else {
      assert sc[StopRun(sc)..] == [c];
      StopPiecesOfStopFree([c]);
      assert "" + [c] == [c];
    }
  }

  lemma {:induction false} StopRunSnoc(s: string, c: char)
    ensures StopRun(s) < |s| ==> StopRun(s + [c]) == StopRun(s)
    ensures StopRun(s) == |s| ==> StopRun(s + [c]) == |s| + (if IsStop(c) then 1 else 0)
    decreases |s|
  {
    if |s| > 0 {
      var sc := s + [c];
      assert sc[0] == s[0] && sc[1..] == s[1..] + [c];
      if IsStop(s[0]) {
        StopRunSnoc(s[1..], c);
        assert StopRun(s) == 1 + StopRun(s[1..]);
        assert StopRun(sc) == 1 + StopRun(s[1..] + [c]);
      }
    } else {
      assert s + [c] == [c] && [c][1..] == [];
    }
  }

  /** `.filter(f)` on strings: the elements `f` accepts, in order. */
  function Filter(f: string -> bool, ps: seq<string>): (r: seq<string>)
    ensures |r| <= |ps|
  {
    if |ps| == 0 then [] else (if f(ps[0]) then [ps[0]] else []) + Filter(f, ps[1..])
  }

  lemma {:induction false} FilterMembers(f: string -> bool, ps: seq<string>)
    ensures forall x :: x in Filter(f, ps) <==> x in ps && f(x)
  {
    if |ps| > 0 {
      FilterMembers(f, ps[1..]);
      assert ps == [ps[0]] + ps[1..];
    }
  }

  lemma {:induction false} FilterAppend(f: string -> bool, a: seq<string>, b: seq<string>)
    ensures Filter(f, a + b) == Filter(f, a) + Filter(f, b)
    decreases |a|
  {
    if |a| == 0 {
      assert a + b == b;
    } else {
      var ab := a + b;
      assert ab[0] == a[0] && ab[1..] == a[1..] + b;
      var head := if f(a[0]) then [a[0]] else [];
      assert Filter(f, ab) == head + Filter(f, a[1..] + b);
      assert Filter(f, a) == head + Filter(f, a[1..]);
      FilterAppend(f, a[1..], b);
    }
  }

  /** A piece with something besides whitespace. */
  predicate HasText(p: string) {
    Trim(p) != ""
  }

  /** The pieces with something besides whitespace, in order: `.filter(s => s.trim().length > 0)`. */
  function NonBlank(ps: seq<string>): (r: seq<string>)
    ensures |r| <= |ps|
  {
    Filter(HasText, ps)
  }

  /** The filter keeps exactly the non-blank pieces. */
  lemma NonBlankMembers(ps: seq<string>)
    ensures forall x :: x in NonBlank(ps) <==> x in ps && Trim(x) != ""
  {
    FilterMembers(HasText, ps);
  }

  lemma NonBlankAppend(a: seq<string>, b: seq<string>)
    ensures NonBlank(a + b) == NonBlank(a) + NonBlank(b)
  {
    FilterAppend(HasText, a, b);
  }

  /** The sentences of a text. */
  function Sentences(text: string): seq<string>
  {
    NonBlank(StopPieces(text))
  }

  /** `shortenToSentences(text, max)`: the first `max` sentences, and a closing `.` when any were dropped. */
  function Shorten(text: string, max: nat): string
  {
    var ss := Sentences(text);
    var kept := if |ss| <= max then ss else ss[..max];
    Trim(Join(kept, ". ")) + (if |ss| > max then "." else "")
  }

  /** Two lists of sentences that agree once each one is trimmed. */
  predicate SameText(a: seq<string>, b: seq<string>) {
    |a| == |b| && forall k :: 0 <= k < |a| ==> Trim(a[k]) == Trim(b[k])
  }

  lemma SameTextSym(a: seq<string>, b: seq<string>)
    requires SameText(a, b)
    ensures SameText(b, a)
  {
  }

  lemma SameTextTrans(a: seq<string>, b: seq<string>, c: seq<string>)
    requires SameText(a, b) && SameText(b, c)
    ensures SameText(a, c)
  {
  }

  lemma SameTextAppend(a: seq<string>, b: seq<string>, c: seq<string>, d: seq<string>)
    requires SameText(a, b) && SameText(c, d)
    ensures SameText(a + c, b + d)
  {
    forall k | 0 <= k < |a + c|
      ensures Trim((a + c)[k]) == Trim((b + d)[k])
    {
      if k >= |a| {
        assert (a + c)[k] == c[k - |a|] && (b + d)[k] == d[k - |b|];
      }
    }
  }

  /** A stop at the end adds no sentence and changes none. */
  lemma SentencesSnocStop(s: string, c: char)
    requires IsStop(c)
    ensures Sentences(s + [c]) == Sentences(s)
  {
    var ps := StopPieces(s);
    StopPiecesSnoc(s, c);
    if !EndsInStop(s) {
      NonBlankAppend(ps, [""]);
      NonBlankSingle("");
      assert NonBlank(ps) + [] == NonBlank(ps);
    }
  }

  /** Whitespace at the end adds no sentence and changes none but for whitespace. */
  lemma SentencesSnocSpace(s: string, c: char)
    requires IsSpace(c)
    ensures SameText(Sentences(s + [c]), Sentences(s))
  {
    var ps := StopPieces(s);
    var pre := ps[..|ps| - 1];
    var last := ps[|ps| - 1];
    var grown := last + [c];
    assert Sentences(s + [c]) == NonBlank(pre) + NonBlank([grown]) by {
      StopPiecesSnoc(s, c);
      NonBlankAppend(pre, [grown]);
    }
    assert Sentences(s) == NonBlank(pre) + NonBlank([last]) by {
      assert pre + [last] == ps;
      NonBlankAppend(pre, [last]);
    }
    SingleSnocSpace(last, c);
    SameTextAppend(NonBlank(pre), NonBlank(pre), NonBlank([grown]), NonBlank([last]));
  }

  /** Whitespace in front adds no sentence and changes none but for whitespace. */
  lemma SentencesConsSpace(c: char, s: string)
    requires IsSpace(c)
    ensures SameText(Sentences([c] + s), Sentences(s))
  {
    var ps := StopPieces(s);
    var first := ps[0];
    var rest := ps[1..];
    var grown := [c] + first;
    assert Sentences([c] + s) == NonBlank([grown]) + NonBlank(rest) by {
      StopPiecesCons(c, s);
      NonBlankAppend([grown], rest);
    }
    assert Sentences(s) == NonBlank([first]) + NonBlank(rest) by {
      assert [first] + rest == ps;
      NonBlankAppend([first], rest);
    }
    SingleConsSpace(c, first);
    SameTextAppend(NonBlank([grown]), NonBlank([first]), NonBlank(rest), NonBlank(rest));
  }

  /** The filter on one piece: kept exactly when it has text. */
  lemma NonBlankSingle(p: string)
    ensures NonBlank([p]) == if Trim(p) != "" then [p] else []
  {
    assert [p][1..] == [];
  }

  lemma SingleSnocSpace(p: string, c: char)
    requires IsSpace(c)
    ensures SameText(NonBlank([p + [c]]), NonBlank([p]))
  {
    NonBlankSingle(p);
    NonBlankSingle(p + [c]);
    TrimTrailingSpace(p, c);
  }

  lemma SingleConsSpace(c: char, p: string)
    requires IsSpace(c)
    ensures SameText(NonBlank([[c] + p]), NonBlank([p]))
  {
    NonBlankSingle(p);
    NonBlankSingle([c] + p);
    TrimLeadingSpace(c, p);
  }

  lemma {:induction false} SentencesDropLeading(s: string, n: nat)
    requires n <= |s|
    requires forall i :: 0 <= i < n ==> IsSpace(s[i])
    ensures SameText(Sentences(s[n..]), Sentences(s))
    decreases n
  {
    if n > 0 {
      SentencesDropLeading(s[1..], n - 1);
      assert s[1..][n - 1..] == s[n..];
      SentencesConsSpace(s[0], s[1..]);
      assert [s[0]] + s[1..] == s;
      SameTextSym(Sentences(s), Sentences(s[1..]));
      SameTextTrans(Sentences(s[n..]), Sentences(s[1..]), Sentences(s));
    }
  }

  lemma {:induction false} SentencesDropTrailing(t: string, m: nat)
    requires m <= |t|
    requires forall i :: |t| - m <= i < |t| ==> IsSpace(t[i])
    ensures SameText(Sentences(t[..|t| - m]), Sentences(t))
    decreases m
  {
    if m == 0 {
      assert t[..|t|] == t;
    } else {
      var u := t[..|t| - 1];
      SentencesDropTrailing(u, m - 1);
      assert u[..|u| - (m - 1)] == t[..|t| - m];
      SentencesSnocSpace(u, t[|t| - 1]);
      assert u + [t[|t| - 1]] == t;
      SameTextSym(Sentences(t), Sentences(u));
      SameTextTrans(Sentences(t[..|t| - m]), Sentences(u), Sentences(t));
    }
  }

  /** Trimming a text keeps its sentences, each up to surrounding whitespace. */
  lemma SentencesTrim(s: string)
    ensures SameText(Sentences(Trim(s)), Sentences(s))
  {
    var t := s[LeadingSpaces(s)..];
    SentencesDropLeading(s, LeadingSpaces(s));
    SentencesDropTrailing(t, TrailingSpaces(t));
    SameTextTrans(Sentences(Trim(s)), Sentences(t), Sentences(s));
  }

  /** Stop-free, non-blank sentences joined by `. ` are read back as themselves, up to whitespace. */
  lemma {:induction false} SentencesOfJoin(xs: seq<string>)
    requires forall k :: 0 <= k < |xs| ==> StopFree(xs[k]) && Trim(xs[k]) != ""
    ensures SameText(Sentences(Join(xs, ". ")), xs)
    decreases |xs|
  {
    if |xs| == 0 {
      assert StopPieces("") == [""];
      NonBlankSingle("");
    } else if |xs| == 1 {
      StopPiecesOfStopFree(xs[0]);
      NonBlankSingle(xs[0]);
    } else {
      var rest := Join(xs[1..], ". ");
      SentencesOfJoin(xs[1..]);
      assert Join(xs, ". ") == xs[0] + ". " + rest;
      SentenceThen(xs[0], rest);
      SameTextAppend([xs[0]], [xs[0]], Sentences(rest), xs[1..]);
      assert [xs[0]] + xs[1..] == xs;
      SameTextTrans(Sentences(Join(xs, ". ")), [xs[0]] + Sentences(rest), xs);
    }
  }

  /** One sentence, `. `, then any text: that sentence, then the text's sentences. */
  lemma SentenceThen(x: string, rest: string)
    requires StopFree(x) && Trim(x) != ""
    ensures SameText(Sentences(x + ". " + rest), [x] + Sentences(rest))
  {
    assert x + ". " + rest == x + "." + (" " + rest);
    StopPiecesAfterRun(x, ".", " " + rest);
    NonBlankAppend([x], StopPieces(" " + rest));
    NonBlankSingle(x);
    SentencesConsSpace(' ', rest);
    SameTextAppend([x], [x], Sentences(" " + rest), Sentences(rest));
  }

  /** Every sentence is free of stops and has text. */
  lemma SentencesShape(text: string)
    ensures forall k :: 0 <= k < |Sentences(text)| ==>
      StopFree(Sentences(text)[k]) && Trim(Sentences(text)[k]) != ""
  {
    var ss := Sentences(text);
    StopPiecesShape(text);
    NonBlankMembers(StopPieces(text));
    forall k | 0 <= k < |ss| ensures StopFree(ss[k]) && Trim(ss[k]) != "" {
      assert ss[k] in ss;
    }
  }

  /**
   A shortened text reads back as the first `max` sentences of the text, or all of them when
   there are fewer, each the same up to surrounding whitespace.
   */
  lemma ShortenSentences(text: string, max: nat)
    ensures |Sentences(Shorten(text, max))| == if |Sentences(text)| <= max then |Sentences(text)| else max
    ensures forall k :: 0 <= k < |Sentences(Shorten(text, max))| ==>
      Trim(Sentences(Shorten(text, max))[k]) == Trim(Sentences(text)[k])
  {
    var ss := Sentences(text);
    var kept := if |ss| <= max then ss else ss[..max];
    SentencesShape(text);
    assert forall k :: 0 <= k < |kept| ==> kept[k] == ss[k];
    SentencesOfJoin(kept);
    var t := Trim(Join(kept, ". "));
    SentencesTrim(Join(kept, ". "));
    SameTextTrans(Sentences(t), Sentences(Join(kept, ". ")), kept);
    if |ss| > max {
      SentencesSnocStop(t, '.');
      assert t + "." == t + ['.'];
    } else {
      assert t + "" == t;
    }
    assert SameText(Sentences(Shorten(text, max)), kept);
  }

  // ---------------------------------------------------------------------------------------
  // getPubDate: a 13-digit file name is a millisecond timestamp

  predicate IsDigit(c: char) {
    '0' <= c <= '9'
  }

  /** A base name matching `^\d{13}$`. */
  predicate IsStamp(base: string) {
    |base| == 13 && forall i :: 0 <= i < |base| ==> IsDigit(base[i])
  }

  /** `parseInt` on a string of decimal digits. */
  function DigitsValue(s: string): nat
    requires forall i :: 0 <= i < |s| ==> IsDigit(s[i])
  {
    if s == [] then 0
    else
      assert IsDigit(s[|s| - 1]);
      DigitsValue(s[..|s| - 1]) * 10 + (s[|s| - 1] as int - '0' as int)
  }

  function Pow10(n: nat): (p: nat)
    ensures p >= 1
  {
    if n == 0 then 1 else 10 * Pow10(n - 1)
  }

  /** `n` written with exactly `width` decimal digits, zero-padded on the left. */
  function Decimal(n: nat, width: nat): (s: string)
    ensures |s| == width
    ensures forall i :: 0 <= i < |s| ==> IsDigit(s[i])
  {
    if width == 0 then "" else Decimal(n / 10, width - 1) + [('0' as int + n % 10) as char]
  }

  /** Reading the digits back gives the number, when it fits in the width. */
  lemma {:induction false} DecimalValue(n: nat, width: nat)
    requires n < Pow10(width)
    ensures DigitsValue(Decimal(n, width)) == n
  {
    if width > 0 {
      var q, d := n / 10, n % 10;
      assert n == q * 10 + d;
      assert q < Pow10(width - 1);
      DecimalValue(q, width - 1);
      var s := Decimal(n, width);
      var c := ('0' as int + d) as char;
      assert s == Decimal(q, width - 1) + [c];
      assert s[..|s| - 1] == Decimal(q, width - 1);
      assert s[|s| - 1] as int - '0' as int == d;
    }
  }

  /** Every timestamp below 10^13 milliseconds has a 13-digit name that reads back as itself. */
  lemma StampOfTime(n: nat)
    requires n < Pow10(13)
    ensures IsStamp(Decimal(n, 13)) && DigitsValue(Decimal(n, 13)) == n
  {
    DecimalValue(n, 13);
  }

  /**
   `getPubDate`: the file's own timestamp when its base name is 13 digits, otherwise the current
   time. Formatting a timestamp (`toISOString`) and the clock are parameters.
   */
  function PubDate(base: string, iso: nat -> string, now: string): string
  {
    if IsStamp(base) then iso(DigitsValue(base)) else now
  }

  // ---------------------------------------------------------------------------------------
  // The field rules

  /**
   The header fields the script reads and sets. A string field is None when it is missing;
   `rest` holds the other keys, which pass through untouched. Only string values are modelled.
   */
  datatype Data = Data(
    title: Option<string>,
    category: Option<string>,
    tags: Option<seq<string>>,
    description: Option<string>,
    pubDate: Option<string>,
    draft: Option<bool>,
    excerpt: Option<string>,
    rest: map<string, string>)

  /** `{}`: what a header that cannot be loaded, or is missing, gives. */
  const NoData := Data(None, None, None, None, None, None, None, map[])

  /** A title worth replacing by the body's heading: `introduction`, one word, or shorter than 5. */
  predicate WeakTitle(t: string) {
    Lower(t) == "introduction" || |Split(t, ' ')| == 1 || |t| < 5
  }

  /** A title is one word exactly when it has no space. */
  lemma WeakTitleWords(t: string)
    ensures |Split(t, ' ')| == 1 <==> ' ' !in t
  {
    SplitSingle(t, ' ');
  }

  /**
   The title rule: a weak title gives way to the body's first heading; a missing title becomes
   the heading, or the file's base name when the body has none.
   */
  function ChooseTitle(title: Option<string>, heading: Option<string>, base: string): string
  {
    if Truthy(heading) && Truthy(title) && WeakTitle(title.value) then heading.value
    else if !Truthy(title) then (if Truthy(heading) then heading.value else base)
    else title.value
  }

  /** The chosen title is the old one, the heading or the base name, and is empty only when all three are. */
  lemma ChooseTitleSource(title: Option<string>, heading: Option<string>, base: string)
    ensures var t := ChooseTitle(title, heading, base);
      (Truthy(title) && t == title.value) || (Truthy(heading) && t == heading.value) || t == base
    ensures ChooseTitle(title, heading, base) == "" <==> !Truthy(title) && !Truthy(heading) && base == ""
    ensures Truthy(title) && !WeakTitle(title.value) ==> ChooseTitle(title, heading, base) == title.value
  {
  }

  /** Choosing again, with the chosen title in place, keeps it. */
  lemma ChooseTitleTwice(title: Option<string>, heading: Option<string>, base: string)
    ensures var t := ChooseTitle(title, heading, base);
      ChooseTitle(Some(t), heading, base) == t
  {
  }

  /** `relativePath.split(path.sep)[0]`: the first component of the post's relative path. */
  function Category(rel: string, sep: char): (c: string)
    ensures sep !in c
  {
    Split(rel, sep)[0]
  }

  /** A post in a directory is filed under its top directory. */
  lemma CategoryOfPath(dirs: seq<string>, file: string, sep: char)
    requires |dirs| >= 1
    requires forall k :: 0 <= k < |dirs| ==> sep !in dirs[k]
    requires sep !in file
    ensures Category(Join(dirs + [file], [sep]), sep) == dirs[0]
  {
    SplitJoin(dirs + [file], sep);
  }

  /** A post at the top of the posts directory is filed under its own file name. */
  lemma CategoryTopLevel(file: string, sep: char)
    requires sep !in file
    ensures Category(file, sep) == file
  {
    SplitNoSep(file, sep);
  }

  /**
   The description rule: the body's shortened paragraph text when there is any, else the given
   description, else a sentence naming the title.
   */
  function ChooseDescription(given: Option<string>, body: string, title: string): (d: string)
    ensures ExtractDescription(body) != "" ==> d == Shorten(ExtractDescription(body), 2)
    ensures ExtractDescription(body) == "" && Truthy(given) ==> d == given.value
    ensures ExtractDescription(body) == "" && !Truthy(given) ==> d == "A post about " + title
  {
    var found := ExtractDescription(body);
    if found != "" then Shorten(found, 2)
    else if Truthy(given) then given.value
    else "A post about " + title
  }

  /**
   Every field the script sets, given the post's body, base name, relative path, the platform
   separator and the date `getPubDate` would give.
   */
  function RefineData(d: Data, body: string, base: string, rel: string, sep: char, date: string): (r: Data)
    ensures r.rest == d.rest
    ensures r.category == Some(Category(rel, sep))
    ensures r.tags == if d.tags.Some? then d.tags else Some([])
    ensures r.draft == Some(false)
    ensures r.excerpt == r.description
    ensures Truthy(d.pubDate) ==> r.pubDate == d.pubDate
    ensures !Truthy(d.pubDate) ==> r.pubDate == Some(date)
  {
    var title := ChooseTitle(d.title, ExtractTitle(body), base);
    var description := ChooseDescription(d.description, body, title);
    d.(title := Some(title),
       category := Some(Category(rel, sep)),
       tags := Some(d.tags.GetOr([])),
       description := Some(description),
       pubDate := if Truthy(d.pubDate) then d.pubDate else Some(date),
       draft := Some(false),
       excerpt := Some(description))
  }

  /** A description taken from the body has at most two sentences. */
  lemma RefinedDescriptionShort(d: Data, body: string, base: string, rel: string, sep: char, date: string)
    requires ExtractDescription(body) != ""
    ensures var r := RefineData(d, body, base, rel, sep, date);
      r.description.Some? && |Sentences(r.description.value)| <= 2
  {
    ShortenSentences(ExtractDescription(body), 2);
  }

  /**
   Refining refined data again changes nothing, even with another date, as long as the first
   date was not empty.
   */
  lemma RefineDataTwice(d: Data, body: string, base: string, rel: string, sep: char, date1: string, date2: string)
    requires date1 != ""
    ensures var once := RefineData(d, body, base, rel, sep, date1);
      RefineData(once, body, base, rel, sep, date2) == once
  {
    var once := RefineData(d, body, base, rel, sep, date1);
    var heading := ExtractTitle(body);
    ChooseTitleTwice(d.title, heading, base);
    var title := ChooseTitle(d.title, heading, base);
    assert once.title == Some(title);
  }

  // ---------------------------------------------------------------------------------------
  // One post

  /**
   One post: split off the header, load it (`load` gives None when js-yaml throws or yields
   nothing), set the fields, and write the trimmed dump above the untouched body.
   */
  function RefineFile(content: string, base: string, rel: string, sep: char,
                      load: string -> Option<Data>, dump: Data -> string,
                      iso: nat -> string, now: string): string
  {
    var p := ParseFrontMatter(content);
    var d := if p.header.Some? then load(p.header.value).GetOr(NoData) else NoData;
    Written(Trim(dump(RefineData(d, p.body, base, rel, sep, PubDate(base, iso, now)))), p.body)
  }

  /** The loader reads back whatever the dumper wrote, once trimmed. */
  ghost predicate ReadsBack(load: string -> Option<Data>, dump: Data -> string) {
    forall d: Data :: load(Trim(dump(d))) == Some(d)
  }

  /** The dumper writes no `---` line and ends no line in a carriage return. */
  ghost predicate DumpsPlain(dump: Data -> string) {
    forall d: Data :: PlainText(Trim(dump(d)))
  }

  /** The refined post reads back with the dumped header and exactly the body it had. */
  lemma RefineFileBody(content: string, base: string, rel: string, sep: char,
                       load: string -> Option<Data>, dump: Data -> string,
                       iso: nat -> string, now: string)
    requires DumpsPlain(dump)
    requires PlainBody(ParseFrontMatter(content).body)
    ensures var p := ParseFrontMatter(RefineFile(content, base, rel, sep, load, dump, iso, now));
      p.header.Some? && p.body == ParseFrontMatter(content).body
  {
    var p := ParseFrontMatter(content);
    var d := if p.header.Some? then load(p.header.value).GetOr(NoData) else NoData;
    var h := Trim(dump(RefineData(d, p.body, base, rel, sep, PubDate(base, iso, now))));
    assert RefineFile(content, base, rel, sep, load, dump, iso, now) == Written(h, p.body);
    ReadWritten(h, p.body);
  }

  /**
   Refining a refined post again leaves it as it is, even at another time, when the dumped
   header reads back, no body line but the last ends in a carriage return, and the first run's
   date was not empty.
   */
  lemma RefineFileTwice(content: string, base: string, rel: string, sep: char,
                        load: string -> Option<Data>, dump: Data -> string,
                        iso: nat -> string, now1: string, now2: string)
    requires ReadsBack(load, dump) && DumpsPlain(dump)
    requires PlainBody(ParseFrontMatter(content).body)
    requires PubDate(base, iso, now1) != ""
    ensures var once := RefineFile(content, base, rel, sep, load, dump, iso, now1);
      RefineFile(once, base, rel, sep, load, dump, iso, now2) == once
  {
    var date1, date2 := PubDate(base, iso, now1), PubDate(base, iso, now2);
    var p := ParseFrontMatter(content);
    var d := if p.header.Some? then load(p.header.value).GetOr(NoData) else NoData;
    var d1 := RefineData(d, p.body, base, rel, sep, date1);
    var h := Trim(dump(d1));
    var once := Written(h, p.body);
    assert RefineFile(content, base, rel, sep, load, dump, iso, now1) == once;
    ReadWritten(h, p.body);
    assert load(h) == Some(d1);
    RefineDataTwice(d, p.body, base, rel, sep, date1, date2);
  }
}
