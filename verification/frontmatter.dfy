/**
 The front-matter layout every script shares: a document split into lines, a header between
 two lines that are exactly `---`, and the body after the second one. Two searches occur in
 the scripts: the "first two `---` lines anywhere" search (fix-yaml-errors.js,
 check-yaml-parsing-errors.js, fix-yaml-frontmatter.js, fix-yaml-parsing.js) and the
 "line 0 is `---`, then the first later `---`" search (update-tags.js, update-frontmatter.js,
 refine-frontmatter.js).
 */
module FrontMatter {
  import opened Wrappers
  import opened Text

  const Delimiter := "---"

  /** The tags field's key, as the scripts test for it with `startsWith`. */
  const TagsKey := "tags:"

  /** Number of lines that are exactly `---`. Matching is exact: ` ---` and `--- ` do not count. */
  function CountDelimiters(lines: seq<string>): nat
  {
    if |lines| == 0 then 0
    else (if lines[0] == Delimiter then 1 else 0) + CountDelimiters(lines[1..])
  }

  /** Index of the first `---` line at or after `from`. */
  function FindFrom(lines: seq<string>, from: nat): (r: Option<nat>)
    requires from <= |lines|
    ensures r.Some? ==> from <= r.value < |lines| && lines[r.value] == Delimiter
    ensures r.Some? ==> forall k :: from <= k < r.value ==> lines[k] != Delimiter
    ensures r.None? ==> forall k :: from <= k < |lines| ==> lines[k] != Delimiter
    decreases |lines| - from
  {
    if from == |lines| then None
    else if lines[from] == Delimiter then Some(from)
    else FindFrom(lines, from + 1)
  }

  lemma {:induction false} CountNone(lines: seq<string>)
    requires forall k :: 0 <= k < |lines| ==> lines[k] != Delimiter
    ensures CountDelimiters(lines) == 0
    decreases |lines|
  {
    if |lines| > 0 {
      CountNone(lines[1..]);
    }
  }

  /** Counting from `from` splits at the first delimiter found there. */
  lemma {:induction false} CountFrom(lines: seq<string>, from: nat)
    requires from <= |lines|
    ensures FindFrom(lines, from).None? ==> CountDelimiters(lines[from..]) == 0
    ensures FindFrom(lines, from).Some? ==>
      CountDelimiters(lines[from..]) == 1 + CountDelimiters(lines[FindFrom(lines, from).value + 1..])
    decreases |lines| - from
  {
    if from == |lines| {
    } else {
      assert lines[from..][1..] == lines[from + 1..];
      if lines[from] != Delimiter {
        CountFrom(lines, from + 1);
      }
    }
  }

  /** Line indices of the two delimiters that bound the header. */
  datatype Span = Span(start: nat, end: nat)

  predicate ValidSpan(lines: seq<string>, sp: Span) {
    sp.start < sp.end < |lines|
  }

  /**
   The first two lines that are exactly `---`. None when fewer than two exist; that is the
   "no front matter" outcome, not an error.
   */
  function FindHeader(lines: seq<string>): (r: Option<Span>)
    ensures r.None? <==> CountDelimiters(lines) < 2
    ensures r.Some? ==> ValidSpan(lines, r.value)
    ensures r.Some? ==> lines[r.value.start] == Delimiter && lines[r.value.end] == Delimiter
    ensures r.Some? ==> forall k :: 0 <= k < r.value.start ==> lines[k] != Delimiter
    ensures r.Some? ==> forall k :: r.value.start < k < r.value.end ==> lines[k] != Delimiter
  {
    CountFrom(lines, 0);
    assert lines[0..] == lines;
    match FindFrom(lines, 0)
    case None => None
    case Some(s) =>
      CountFrom(lines, s + 1);
      assert lines[s + 1..][0..] == lines[s + 1..];
      match FindFrom(lines, s + 1)
      case None => None
      case Some(e) => Some(Span(s, e))
  }

  /** The search finds the first delimiter at or after `from`. */
  lemma {:induction false} FindFromFirst(lines: seq<string>, from: nat, s: nat)
    requires from <= s < |lines| && lines[s] == Delimiter
    requires forall k :: from <= k < s ==> lines[k] != Delimiter
    ensures FindFrom(lines, from) == Some(s)
    decreases s - from
  {
    if from < s {
      FindFromFirst(lines, from + 1, s);
    }
  }

  /** The header is determined by its two delimiters: the first, and the next one after it. */
  lemma FindHeaderAt(lines: seq<string>, s: nat, e: nat)
    requires s < e < |lines| && lines[s] == Delimiter && lines[e] == Delimiter
    requires forall k :: 0 <= k < s ==> lines[k] != Delimiter
    requires forall k :: s < k < e ==> lines[k] != Delimiter
    ensures FindHeader(lines) == Some(Span(s, e))
  {
    FindFromFirst(lines, 0, s);
    FindFromFirst(lines, s + 1, e);
  }

  /** The header lines, strictly between the two delimiters. */
  function HeaderLines(lines: seq<string>, sp: Span): seq<string>
    requires ValidSpan(lines, sp)
  {
    lines[sp.start + 1..sp.end]
  }

  /** The body lines, strictly after the second delimiter. */
  function BodyLines(lines: seq<string>, sp: Span): seq<string>
    requires ValidSpan(lines, sp)
  {
    lines[sp.end + 1..]
  }

  /**
   The text a script writes back: `---`, the header lines, `---`, then the body lines, all
   joined with `\n`. Whatever preceded the first delimiter is gone.
   */
  function Reassemble(header: seq<string>, body: seq<string>): string
  {
    "---\n" + Join(header, "\n") + "\n---\n" + Join(body, "\n")
  }

  lemma ReassembleParts(jf: string, jb: string)
    ensures "---\n" + jf + "\n---\n" + jb == "---" + ['\n'] + (jf + "\n" + ("---" + ['\n'] + jb))
  {
  }

  /** The written text splits into its parts (one empty line stands for an empty block). */
  lemma SplitReassembled(f: seq<string>, b: seq<string>)
    requires forall i :: 0 <= i < |f| ==> '\n' !in f[i]
    requires forall i :: 0 <= i < |b| ==> '\n' !in b[i]
    ensures Split(Reassemble(f, b), '\n') == [Delimiter] + JoinedLines(f) + [Delimiter] + JoinedLines(b)
  {
    var jf, jb := Join(f, "\n"), Join(b, "\n");
    var tail := "---" + ['\n'] + jb;
    calc {
      Split(Reassemble(f, b), '\n');
      { ReassembleParts(jf, jb); }
      Split("---" + ['\n'] + (jf + "\n" + tail), '\n');
      { SplitAppend("---", '\n', jf + "\n" + tail); }
      ["---"] + Split(jf + "\n" + tail, '\n');
      { SplitJoinThen(f, tail); }
      ["---"] + (JoinedLines(f) + Split(tail, '\n'));
      { SplitAppend("---", '\n', jb); SplitJoinLines(b); }
      ["---"] + (JoinedLines(f) + (["---"] + JoinedLines(b)));
    }
  }

  /**
   A text that splits at `\n` into `---`, header pieces, `---`, body pieces is read back with
   exactly those header lines, provided no header piece is `---` or ends in a carriage return.
   */
  lemma RereadHeader(out: string, jf: seq<string>, jb: seq<string>)
    requires Split(out, '\n') == [Delimiter] + jf + [Delimiter] + jb
    requires |jb| >= 1
    requires forall j :: 0 <= j < |jf| ==> jf[j] != Delimiter && DropCR(jf[j]) == jf[j]
    ensures FindHeader(SplitLines(out)) == Some(Span(0, |jf| + 1))
    ensures HeaderLines(SplitLines(out), Span(0, |jf| + 1)) == jf
  {
    var parts := Split(out, '\n');
    var lines := SplitLines(out);
    var e := |jf| + 1;
    SplitLinesPieces(out);
    assert lines[0] == DropCR(Delimiter) == Delimiter;
    assert lines[e] == DropCR(Delimiter) == Delimiter;
    forall k | 0 < k < e
      ensures lines[k] == jf[k - 1] && lines[k] != Delimiter
    {
      assert parts[k] == jf[k - 1];
    }
    FindHeaderAt(lines, 0, e);
    assert HeaderLines(lines, Span(0, e)) == jf;
  }

  /** A run of final pieces none of which but the last ends in a carriage return comes back whole. */
  lemma SplitLinesTail(s: string, n: nat)
    requires n < |Split(s, '\n')|
    requires forall j :: n <= j < |Split(s, '\n')| - 1 ==> DropCR(Split(s, '\n')[j]) == Split(s, '\n')[j]
    ensures SplitLines(s)[n..] == Split(s, '\n')[n..]
  {
    SplitLinesPieces(s);
  }

  /** The body pieces come back too, when none but the last ends in a carriage return. */
  lemma RereadFramed(out: string, jf: seq<string>, jb: seq<string>)
    requires Split(out, '\n') == [Delimiter] + jf + [Delimiter] + jb
    requires |jb| >= 1
    requires forall j :: 0 <= j < |jf| ==> jf[j] != Delimiter && DropCR(jf[j]) == jf[j]
    requires forall j :: 0 <= j < |jb| - 1 ==> DropCR(jb[j]) == jb[j]
    ensures FindHeader(SplitLines(out)) == Some(Span(0, |jf| + 1))
    ensures BodyLines(SplitLines(out), Span(0, |jf| + 1)) == jb
  {
    RereadHeader(out, jf, jb);
    var parts := Split(out, '\n');
    assert parts[|jf| + 2..] == jb;
    SplitLinesTail(out, |jf| + 2);
  }

  /**
   Written-back text is read back with the same header and body, when the header lines are
   single lines other than `---` without a trailing carriage return, and only the last body line
   may end in one.
   */
  lemma RereadReassembled(f: seq<string>, b: seq<string>)
    requires forall i :: 0 <= i < |f| ==> '\n' !in f[i] && f[i] != Delimiter && DropCR(f[i]) == f[i]
    requires forall i :: 0 <= i < |b| ==> '\n' !in b[i]
    requires forall i :: 0 <= i < |b| - 1 ==> DropCR(b[i]) == b[i]
    ensures var lines := SplitLines(Reassemble(f, b));
      var sp := Span(0, |JoinedLines(f)| + 1);
      && FindHeader(lines) == Some(sp)
      && HeaderLines(lines, sp) == JoinedLines(f)
      && BodyLines(lines, sp) == JoinedLines(b)
  {
    SplitReassembled(f, b);
    RereadHeader(Reassemble(f, b), JoinedLines(f), JoinedLines(b));
    RereadFramed(Reassemble(f, b), JoinedLines(f), JoinedLines(b));
  }

  /** The written text splits into `---`, the physical lines of the header, `---` and the body. */
  lemma SplitReassembledPhysical(f: seq<string>, b: seq<string>)
    requires forall i :: 0 <= i < |b| ==> '\n' !in b[i]
    ensures Split(Reassemble(f, b), '\n') == [Delimiter] + PhysicalLines(f) + [Delimiter] + JoinedLines(b)
  {
    var jf, jb := Join(f, "\n"), Join(b, "\n");
    var tail := "---" + ['\n'] + jb;
    calc {
      Split(Reassemble(f, b), '\n');
      { ReassembleParts(jf, jb); }
      Split("---" + ['\n'] + (jf + "\n" + tail), '\n');
      { SplitAppend("---", '\n', jf + "\n" + tail); }
      ["---"] + Split(jf + ['\n'] + tail, '\n');
      { SplitConcat(jf, '\n', tail); }
      ["---"] + (PhysicalLines(f) + Split(tail, '\n'));
      { SplitAppend("---", '\n', jb); SplitJoinLines(b); }
      ["---"] + (PhysicalLines(f) + (["---"] + JoinedLines(b)));
    }
  }

  /**
   Written-back text is read back with the physical lines of its header and with its body,
   when no physical header line is `---` or ends in a carriage return, and only the last body
   line may end in one. Header lines may themselves hold line feeds.
   */
  lemma RereadPhysical(f: seq<string>, b: seq<string>)
    requires var ph := PhysicalLines(f);
      forall j :: 0 <= j < |ph| ==> ph[j] != Delimiter && DropCR(ph[j]) == ph[j]
    requires forall i :: 0 <= i < |b| ==> '\n' !in b[i]
    requires forall i :: 0 <= i < |b| - 1 ==> DropCR(b[i]) == b[i]
    ensures var lines := SplitLines(Reassemble(f, b));
      var sp := Span(0, |PhysicalLines(f)| + 1);
      && FindHeader(lines) == Some(sp)
      && HeaderLines(lines, sp) == PhysicalLines(f)
      && BodyLines(lines, sp) == JoinedLines(b)
  {
    SplitReassembledPhysical(f, b);
    RereadHeader(Reassemble(f, b), PhysicalLines(f), JoinedLines(b));
    RereadFramed(Reassemble(f, b), PhysicalLines(f), JoinedLines(b));
  }

  /** The body of split text has no line feed in any line. */
  lemma BodyNoNewline(lines: seq<string>, sp: Span)
    requires ValidSpan(lines, sp)
    requires forall i :: 0 <= i < |lines| ==> '\n' !in lines[i]
    ensures forall i :: 0 <= i < |BodyLines(lines, sp)| ==> '\n' !in BodyLines(lines, sp)[i]
  {
    var body := BodyLines(lines, sp);
    forall i | 0 <= i < |body|
      ensures '\n' !in body[i]
    {
      assert body[i] == lines[sp.end + 1 + i];
    }
  }

  /** The header and body of split text inherit its lines' properties. */
  lemma SplitParts(lines: seq<string>, sp: Span)
    requires ValidSpan(lines, sp)
    requires forall i :: 0 <= i < |lines| ==> '\n' !in lines[i]
    requires forall i :: sp.start < i < sp.end ==> DropCR(lines[i]) == lines[i]
    requires forall i :: sp.end < i < |lines| - 1 ==> DropCR(lines[i]) == lines[i]
    requires forall k :: sp.start < k < sp.end ==> lines[k] != Delimiter
    ensures var hdr := HeaderLines(lines, sp);
      forall i :: 0 <= i < |hdr| ==> '\n' !in hdr[i] && hdr[i] != Delimiter && DropCR(hdr[i]) == hdr[i]
    ensures var body := BodyLines(lines, sp);
      && (forall i :: 0 <= i < |body| ==> '\n' !in body[i])
      && (forall i :: 0 <= i < |body| - 1 ==> DropCR(body[i]) == body[i])
  {
    var hdr := HeaderLines(lines, sp);
    var body := BodyLines(lines, sp);
    assert forall i :: 0 <= i < |hdr| ==> hdr[i] == lines[sp.start + 1 + i];
    assert forall i :: 0 <= i < |body| ==> body[i] == lines[sp.end + 1 + i];
  }

  /**
   The closing delimiter when line 0 is `---`: the first later line that is exactly `---`.
   None when line 0 is something else or no later line closes the header.
   */
  function FindClosing(lines: seq<string>): (r: Option<nat>)
    ensures r.Some? ==> |lines| > 0 && lines[0] == Delimiter
    ensures r.Some? ==> 1 <= r.value < |lines| && lines[r.value] == Delimiter
    ensures r.Some? ==> forall k :: 1 <= k < r.value ==> lines[k] != Delimiter
    ensures r.None? <==>
      (|lines| == 0 || lines[0] != Delimiter || forall k :: 1 <= k < |lines| ==> lines[k] != Delimiter)
  {
    if |lines| == 0 || lines[0] != Delimiter then None
    else FindFrom(lines, 1)
  }

  /** Both searches agree exactly on documents whose first line is `---`. */
  lemma ClosingAgreesWithHeader(lines: seq<string>)
    ensures FindClosing(lines).Some? <==> (FindHeader(lines).Some? && FindHeader(lines).value.start == 0)
    ensures FindClosing(lines).Some? ==> FindHeader(lines) == Some(Span(0, FindClosing(lines).value))
  {
    if FindHeader(lines).Some? && FindHeader(lines).value.start == 0 {
      assert FindClosing(lines).Some?;
    }
  }

  /**
   A continuation line of a YAML block scalar as the scripts recognise it: indented by two
   spaces, or blank after trimming.
   */
  predicate IsContinuation(line: string) {
    "  " <= line || Trim(line) == ""
  }

  /** Number of leading continuation lines. */
  function ContinuationRun(lines: seq<string>): (n: nat)
    ensures n <= |lines|
    ensures forall k :: 0 <= k < n ==> IsContinuation(lines[k])
    ensures n < |lines| ==> !IsContinuation(lines[n])
  {
    if |lines| > 0 && IsContinuation(lines[0]) then 1 + ContinuationRun(lines[1..]) else 0
  }

  /** A continuation line never starts with a key such as `description:`. */
  lemma ContinuationHasNoKey(line: string, key: string)
    requires IsContinuation(line)
    requires |key| > 0 && !IsSpace(key[0])
    ensures !(key <= line)
  {
    if key <= line && Trim(line) == "" {
      BlankStartsWithSpace(line);
    }
  }

  /** A `description:` or `excerpt:` line: the two fields whose values may run over several lines. */
  predicate IsSummaryField(line: string) {
    "description:" <= line || "excerpt:" <= line
  }

  /** `line.split(':')[0]`: the text before the first colon. */
  function KeyOf(line: string): (k: string)
    ensures k <= line && ':' !in k
  {
    if |line| == 0 || line[0] == ':' then [] else [line[0]] + KeyOf(line[1..])
  }

  /** `line.substring(line.indexOf(':') + 1)`; the whole line when it has no colon. */
  function AfterColon(line: string): string
  {
    if |KeyOf(line)| < |line| then line[|KeyOf(line)| + 1..] else line
  }

  lemma KeyOfPrefix(key: string, line: string)
    requires key + ":" <= line
    requires ':' !in key
    ensures KeyOf(line) == key
    ensures AfterColon(line) == line[|key| + 1..]
    decreases |key|
  {
    if |key| > 0 {
      KeyOfPrefix(key[1..], line[1..]);
    }
  }

  /** The lines written back: a header between delimiters, then the body. */
  function Rebuilt(hdr: seq<string>, body: seq<string>): seq<string>
  {
    [Delimiter] + hdr + [Delimiter] + body
  }

  /** The rebuilt lines' closing delimiter is the one right after the new header. */
  lemma ClosingOfRebuilt(hdr: seq<string>, body: seq<string>)
    requires forall k :: 0 <= k < |hdr| ==> hdr[k] != Delimiter
    ensures FindClosing(Rebuilt(hdr, body)) == Some(|hdr| + 1)
  {
    var ls := Rebuilt(hdr, body);
    assert ls[|hdr| + 1] == Delimiter;
    assert forall k :: 1 <= k < |hdr| + 1 ==> ls[k] == hdr[k - 1];
  }

  /** The written text splits back into exactly the rebuilt lines. */
  lemma RebuiltLines(hdr: seq<string>, body: seq<string>)
    requires forall k :: 0 <= k < |hdr| ==> '\n' !in hdr[k] && DropCR(hdr[k]) == hdr[k]
    requires PlainLines(body)
    ensures SplitLines(Join(Rebuilt(hdr, body), "\n")) == Rebuilt(hdr, body)
  {
    var ls := Rebuilt(hdr, body);
    assert DropCR(Delimiter) == Delimiter;
    assert forall k :: 0 <= k < |ls| ==>
      ls[k] == (if k == 0 || k == |hdr| + 1 then Delimiter else if k <= |hdr| then hdr[k - 1] else body[k - |hdr| - 2]);
    SplitLinesJoinLf(ls);
  }

  /** Header lines that a `\n` join gives back on re-splitting, none of them a delimiter. */
  predicate PlainHeader(hdr: seq<string>)
  {
    forall k :: 0 <= k < |hdr| ==> hdr[k] != Delimiter && '\n' !in hdr[k] && DropCR(hdr[k]) == hdr[k]
  }

  /** The two halves of plain lines around a first-line header keep their shape. */
  lemma ClosingParts(lines: seq<string>, e: nat)
    requires PlainLines(lines)
    requires FindClosing(lines) == Some(e)
    ensures PlainHeader(lines[1..e])
    ensures PlainLines(lines[e + 1..])
  {
    var hdr, body := lines[1..e], lines[e + 1..];
    assert forall k :: 0 <= k < |hdr| ==> hdr[k] == lines[k + 1];
    assert forall k :: 0 <= k < |body| ==> body[k] == lines[k + e + 1];
  }

  /** A plain header and plain body, framed and joined with `\n`, read back as written. */
  lemma FramedReadBack(hdr: seq<string>, body: seq<string>)
    requires PlainHeader(hdr)
    requires PlainLines(body)
    ensures SplitLines(Join(Rebuilt(hdr, body), "\n")) == Rebuilt(hdr, body)
    ensures FindClosing(Rebuilt(hdr, body)) == Some(|hdr| + 1)
    ensures Rebuilt(hdr, body)[1..|hdr| + 1] == hdr
    ensures Rebuilt(hdr, body)[|hdr| + 2..] == body
  {
    RebuiltLines(hdr, body);
    ClosingOfRebuilt(hdr, body);
    var ls := Rebuilt(hdr, body);
    assert ls[1..|hdr| + 1] == hdr;
    assert ls[|hdr| + 2..] == body;
  }
}
