/**
 Header extraction and the parse check of check-yaml-parsing-errors.js, and the extraction
 record of fix-yaml-errors.js. The YAML loader is a parameter: it either accepts the header text
 or fails with a message and, optionally, a position.
 */
module YamlCheck {
  import opened Wrappers
  import opened Text
  import opened FrontMatter

  /** What fix-yaml-errors.js's extractor returns: the header text, both delimiter lines, all lines. */
  datatype Extracted = Extracted(frontMatter: string, frontStart: nat, frontEnd: nat, lines: seq<string>)

  /** The header of a document, as fix-yaml-errors.js extracts it. */
  function Extract(content: string): (r: Option<Extracted>)
    ensures r.None? <==> CountDelimiters(SplitLines(content)) < 2
    ensures r.Some? ==>
      && r.value.lines == SplitLines(content)
      && r.value.frontStart < r.value.frontEnd < |r.value.lines|
      && r.value.lines[r.value.frontStart] == Delimiter
      && r.value.lines[r.value.frontEnd] == Delimiter
      && (forall k :: 0 <= k < r.value.frontStart ==> r.value.lines[k] != Delimiter)
      && (forall k :: r.value.frontStart < k < r.value.frontEnd ==> r.value.lines[k] != Delimiter)
      && r.value.frontMatter == Join(r.value.lines[r.value.frontStart + 1..r.value.frontEnd], "\n")
  {
    var lines := SplitLines(content);
    match FindHeader(lines)
    case None => None
    case Some(sp) => Some(Extracted(Join(HeaderLines(lines, sp), "\n"), sp.start, sp.end, lines))
  }

  /** The header text as check-yaml-parsing-errors.js extracts it; None is its `null`. */
  function ExtractFrontMatter(content: string): (r: Option<string>)
    ensures r.None? <==> CountDelimiters(SplitLines(content)) < 2
    ensures r.Some? ==> Extract(content).Some? && r.value == Extract(content).value.frontMatter
  {
    var lines := SplitLines(content);
    match FindHeader(lines)
    case None => None
    case Some(sp) => Some(Join(HeaderLines(lines, sp), "\n"))
  }

  /**
   A document assembled from lines: whatever precedes the header has no `---` line, and the
   header itself has none either.
   */
  predicate Framed(pre: seq<string>, hdr: seq<string>)
  {
    && (forall k :: 0 <= k < |pre| ==> pre[k] != Delimiter)
    && (forall k :: 0 <= k < |hdr| ==> hdr[k] != Delimiter)
  }

  function Document(pre: seq<string>, hdr: seq<string>, post: seq<string>): seq<string>
  {
    pre + [Delimiter] + hdr + [Delimiter] + post
  }

  lemma FindDocumentHeader(pre: seq<string>, hdr: seq<string>, post: seq<string>)
    requires Framed(pre, hdr)
    ensures FindHeader(Document(pre, hdr, post)) == Some(Span(|pre|, |pre| + |hdr| + 1))
    ensures HeaderLines(Document(pre, hdr, post), Span(|pre|, |pre| + |hdr| + 1)) == hdr
  {
    var d := Document(pre, hdr, post);
    var s, e := |pre|, |pre| + |hdr| + 1;
    assert forall k :: 0 <= k < s ==> d[k] == pre[k];
    assert forall k :: s < k < e ==> d[k] == hdr[k - s - 1];
    FindHeaderAt(d, s, e);
    assert d[s + 1..e] == hdr;
  }

  /**
   The header is the lines strictly between the first two `---` lines, joined with `\n`,
   whatever other lines surround them, when the document is written with `\n` terminators.
   */
  lemma ExtractLf(pre: seq<string>, hdr: seq<string>, post: seq<string>)
    requires Framed(pre, hdr)
    requires PlainLines(Document(pre, hdr, post))
    ensures ExtractFrontMatter(Join(Document(pre, hdr, post), "\n")) == Some(Join(hdr, "\n"))
  {
    SplitLinesJoinLf(Document(pre, hdr, post));
    FindDocumentHeader(pre, hdr, post);
  }

  /** The same document written with `\r\n` terminators gives the same header. */
  lemma ExtractCrlf(pre: seq<string>, hdr: seq<string>, post: seq<string>)
    requires Framed(pre, hdr)
    requires forall i :: 0 <= i < |Document(pre, hdr, post)| ==> '\n' !in Document(pre, hdr, post)[i]
    ensures ExtractFrontMatter(Join(Document(pre, hdr, post), "\r\n")) == Some(Join(hdr, "\n"))
  {
    SplitLinesJoinCrlf(Document(pre, hdr, post));
    FindDocumentHeader(pre, hdr, post);
  }

  /** Two adjacent delimiters give an empty header text, which is not the "no header" outcome. */
  lemma AdjacentDelimiters(pre: seq<string>, post: seq<string>)
    requires Framed(pre, [])
    requires PlainLines(Document(pre, [], post))
    ensures ExtractFrontMatter(Join(Document(pre, [], post), "\n")) == Some("")
  {
    ExtractLf(pre, [], post);
  }

  /**
   Matching is exact: a document whose only candidate delimiters carry a space, or stand alone,
   has no header.
   */
  lemma PaddedDelimiters(a: string, b: string)
    requires a == " ---" && b == "--- "
    ensures ExtractFrontMatter(Join([a, "title: x", b], "\n")).None?
  {
    var ls := [a, "title: x", b];
    assert PlainLines(ls);
    SplitLinesJoinLf(ls);
    assert forall k :: 0 <= k < |ls| ==> ls[k] != Delimiter;
    CountNone(ls);
  }

  /** A position js-yaml attaches to an error. */
  datatype Mark = Mark(line: int, column: int)

  /** The loader's outcome: it accepts the text, or fails with a message and maybe a mark. */
  datatype LoadResult = Loaded | LoadError(message: string, mark: Option<Mark>)

  /** The error record the check returns; None is "no error". */
  datatype Report = Report(message: string, hasLine: bool, line: Option<int>, column: Option<int>)

  function ReportOf(message: string, mark: Option<Mark>): (rep: Report)
    ensures rep.message == message
    ensures rep.hasLine <==> mark.Some?
    ensures mark.Some? ==> rep.line == Some(mark.value.line) && rep.column == Some(mark.value.column)
    ensures mark.None? ==> rep.line.None? && rep.column.None?
  {
    match mark
    case None => Report(message, false, None, None)
    case Some(m) => Report(message, true, Some(m.line), Some(m.column))
  }

  /**
   The check of one document: no header is "no error" and the loader is not consulted;
   otherwise the loader's error, if any, with its position.
   */
  function CheckYamlParsing(content: string, load: string -> LoadResult): (r: Option<Report>)
    ensures ExtractFrontMatter(content).None? ==> r.None?
    ensures ExtractFrontMatter(content).Some? ==>
      (r.Some? <==> load(ExtractFrontMatter(content).value).LoadError?)
    ensures r.Some? ==>
      var e := load(ExtractFrontMatter(content).value);
      e.LoadError? && r.value.message == e.message && (r.value.hasLine <==> e.mark.Some?)
  {
    match ExtractFrontMatter(content)
    case None => None
    case Some(text) =>
      match load(text)
      case Loaded => None
      case LoadError(message, mark) => Some(ReportOf(message, mark))
  }

  /** The outcome depends on the loader only through what it says about the header text. */
  lemma CheckDependsOnHeader(content: string, load1: string -> LoadResult, load2: string -> LoadResult)
    requires ExtractFrontMatter(content).None? ||
      load1(ExtractFrontMatter(content).value) == load2(ExtractFrontMatter(content).value)
    ensures CheckYamlParsing(content, load1) == CheckYamlParsing(content, load2)
  {
  }

  /** Both extractors of the scripts agree, and agree with the header the repair pass reads. */
  lemma ExtractorsAgree(content: string)
    ensures ExtractFrontMatter(content).Some? <==> Extract(content).Some?
    ensures ExtractFrontMatter(content).Some? <==> FindHeader(SplitLines(content)).Some?
    ensures Extract(content).Some? ==>
      var sp := FindHeader(SplitLines(content)).value;
      Extract(content).value.frontStart == sp.start && Extract(content).value.frontEnd == sp.end
  {
  }
}
