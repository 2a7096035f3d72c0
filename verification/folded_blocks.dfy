/**
 The folded-block repair of fix-yaml-parsing.js: a `description:` or `excerpt:` line whose value
 is a folded-block marker (`>` or `>-`) becomes `key: |`, a literal block, and the indented or
 blank lines after it are kept as they are. The file is written back only when some line changed.
 */
module FoldedBlocks {
  import opened Wrappers
  import opened Text
  import opened FrontMatter

  /** A description or excerpt whose trimmed value is exactly `>` or `>-`. */
  predicate IsFoldedStart(line: string) {
    IsSummaryField(line) && (Trim(AfterColon(line)) == ">-" || Trim(AfterColon(line)) == ">")
  }

  /** The literal-block line that replaces a folded start: the key, then `: |`. */
  function Literal(line: string): string {
    KeyOf(line) + ": |"
  }

  /** What one header line becomes. */
  function Converted(line: string): string {
    if IsFoldedStart(line) then Literal(line) else line
  }

  /** The new header lines and whether any folded block was converted. */
  datatype Pass = Pass(lines: seq<string>, changed: bool)

  /**
   The header loop: a folded start takes the continuation lines after it along unchanged; any
   other line is copied.
   */
  function FixLines(ls: seq<string>): Pass
    decreases |ls|
  {
    if |ls| == 0 then Pass([], false)
    else if IsFoldedStart(ls[0]) then
      var n := ContinuationRun(ls[1..]);
      var rest := FixLines(ls[1 + n..]);
      Pass([Literal(ls[0])] + ls[1..1 + n] + rest.lines, true)
    else
      var rest := FixLines(ls[1..]);
      Pass([ls[0]] + rest.lines, rest.changed)
  }

  /** A continuation line is never a description or excerpt line, so never a folded start. */
  lemma ContinuationNotFolded(line: string)
    requires IsContinuation(line)
    ensures !IsSummaryField(line) && !IsFoldedStart(line)
  {
    ContinuationHasNoKey(line, "description:");
    ContinuationHasNoKey(line, "excerpt:");
  }

  lemma FoldedStep(ls: seq<string>, n: nat)
    requires |ls| > 0 && IsFoldedStart(ls[0])
    requires n == ContinuationRun(ls[1..])
    ensures FixLines(ls).changed
    ensures FixLines(ls).lines == [Literal(ls[0])] + ls[1..1 + n] + FixLines(ls[1 + n..]).lines
  {
  }

  lemma PlainStep(ls: seq<string>)
    requires |ls| > 0 && !IsFoldedStart(ls[0])
    ensures FixLines(ls) == Pass([ls[0]] + FixLines(ls[1..]).lines, FixLines(ls[1..]).changed)
  {
  }

  /** The lines a folded start takes along are copied as they are. */
  lemma RunKept(ls: seq<string>, n: nat)
    requires |ls| > 0 && n == ContinuationRun(ls[1..])
    ensures forall k :: 1 <= k < 1 + n ==> Converted(ls[k]) == ls[k]
  {
    forall k | 1 <= k < 1 + n
      ensures Converted(ls[k]) == ls[k]
    {
      assert ls[k] == ls[1..][k - 1];
      ContinuationNotFolded(ls[k]);
    }
  }

  /**
   The loop is a line-by-line map: each header line gives exactly one output line, a folded
   start its literal-block line and every other line itself.
   */
  lemma {:induction false} FixLinesPointwise(ls: seq<string>)
    ensures |FixLines(ls).lines| == |ls|
    ensures forall i :: 0 <= i < |ls| ==> FixLines(ls).lines[i] == Converted(ls[i])
    decreases |ls|
  {
    if |ls| > 0 {
      if IsFoldedStart(ls[0]) {
        var n := ContinuationRun(ls[1..]);
        FoldedStep(ls, n);
        FixLinesPointwise(ls[1 + n..]);
        RunKept(ls, n);
        SegmentPointwise(ls, n, FixLines(ls).lines, FixLines(ls[1 + n..]).lines);
      } else {
        PlainStep(ls);
        FixLinesPointwise(ls[1..]);
        SegmentPointwise(ls, 0, FixLines(ls).lines, FixLines(ls[1..]).lines);
      }
    }
  }

  /** A converted head, copied run and converted rest make a converted whole. */
  lemma SegmentPointwise(ls: seq<string>, n: nat, out: seq<string>, rest: seq<string>)
    requires n < |ls|
    requires out == [Converted(ls[0])] + ls[1..1 + n] + rest
    requires forall k :: 1 <= k < 1 + n ==> Converted(ls[k]) == ls[k]
    requires |rest| == |ls[1 + n..]|
    requires forall i :: 0 <= i < |ls[1 + n..]| ==> rest[i] == Converted(ls[1 + n..][i])
    ensures |out| == |ls|
    ensures forall i :: 0 <= i < |ls| ==> out[i] == Converted(ls[i])
  {
    forall i | 0 <= i < |ls|
      ensures out[i] == Converted(ls[i])
    {
      if 1 + n <= i {
        assert out[i] == rest[i - 1 - n];
        assert ls[1 + n..][i - 1 - n] == ls[i];
      }
    }
  }

  /** The loop reports a change exactly when the header holds a folded start. */
  lemma {:induction false} FixLinesChanged(ls: seq<string>)
    ensures FixLines(ls).changed <==> exists i :: 0 <= i < |ls| && IsFoldedStart(ls[i])
    decreases |ls|
  {
    if |ls| > 0 {
      if IsFoldedStart(ls[0]) {
        FoldedStep(ls, ContinuationRun(ls[1..]));
      } else {
        PlainStep(ls);
        FixLinesChanged(ls[1..]);
        if exists i :: 0 <= i < |ls| && IsFoldedStart(ls[i]) {
          var i :| 0 <= i < |ls| && IsFoldedStart(ls[i]);
          assert ls[1..][i - 1] == ls[i];
        }
        if exists i :: 0 <= i < |ls[1..]| && IsFoldedStart(ls[1..][i]) {
          var i :| 0 <= i < |ls[1..]| && IsFoldedStart(ls[1..][i]);
          assert ls[1..][i] == ls[i + 1];
        }
      }
    }
  }

  lemma LiteralOf(line: string)
    requires IsSummaryField(line)
    ensures KeyOf(line) == "description" || KeyOf(line) == "excerpt"
  {
    if "description:" <= line {
      KeyOfPrefix("description", line);
    } else {
      KeyOfPrefix("excerpt", line);
    }
  }

  lemma LiteralParts(key: string)
    requires key == "description" || key == "excerpt"
    ensures AfterColon(key + ": |") == " |"
  {
    KeyOfPrefix(key, key + ": |");
  }

  lemma TrimBar()
    ensures Trim(" |") == "|"
  {
    TrimLeadingSpace(' ', "|");
    TrimTrimmed("|");
  }

  lemma LiteralNotFolded(key: string)
    requires key == "description" || key == "excerpt"
    ensures !IsFoldedStart(key + ": |")
  {
    LiteralParts(key);
    TrimBar();
  }

  /** A converted line is settled: converting it again changes nothing. */
  lemma ConvertedSettles(line: string)
    ensures !IsFoldedStart(Converted(line))
  {
    if IsFoldedStart(line) {
      LiteralOf(line);
      LiteralNotFolded(KeyOf(line));
    }
  }

  /** Running the loop over its own output converts nothing more. */
  lemma FixLinesSettles(ls: seq<string>)
    ensures !FixLines(FixLines(ls).lines).changed
    ensures FixLines(FixLines(ls).lines).lines == FixLines(ls).lines
  {
    var out := FixLines(ls).lines;
    FixLinesPointwise(ls);
    forall i | 0 <= i < |out|
      ensures !IsFoldedStart(out[i])
    {
      ConvertedSettles(ls[i]);
    }
    FixLinesChanged(out);
    FixLinesPointwise(out);
  }

  /**
   One file: None (nothing written) when there is no header or no folded start in it;
   otherwise the text with the converted header and the old body.
   */
  function FixYaml(content: string): (r: Option<string>)
    ensures FindHeader(SplitLines(content)).None? ==> r.None?
    ensures r.Some? ==> "---\n" <= r.value
  {
    var lines := SplitLines(content);
    match FindHeader(lines)
    case None => None
    case Some(sp) =>
      var pass := FixLines(HeaderLines(lines, sp));
      if pass.changed then Some(Reassemble(pass.lines, BodyLines(lines, sp))) else None
  }

  /** The file is rewritten exactly when its header holds a folded start. */
  lemma FixYamlWrites(content: string)
    requires FindHeader(SplitLines(content)).Some?
    ensures var lines := SplitLines(content);
      var hdr := HeaderLines(lines, FindHeader(lines).value);
      FixYaml(content).Some? <==> exists i :: 0 <= i < |hdr| && IsFoldedStart(hdr[i])
  {
    var lines := SplitLines(content);
    FixLinesChanged(HeaderLines(lines, FindHeader(lines).value));
  }

  lemma FixYamlParts(content: string)
    requires FixYaml(content).Some?
    ensures var lines := SplitLines(content);
      var sp := FindHeader(lines).value;
      && FixLines(HeaderLines(lines, sp)).changed
      && FixYaml(content).value == Reassemble(FixLines(HeaderLines(lines, sp)).lines, BodyLines(lines, sp))
  {
  }

  /** A converted line keeps the properties that let the written text be read back line for line. */
  lemma ConvertedPlain(line: string)
    requires '\n' !in line && line != Delimiter && DropCR(line) == line
    ensures '\n' !in Converted(line) && Converted(line) != Delimiter && DropCR(Converted(line)) == Converted(line)
  {
    if IsFoldedStart(line) {
      LiteralOf(line);
      var key := KeyOf(line);
      assert Literal(line) == key + ": |";
      assert Literal(line)[|Literal(line)| - 1] == '|';
    }
  }

  lemma FixYamlUnchanged(content: string)
    requires FindHeader(SplitLines(content)).Some?
    requires !FixLines(HeaderLines(SplitLines(content), FindHeader(SplitLines(content)).value)).changed
    ensures FixYaml(content).None?
  {
  }

  /** Written-back text whose header holds no folded start is left alone. */
  lemma ReassembledSettles(out: seq<string>, body: seq<string>)
    requires |out| > 0
    requires forall i :: 0 <= i < |out| ==> '\n' !in out[i] && out[i] != Delimiter && DropCR(out[i]) == out[i]
    requires forall i :: 0 <= i < |out| ==> !IsFoldedStart(out[i])
    requires forall i :: 0 <= i < |body| ==> '\n' !in body[i]
    requires forall i :: 0 <= i < |body| - 1 ==> DropCR(body[i]) == body[i]
    ensures FixYaml(Reassemble(out, body)).None?
  {
    RereadReassembled(out, body);
    assert JoinedLines(out) == out;
    FixLinesChanged(out);
    FixYamlUnchanged(Reassemble(out, body));
  }

  /**
   A second run writes nothing, when no header line and no body line but the last ends in a
   carriage return (the `\r?\n` split takes only one of them away).
   */
  lemma FixYamlSettles(content: string)
    requires FixYaml(content).Some?
    requires var lines := SplitLines(content);
      var sp := FindHeader(lines).value;
      && (forall i :: sp.start < i < sp.end ==> DropCR(lines[i]) == lines[i])
      && (forall i :: sp.end < i < |lines| - 1 ==> DropCR(lines[i]) == lines[i])
    ensures FixYaml(FixYaml(content).value).None?
  {
    var lines := SplitLines(content);
    var sp := FindHeader(lines).value;
    FixYamlParts(content);
    SplitParts(lines, sp);
    ConvertedLines(HeaderLines(lines, sp));
    ReassembledSettles(FixLines(HeaderLines(lines, sp)).lines, BodyLines(lines, sp));
  }

  /** Converted header lines are settled and can be read back line for line. */
  lemma ConvertedLines(hdr: seq<string>)
    requires forall i :: 0 <= i < |hdr| ==> '\n' !in hdr[i] && hdr[i] != Delimiter && DropCR(hdr[i]) == hdr[i]
    requires FixLines(hdr).changed
    ensures var out := FixLines(hdr).lines;
      && |out| > 0
      && (forall i :: 0 <= i < |out| ==> '\n' !in out[i] && out[i] != Delimiter && DropCR(out[i]) == out[i])
      && (forall i :: 0 <= i < |out| ==> !IsFoldedStart(out[i]))
  {
    var out := FixLines(hdr).lines;
    FixLinesPointwise(hdr);
    FixLinesChanged(hdr);
    forall i | 0 <= i < |out|
      ensures '\n' !in out[i] && out[i] != Delimiter && DropCR(out[i]) == out[i]
      ensures !IsFoldedStart(out[i])
    {
      ConvertedPlain(hdr[i]);
      ConvertedSettles(hdr[i]);
    }
  }
}
