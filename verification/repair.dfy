/**
 The manual repair of fix-yaml-errors.js, the branch taken when the front matter does not
 parse: the header lines are re-read one by one, stray `---` and `...` lines are dropped, a line
 that holds two or more `key: value` pairs is cut into one `key: "value"` line per pair, and
 every other line is kept. The file is rewritten only when the header text changed.
 */
module Repair {
  import opened Wrappers
  import opened Text
  import opened FrontMatter
  import opened Tokenizer

  /** A stray delimiter or document-end marker: dropped from the header. */
  predicate IsArtefact(line: string) {
    Trim(line) == "---" || Trim(line) == "..."
  }

  /**
   Occurrences of `: ` found left to right without overlap: one less than the number of
   pieces of `line.split(': ')`.
   */
  function ColonSpaces(s: string): nat
    decreases |s|
  {
    if |s| < 2 then 0
    else if s[0] == ':' && s[1] == ' ' then 1 + ColonSpaces(s[2..])
    else ColonSpaces(s[1..])
  }

  /** `line.includes(': ') && line.split(': ').length > 2`. */
  predicate IsCandidate(line: string) {
    Contains(line, ": ") && ColonSpaces(line) + 1 > 2
  }

  lemma {:induction false} ColonSpacesContains(s: string)
    ensures ColonSpaces(s) > 0 ==> Contains(s, ": ")
    decreases |s|
  {
    if |s| >= 2 && !(s[0] == ':' && s[1] == ' ') {
      ColonSpacesContains(s[1..]);
    }
  }

  /** The `includes` test is implied by the split count: a line is tokenized iff it has two `: `. */
  lemma CandidateIff(line: string)
    ensures IsCandidate(line) <==> ColonSpaces(line) >= 2
  {
    ColonSpacesContains(line);
  }

  /** `${field}: "${value}"` for every pair, in order. */
  function EmitAll(ps: seq<Pair>): (out: seq<string>)
    ensures |out| == |ps|
    ensures forall j :: 0 <= j < |ps| ==> out[j] == Emit(ps[j])
  {
    seq(|ps|, j requires 0 <= j < |ps| => Emit(ps[j]))
  }

  /** The output lines for one header line. */
  function RepairLine(line: string): (out: seq<string>)
  {
    if IsArtefact(line) then []
    else if IsCandidate(line) then EmitAll(TokenizeLine(line))
    else [line]
  }

  /** The loop over the header lines: each line's output, concatenated in order. */
  function RepairHeader(ls: seq<string>): (out: seq<string>)
    decreases |ls|
  {
    if |ls| == 0 then [] else RepairLine(ls[0]) + RepairHeader(ls[1..])
  }

  /** An emitted line starts with its key, so it is never a stray `---` or `...`. */
  lemma EmitNotArtefact(p: Pair)
    requires IsKey(p.key)
    ensures !IsArtefact(Emit(p))
  {
    var e := Emit(p);
    assert e[0] == p.key[0];
    TrimFirst(e);
  }

  lemma EmitNoNewline(p: Pair)
    requires IsKey(p.key) && '\n' !in p.value
    ensures '\n' !in Emit(p)
  {
    assert forall i :: 0 <= i < |p.key| ==> p.key[i] != '\n';
  }

  /**
   No output line of a header line is a stray delimiter, and a line without a line feed gives
   lines without line feeds.
   */
  lemma RepairLineClean(line: string)
    ensures forall j :: 0 <= j < |RepairLine(line)| ==> !IsArtefact(RepairLine(line)[j])
    ensures '\n' !in line ==> forall j :: 0 <= j < |RepairLine(line)| ==> '\n' !in RepairLine(line)[j]
  {
    if !IsArtefact(line) && IsCandidate(line) {
      var ps := TokenizeLine(line);
      forall j | 0 <= j < |ps| ensures !IsArtefact(Emit(ps[j])) {
        EmitNotArtefact(ps[j]);
      }
      if '\n' !in line {
        TrimChars(line, '\n');
        forall j | 0 <= j < |ps| ensures '\n' !in Emit(ps[j]) {
          EmitNoNewline(ps[j]);
        }
      }
    }
  }

  /** The whole pass: no stray `---`/`...` survives, and no line feed is introduced. */
  lemma {:induction false} RepairHeaderClean(ls: seq<string>)
    ensures forall j :: 0 <= j < |RepairHeader(ls)| ==> !IsArtefact(RepairHeader(ls)[j])
    ensures (forall i :: 0 <= i < |ls| ==> '\n' !in ls[i]) ==>
      forall j :: 0 <= j < |RepairHeader(ls)| ==> '\n' !in RepairHeader(ls)[j]
    decreases |ls|
  {
    if |ls| > 0 {
      RepairLineClean(ls[0]);
      RepairHeaderClean(ls[1..]);
    }
  }

  /** The pass works line by line: repairing two blocks is repairing each. */
  lemma {:induction false} RepairHeaderAppend(a: seq<string>, b: seq<string>)
    ensures RepairHeader(a + b) == RepairHeader(a) + RepairHeader(b)
    decreases |a|
  {
    if |a| == 0 {
      assert a + b == b;
    } else {
      var rest := a[1..] + b;
      assert (a + b)[0] == a[0] && (a + b)[1..] == rest;
      RepairHeaderAppend(a[1..], b);
      calc {
        RepairHeader(a + b);
        RepairLine(a[0]) + RepairHeader(rest);
        RepairLine(a[0]) + (RepairHeader(a[1..]) + RepairHeader(b));
        RepairHeader(a) + RepairHeader(b);
      }
    }
  }

  /** A line that is neither a stray marker nor holds two `: ` is kept as it is. */
  predicate Kept(line: string) {
    !IsArtefact(line) && !IsCandidate(line)
  }

  /** Lines with nothing to repair come out unchanged and in order. */
  lemma {:induction false} RepairHeaderKeeps(ls: seq<string>)
    requires forall i :: 0 <= i < |ls| ==> Kept(ls[i])
    ensures RepairHeader(ls) == ls
    decreases |ls|
  {
    if |ls| > 0 {
      RepairHeaderKeeps(ls[1..]);
      assert [ls[0]] + ls[1..] == ls;
    }
  }

  /** Lines without a pair to split lose exactly their stray markers; the rest keep their order. */
  lemma {:induction false} RepairHeaderFilters(ls: seq<string>)
    requires forall i :: 0 <= i < |ls| ==> !IsCandidate(ls[i])
    ensures RepairHeader(ls) == Unmarked(ls)
    decreases |ls|
  {
    if |ls| > 0 {
      RepairHeaderFilters(ls[1..]);
    }
  }

  /** The lines of `ls` that are not stray markers, in order. */
  function Unmarked(ls: seq<string>): (r: seq<string>)
    ensures |r| <= |ls|
    ensures forall j :: 0 <= j < |r| ==> !IsArtefact(r[j])
    decreases |ls|
  {
    if |ls| == 0 then []
    else if IsArtefact(ls[0]) then Unmarked(ls[1..])
    else [ls[0]] + Unmarked(ls[1..])
  }

  // ---------------------------------------------------------------------------------------
  // Counting `: ` on written lines
  // ---------------------------------------------------------------------------------------

  lemma {:induction false} ColonSpacesAfterKey(key: string, x: string)
    requires ':' !in key
    ensures ColonSpaces(key + ": " + x) == 1 + ColonSpaces(x)
    decreases |key|
  {
    var s := key + ": " + x;
    if |key| == 0 {
      assert s[2..] == x;
    } else {
      assert s[1..] == key[1..] + ": " + x;
      ColonSpacesAfterKey(key[1..], x);
    }
  }

  /** Text in front never hides an occurrence: the count only grows. */
  lemma {:induction false} ColonSpacesSuffix(c: string, b: string)
    ensures ColonSpaces(c + b) >= ColonSpaces(b)
    decreases |c|
  {
    var s := c + b;
    if |c| == 0 {
      assert s == b;
    } else if |s| >= 2 {
      if s[0] == ':' && s[1] == ' ' {
        if |c| >= 2 {
          assert s[2..] == c[2..] + b;
          ColonSpacesSuffix(c[2..], b);
        } else {
          assert s[2..] == b[1..];
          assert b[0] == ' ';
          assert ColonSpaces(b) == ColonSpaces(b[1..]);
        }
      } else {
        assert s[1..] == c[1..] + b;
        ColonSpacesSuffix(c[1..], b);
      }
    }
  }

  lemma KeyHasNoColon(key: string)
    requires IsKey(key)
    ensures ':' !in key
  {
    assert forall i :: 0 <= i < |key| ==> key[i] != ':';
  }

  /** A line written from `n` fields holds at least `n` occurrences of `: `. */
  lemma {:induction false} RenderedColonSpaces(fs: seq<Field>)
    requires WellFormedLine(fs)
    ensures ColonSpaces(RenderLine(fs)) >= |fs|
    decreases |fs|
  {
    var f := fs[0];
    assert IsKey(f.key);
    KeyHasNoColon(f.key);
    RenderLineHead(fs);
    ColonSpacesAfterKey(f.key, RenderValue(f) + RenderTail(fs));
    if |fs| > 1 {
      TailWellFormed(fs);
      RenderedColonSpaces(fs[1..]);
      assert RenderValue(f) + RenderTail(fs) == (RenderValue(f) + " ") + RenderLine(fs[1..]);
      ColonSpacesSuffix(RenderValue(f) + " ", RenderLine(fs[1..]));
    }
  }

  /**
   A header line holding two or more well-formed fields is replaced by one `key: "value"` line
   per field, in order.
   */
  lemma RenderedLineRepaired(fs: seq<Field>)
    requires WellFormedLine(fs) && |fs| >= 2
    ensures RepairLine(RenderLine(fs)) == EmitAll(Pairs(fs))
  {
    var line := RenderLine(fs);
    RenderedColonSpaces(fs);
    CandidateIff(line);
    RenderLineShape(fs);
    TrimTrimmed(line);
    assert IsWordChar(line[0]) by {
      RenderLineHead(fs);
      assert line[0] == fs[0].key[0];
      assert IsKey(fs[0].key);
    }
    assert !IsArtefact(line);
    RoundTrip(fs);
  }

  // ---------------------------------------------------------------------------------------
  // The file-level repair
  // ---------------------------------------------------------------------------------------

  /**
   The header lines the pass reads: the header joined with `\n` and split again (one empty
   line when the header is empty), each repaired.
   */
  function RepairedHeader(lines: seq<string>, sp: Span): seq<string>
    requires ValidSpan(lines, sp)
  {
    RepairHeader(Split(Join(HeaderLines(lines, sp), "\n"), '\n'))
  }

  /**
   The manual repair of one file's text. None when there is no header, or when the repaired
   header text equals the old one (no write); otherwise the new file text: `---`, the repaired
   header, `---`, then the lines after the second delimiter. Lines before the first delimiter
   are not written back.
   */
  function ManualRepair(content: string): (r: Option<string>)
    ensures FindHeader(SplitLines(content)).None? ==> r.None?
    ensures r.Some? ==> "---\n" <= r.value
  {
    var lines := SplitLines(content);
    match FindHeader(lines)
    case None => None
    case Some(sp) =>
      var frontText := Join(HeaderLines(lines, sp), "\n");
      var newFrontText := Join(RepairedHeader(lines, sp), "\n");
      if newFrontText != frontText then
        Some(Reassemble(RepairedHeader(lines, sp), BodyLines(lines, sp)))
      else None
  }

  lemma NoNewlines(lines: seq<string>, a: nat, b: nat)
    requires a <= b <= |lines|
    requires forall i :: 0 <= i < |lines| ==> '\n' !in lines[i]
    ensures forall i :: 0 <= i < |lines[a..b]| ==> '\n' !in lines[a..b][i]
  {
  }

  /** Two line lists join to the same text exactly when they split back to the same lines. */
  lemma JoinSame(a: seq<string>, b: seq<string>)
    requires forall i :: 0 <= i < |a| ==> '\n' !in a[i]
    requires forall i :: 0 <= i < |b| ==> '\n' !in b[i]
    ensures Join(a, "\n") == Join(b, "\n") <==> JoinedLines(a) == JoinedLines(b)
  {
    SplitJoinLines(a);
    SplitJoinLines(b);
  }

  lemma RepairedHeaderLines(lines: seq<string>, sp: Span)
    requires ValidSpan(lines, sp)
    requires forall i :: 0 <= i < |lines| ==> '\n' !in lines[i]
    ensures RepairedHeader(lines, sp) == RepairHeader(JoinedLines(HeaderLines(lines, sp)))
    ensures forall j :: 0 <= j < |RepairedHeader(lines, sp)| ==> '\n' !in RepairedHeader(lines, sp)[j]
    ensures forall j :: 0 <= j < |RepairedHeader(lines, sp)| ==> !IsArtefact(RepairedHeader(lines, sp)[j])
  {
    var hdr := HeaderLines(lines, sp);
    NoNewlines(lines, sp.start + 1, sp.end);
    SplitJoinLines(hdr);
    RepairHeaderClean(JoinedLines(hdr));
  }

  /**
   With a header, the file is rewritten exactly when the repaired header differs from the old
   one, and the new text splits into `---`, the repaired header lines, `---` and the body lines.
   */
  lemma ManualRepairShape(content: string)
    requires FindHeader(SplitLines(content)).Some?
    ensures var lines := SplitLines(content);
      var sp := FindHeader(lines).value;
      var fixed := RepairHeader(JoinedLines(HeaderLines(lines, sp)));
      && (ManualRepair(content).Some? <==> JoinedLines(fixed) != JoinedLines(HeaderLines(lines, sp)))
      && (ManualRepair(content).Some? ==>
            Split(ManualRepair(content).value, '\n')
              == ["---"] + JoinedLines(fixed) + ["---"] + JoinedLines(BodyLines(lines, sp)))
  {
    var lines := SplitLines(content);
    var sp := FindHeader(lines).value;
    var hdr := HeaderLines(lines, sp);
    var fixed := RepairedHeader(lines, sp);
    RepairedHeaderLines(lines, sp);
    NoNewlines(lines, sp.start + 1, sp.end);
    NoNewlines(lines, sp.end + 1, |lines|);
    JoinSame(fixed, hdr);
    SplitReassembled(fixed, BodyLines(lines, sp));
  }

  /** A line that the pass leaves alone and that `\r?\n` splitting gives back unchanged. */
  predicate Settled(line: string) {
    !IsCandidate(line) && DropCR(line) == line
  }

  lemma DelimiterIsArtefact()
    ensures IsArtefact(Delimiter)
  {
    TrimTrimmed(Delimiter);
  }

  /** A framed text whose header lines are all kept and settled is left as it is. */
  lemma FramedSettled(out: string, jf: seq<string>, jb: seq<string>)
    requires Split(out, '\n') == ["---"] + jf + ["---"] + jb
    requires |jf| >= 1 && |jb| >= 1
    requires forall j :: 0 <= j < |jf| ==> !IsArtefact(jf[j]) && Settled(jf[j])
    ensures ManualRepair(out).None?
  {
    RereadHeader(out, jf, jb);
    ManualRepairShape(out);
    assert JoinedLines(jf) == jf;
    RepairHeaderKeeps(jf);
  }

  /**
   A second run changes nothing when every repaired header line is settled: it holds fewer than
   two `: ` and does not end in a carriage return. (An emitted value that itself contains `: `
   is written back unescaped and would be split again.)
   */
  lemma RepairSettles(content: string)
    requires ManualRepair(content).Some?
    requires var lines := SplitLines(content);
      var fixed := RepairedHeader(lines, FindHeader(lines).value);
      forall j :: 0 <= j < |JoinedLines(fixed)| ==> Settled(JoinedLines(fixed)[j])
    ensures ManualRepair(ManualRepair(content).value).None?
  {
    var lines := SplitLines(content);
    var sp := FindHeader(lines).value;
    var fixed := RepairedHeader(lines, sp);
    RepairedHeaderLines(lines, sp);
    ManualRepairShape(content);
    var jf := JoinedLines(fixed);
    if |fixed| == 0 {
      assert Trim("") == "";
    }
    FramedSettled(ManualRepair(content).value, jf, JoinedLines(BodyLines(lines, sp)));
  }

  // ---------------------------------------------------------------------------------------
  // A second run is not always a no-op: `k: "p\\q: r" b: c` for word characters k, p, q, r, b, c
  // where q starts no escape of a YAML double-quoted scalar
  // ---------------------------------------------------------------------------------------

  /**
   The word characters that may follow a backslash in a YAML double-quoted scalar (section
   5.7 of YAML 1.2), `x`, `u` and `U` included: after any other one, js-yaml rejects the
   scalar, so the repaired header fails to load again.
   */
  predicate YamlEscapeLetter(c: char) {
    c in "0abtnvfreN_LPxuU"
  }

  /** The characters of the example: two keys, three letters of the quoted value, one bare value. */
  predicate Letters(k: char, p: char, q: char, r: char, b: char, c: char) {
    && IsWordChar(k) && IsWordChar(p) && IsWordChar(q) && IsWordChar(r) && IsWordChar(b) && IsWordChar(c)
    && !YamlEscapeLetter(q)
  }

  /**
   The first pass on the value `"p\\q: r" b: c`: the first backslash escapes the second, and the
   closing quote before a space ends the value.
   */
  lemma ScanDoubleBackslash(p: char, q: char, r: char, b: char, c: char)
    requires IsWordChar(p) && IsWordChar(q) && IsWordChar(r)
    ensures var x := ['"', p, '\\', '\\', q, ':', ' ', r, '"', ' ', b, ':', ' ', c];
      ScanValue(x, 0, [], false, false) == Scan(['"', p, '\\', q, ':', ' ', r, '"'], Some(9))
  {
    ScanDoubleFront(p, q, r, b, c);
    ScanDoubleBack(p, q, r, b, c);
  }

  /** The opening quote, `p` and the escaped backslash. */
  lemma ScanDoubleFront(p: char, q: char, r: char, b: char, c: char)
    requires IsWordChar(p)
    ensures var x := ['"', p, '\\', '\\', q, ':', ' ', r, '"', ' ', b, ':', ' ', c];
      ScanValue(x, 0, [], false, false) == ScanValue(x, 4, ['"', p, '\\'], true, false)
  {
    var x := ['"', p, '\\', '\\', q, ':', ' ', r, '"', ' ', b, ':', ' ', c];
    ScanStepOpen(x, 0, []);
    assert [] + ['"'] == ['"'];
    ScanStepKeep(x, 1, ['"'], true);
    assert ['"'] + [x[1]] == ['"', x[1]];
    ScanStepEscape(x, 2, ['"', p], true);
    assert ['"', p] + [x[3]] == ['"', p, x[3]];
  }

  /** The rest of the quoted value, up to the closing quote before the space. */
  lemma ScanDoubleBack(p: char, q: char, r: char, b: char, c: char)
    requires IsWordChar(q) && IsWordChar(r)
    ensures var x := ['"', p, '\\', '\\', q, ':', ' ', r, '"', ' ', b, ':', ' ', c];
      ScanValue(x, 4, ['"', p, '\\'], true, false) == Scan(['"', p, '\\', q, ':', ' ', r, '"'], Some(9))
  {
    var x := ['"', p, '\\', '\\', q, ':', ' ', r, '"', ' ', b, ':', ' ', c];
    ScanStepKeep(x, 4, ['"', p, '\\'], true);
    assert ['"', p, '\\'] + [x[4]] == ['"', p, '\\', x[4]];
    ScanStepKeep(x, 5, ['"', p, '\\', q], true);
    assert ['"', p, '\\', q] + [x[5]] == ['"', p, '\\', q, x[5]];
    ScanStepKeep(x, 6, ['"', p, '\\', q, ':'], true);
    assert ['"', p, '\\', q, ':'] + [x[6]] == ['"', p, '\\', q, ':', x[6]];
    ScanStepKeep(x, 7, ['"', p, '\\', q, ':', ' '], true);
    assert ['"', p, '\\', q, ':', ' '] + [x[7]] == ['"', p, '\\', q, ':', ' ', x[7]];
    ScanStepClose(x, 8, ['"', p, '\\', q, ':', ' ', r]);
    assert ['"', p, '\\', q, ':', ' ', r] + ['"'] == ['"', p, '\\', q, ':', ' ', r, '"'];
  }

  /** The second pass on the emitted value `"p\q: r"`: the remaining backslash escapes the `q`. */
  lemma ScanSingleBackslash(p: char, q: char, r: char)
    requires IsWordChar(p) && IsWordChar(q) && IsWordChar(r)
    ensures var y := ['"', p, '\\', q, ':', ' ', r, '"'];
      ScanValue(y, 0, [], false, false) == Scan(['"', p, q, ':', ' ', r, '"'], Some(8))
  {
    var y := ['"', p, '\\', q, ':', ' ', r, '"'];
    ScanStepOpen(y, 0, []);
    assert [] + ['"'] == ['"'];
    ScanStepKeep(y, 1, ['"'], true);
    assert ['"'] + [y[1]] == ['"', y[1]];
    ScanStepEscape(y, 2, ['"', p], true);
    assert ['"', p] + [y[3]] == ['"', p, y[3]];
    ScanStepKeep(y, 4, ['"', p, q], true);
    assert ['"', p, q] + [y[4]] == ['"', p, q, y[4]];
    ScanStepKeep(y, 5, ['"', p, q, ':'], true);
    assert ['"', p, q, ':'] + [y[5]] == ['"', p, q, ':', y[5]];
    ScanStepKeep(y, 6, ['"', p, q, ':', ' '], true);
    assert ['"', p, q, ':', ' '] + [y[6]] == ['"', p, q, ':', ' ', y[6]];
    ScanStepClose(y, 7, ['"', p, q, ':', ' ', r]);
    assert ['"', p, q, ':', ' ', r] + ['"'] == ['"', p, q, ':', ' ', r, '"'];
  }

  /** The clean-up keeps a backslash that is not followed by `n`. */
  lemma CleanKeepsBackslash(p: char, q: char, r: char)
    requires IsWordChar(p) && IsWordChar(q) && IsWordChar(r) && q != 'n'
    ensures Clean(['"', p, '\\', q, ':', ' ', r, '"']) == [p, '\\', q, ':', ' ', r]
  {
    BackslashKept(p, q, r);
    WordsSpaced([p, '\\', q, ':'], r);
    CleanFixed([p, '\\', q, ':'] + [' ', r]);
    Quote(p, '\\', q, ':', ' ', r);
  }

  lemma BackslashKept(p: char, q: char, r: char)
    requires q != 'n' && q != '\\' && r != '\\'
    ensures ReplaceBackslashN([p, '\\', q, ':'] + [' ', r]) == [p, '\\', q, ':'] + [' ', r]
  {
    var v := [p, '\\', q, ':', ' ', r];
    var rest := [q, ':', ' ', r];
    assert [p, '\\', q, ':'] + [' ', r] == v;
    ReplaceBackslashNNone(rest);
    assert v[1..] == ['\\'] + rest;
    assert ReplaceBackslashN(v[1..]) == ['\\'] + ReplaceBackslashN(rest);
  }

  lemma CleanPlainQuoted(p: char, q: char, r: char)
    requires IsWordChar(p) && IsWordChar(q) && IsWordChar(r)
    ensures Clean(['"', p, q, ':', ' ', r, '"']) == [p, q, ':', ' ', r]
  {
    PlainKept(p, q, r);
    WordsSpaced([p, q, ':'], r);
    CleanFixed([p, q, ':'] + [' ', r]);
    Quote5(p, q, ':', ' ', r);
  }

  lemma PlainKept(p: char, q: char, r: char)
    requires p != '\\' && q != '\\' && r != '\\'
    ensures ReplaceBackslashN([p, q, ':'] + [' ', r]) == [p, q, ':'] + [' ', r]
  {
    ReplaceBackslashNNone([p, q, ':'] + [' ', r]);
  }

  /** The quoted form of a six-character value, and its unquoted value, as displays. */
  lemma Quote(a: char, b: char, c: char, d: char, e: char, f: char)
    ensures ['"'] + ([a, b, c, d] + [e, f]) + ['"'] == ['"', a, b, c, d, e, f, '"']
    ensures [a, b, c, d] + [e, f] == [a, b, c, d, e, f]
  {
  }

  /** The quoted form of a five-character value, and its unquoted value, as displays. */
  lemma Quote5(a: char, b: char, c: char, d: char, e: char)
    ensures ['"'] + ([a, b, c] + [d, e]) + ['"'] == ['"', a, b, c, d, e, '"']
    ensures [a, b, c] + [d, e] == [a, b, c, d, e]
  {
  }

  /** Text without whitespace, one space and a word character is normalized. */
  lemma WordsSpaced(front: string, r: char)
    requires |front| > 0 && forall i :: 0 <= i < |front| ==> !IsSpace(front[i])
    requires IsWordChar(r)
    ensures IsNormalized(front + [' ', r])
  {
    var s := front + [' ', r];
    assert s[0] == front[0];
    assert forall i :: 0 <= i < |front| ==> s[i] == front[i];
  }

  /** One round on `key: "..."` that breaks off after the closing quote. */
  lemma StepQuotedScan(key: string, x: string, sc: Scan, v: string, rest: string)
    requires IsKey(key) && |x| > 0 && !IsSpace(x[0])
    requires ScanValue(x, 0, [], false, false) == sc
    requires sc.stop.Some? && sc.stop.value <= |x| && Clean(sc.value) == v
    requires Trim(x[sc.stop.value..]) == rest
    ensures Step(key + ": " + x) == Some(Round(Pair(key, v), rest))
  {
    MatchRendered(key, x);
    StepUnfold(key + ": " + x, KeyMatch(key, x), sc);
  }

  /** The first round on `k: "p\\q: r" b: c` yields `k` = `p\q: r` and leaves `b: c`. */
  lemma StepFirstPass(k: char, p: char, q: char, r: char, b: char, c: char)
    requires Letters(k, p, q, r, b, c)
    ensures var x := ['"', p, '\\', '\\', q, ':', ' ', r, '"', ' ', b, ':', ' ', c];
      Step([k] + ": " + x) == Some(Round(Pair([k], [p, '\\', q, ':', ' ', r]), [b] + ": " + [c]))
  {
    var x := ['"', p, '\\', '\\', q, ':', ' ', r, '"', ' ', b, ':', ' ', c];
    var second := [b] + ": " + [c];
    ScanDoubleBackslash(p, q, r, b, c);
    CleanKeepsBackslash(p, q, r);
    assert x[9..] == [' '] + second;
    TrimSpacedPair(b, c);
    var sc := Scan(['"', p, '\\', q, ':', ' ', r, '"'], Some(9));
    StepQuotedScan([k], x, sc, [p, '\\', q, ':', ' ', r], second);
  }

  /** Trimming ` b: c` drops only the leading space. */
  lemma TrimSpacedPair(b: char, c: char)
    requires IsWordChar(b) && IsWordChar(c)
    ensures Trim([' '] + ([b] + ": " + [c])) == [b] + ": " + [c]
  {
    var second := [b] + ": " + [c];
    TrimLeadingSpace(' ', second);
    assert |second| == 4 && second[0] == b && second[3] == c;
    TrimTrimmed(second);
  }

  /** A lone `key: v` with a plain value and no further key is the single pair `key` = `v`. */
  lemma TokenizeOnePlain(key: string, v: string)
    requires IsKey(key) && PlainValue(v) && !KeyThenColon(v)
    ensures Tokenize(key + ": " + v) == [Pair(key, v)]
  {
    StepPlain(key, v, []);
    assert v + [] == v;
    TokenizeUnfold(key + ": " + v, Round(Pair(key, v), v));
    TokenizeNoKey(v);
  }

  /** A lone `b: c` is the single pair `b` = `c`. */
  lemma TokenizeSinglePlain(b: char, c: char)
    requires IsWordChar(b) && IsWordChar(c)
    ensures Tokenize([b] + ": " + [c]) == [Pair([b], [c])]
  {
    assert PlainValue([c]) by {
      assert !IsSpace(c);
    }
    assert !KeyThenColon([c]);
    TokenizeOnePlain([b], [c]);
  }

  /** The first pass reads `k: "p\\q: r" b: c` as the pairs `k` = `p\q: r` and `b` = `c`. */
  lemma TokenizeFirstPass(k: char, p: char, q: char, r: char, b: char, c: char)
    requires Letters(k, p, q, r, b, c)
    ensures var x := ['"', p, '\\', '\\', q, ':', ' ', r, '"', ' ', b, ':', ' ', c];
      Tokenize([k] + ": " + x) == [Pair([k], [p, '\\', q, ':', ' ', r]), Pair([b], [c])]
  {
    var x := ['"', p, '\\', '\\', q, ':', ' ', r, '"', ' ', b, ':', ' ', c];
    StepFirstPass(k, p, q, r, b, c);
    TokenizeUnfold([k] + ": " + x, Round(Pair([k], [p, '\\', q, ':', ' ', r]), [b] + ": " + [c]));
    TokenizeSinglePlain(b, c);
  }

  /** The second pass reads the emitted `k: "p\q: r"` as the pair `k` = `pq: r`. */
  lemma TokenizeSecondPass(k: char, p: char, q: char, r: char)
    requires IsWordChar(k) && IsWordChar(p) && IsWordChar(q) && IsWordChar(r)
    ensures var y := ['"', p, '\\', q, ':', ' ', r, '"'];
      Tokenize([k] + ": " + y) == [Pair([k], [p, q, ':', ' ', r])]
  {
    var y := ['"', p, '\\', q, ':', ' ', r, '"'];
    ScanSingleBackslash(p, q, r);
    CleanPlainQuoted(p, q, r);
    assert y[8..] == [];
    assert Trim([]) == [];
    var sc := Scan(['"', p, q, ':', ' ', r, '"'], Some(8));
    StepQuotedScan([k], y, sc, [p, q, ':', ' ', r], "");
    TokenizeUnfold([k] + ": " + y, Round(Pair([k], [p, q, ':', ' ', r]), ""));
  }

  /** A key, `: `, and text with another `: ` in it: the line is cut into pairs. */
  lemma CandidateAfterKey(key: string, front: string, back: string)
    requires IsKey(key)
    ensures IsCandidate(key + ": " + (front + (": " + back)))
    ensures !IsArtefact(key + ": " + (front + (": " + back)))
  {
    var line := key + ": " + (front + (": " + back));
    KeyHasNoColon(key);
    ColonSpacesAfterKey(key, front + (": " + back));
    ColonSpacesSuffix(front, ": " + back);
    ColonSpacesAfterKey("", back);
    assert "" + ": " + back == ": " + back;
    CandidateIff(line);
    assert line[0] == key[0] && IsWordChar(line[0]);
    TrimFirst(line);
  }

  /** A candidate line is replaced by one emitted line per pair. */
  lemma RepairCandidate(line: string)
    requires IsCandidate(line) && !IsArtefact(line) && IsTrimmed(line)
    ensures RepairLine(line) == EmitAll(Tokenize(line))
  {
    TrimTrimmed(line);
  }

  /** The first pass cuts `k: "p\\q: r" b: c` into `k: "p\q: r"` and `b: "c"`. */
  lemma RepairFirstPass(k: char, p: char, q: char, r: char, b: char, c: char)
    requires Letters(k, p, q, r, b, c)
    ensures var x := ['"', p, '\\', '\\', q, ':', ' ', r, '"', ' ', b, ':', ' ', c];
      RepairLine([k] + ": " + x)
        == [Emit(Pair([k], [p, '\\', q, ':', ' ', r])), Emit(Pair([b], [c]))]
  {
    var x := ['"', p, '\\', '\\', q, ':', ' ', r, '"', ' ', b, ':', ' ', c];
    var line := [k] + ": " + x;
    assert x == ['"', p, '\\', '\\', q] + (": " + [r, '"', ' ', b, ':', ' ', c]);
    CandidateAfterKey([k], ['"', p, '\\', '\\', q], [r, '"', ' ', b, ':', ' ', c]);
    assert IsTrimmed(line);
    RepairCandidate(line);
    TokenizeFirstPass(k, p, q, r, b, c);
    var p1, p2 := Pair([k], [p, '\\', q, ':', ' ', r]), Pair([b], [c]);
    EmitTwo(p1, p2);
  }

  /** The second pass cuts the emitted `k: "p\q: r"` again and loses its backslash. */
  lemma RepairSecondPass(k: char, p: char, q: char, r: char)
    requires IsWordChar(k) && IsWordChar(p) && IsWordChar(q) && IsWordChar(r)
    ensures var y := ['"', p, '\\', q, ':', ' ', r, '"'];
      RepairLine([k] + ": " + y) == [Emit(Pair([k], [p, q, ':', ' ', r]))]
  {
    var y := ['"', p, '\\', q, ':', ' ', r, '"'];
    var line := [k] + ": " + y;
    assert y == ['"', p, '\\', q] + (": " + [r, '"']);
    CandidateAfterKey([k], ['"', p, '\\', q], [r, '"']);
    assert IsTrimmed(line);
    RepairCandidate(line);
    TokenizeSecondPass(k, p, q, r);
    EmitOne(Pair([k], [p, q, ':', ' ', r]));
  }

  lemma EmitOne(pr: Pair)
    ensures EmitAll([pr]) == [Emit(pr)]
  {
  }

  /** The line emitted for `k` = `p\q: r` is `k: "p\q: r"`. */
  lemma EmitBackslashed(k: char, p: char, q: char, r: char)
    ensures Emit(Pair([k], [p, '\\', q, ':', ' ', r])) == [k] + ": " + ['"', p, '\\', q, ':', ' ', r, '"']
  {
    assert ": \"" == ": " + ['"'];
    assert ['"'] + [p, '\\', q, ':', ' ', r] + ['"'] == ['"', p, '\\', q, ':', ' ', r, '"'];
  }

  lemma EmitTwo(p1: Pair, p2: Pair)
    ensures EmitAll([p1, p2]) == [Emit(p1), Emit(p2)]
  {
  }

  /**
   The repair as written is not idempotent: a file whose header is `k: "p\\q: r" b: c` is
   rewritten, and the rewritten file is rewritten once more, because the emitted value is not
   re-escaped and still holds `: `. For instance `a: "p\\q: r" b: c` becomes `a: "p\q: r"` and
   `b: "c"`, and then `a: "pq: r"` and `b: "c"`.
   */
  lemma RepairTwiceChanges(k: char, p: char, q: char, r: char, b: char, c: char, content: string)
    requires Letters(k, p, q, r, b, c)
    requires content == Reassemble([[k] + ": " + ['"', p, '\\', '\\', q, ':', ' ', r, '"', ' ', b, ':', ' ', c]], [])
    ensures ManualRepair(content).Some?
    ensures ManualRepair(ManualRepair(content).value).Some?
  {
    var e1 := Emit(Pair([k], [p, '\\', q, ':', ' ', r]));
    var e2 := Emit(Pair([b], [c]));
    RepairTwiceFirst(k, p, q, r, b, c, content);
    var out := ManualRepair(content).value;
    var lines := SplitLines(content);
    var jb := JoinedLines(BodyLines(lines, FindHeader(lines).value));
    EmitPlain(Pair([k], [p, '\\', q, ':', ' ', r]));
    EmitPlain(Pair([b], [c]));
    RereadHeader(out, [e1, e2], jb);
    EmitBackslashed(k, p, q, r);
    RepairSecondPass(k, p, q, r);
    assert RepairHeader([e1, e2])[0] != e1 by {
      assert [e1, e2][1..] == [e2];
      assert |RepairHeader([e1, e2])[0]| == |e1| - 1;
    }
    ManualRepairShape(out);
  }

  /** The first repair of that header writes `---`, the two emitted lines, `---` and the old body. */
  lemma RepairTwiceFirst(k: char, p: char, q: char, r: char, b: char, c: char, content: string)
    requires Letters(k, p, q, r, b, c)
    requires content == Reassemble([[k] + ": " + ['"', p, '\\', '\\', q, ':', ' ', r, '"', ' ', b, ':', ' ', c]], [])
    ensures FindHeader(SplitLines(content)).Some?
    ensures ManualRepair(content).Some?
    ensures Split(ManualRepair(content).value, '\n')
         == ["---"] + [Emit(Pair([k], [p, '\\', q, ':', ' ', r])), Emit(Pair([b], [c]))] + ["---"]
            + JoinedLines(BodyLines(SplitLines(content), FindHeader(SplitLines(content)).value))
  {
    var line := [k] + ": " + ['"', p, '\\', '\\', q, ':', ' ', r, '"', ' ', b, ':', ' ', c];
    LineOfLetters(k, p, q, r, b, c, line);
    ReadOneLine(line, content);
    RepairFirstPass(k, p, q, r, b, c);
    RepairHeaderOne(line);
    ManualRepairShape(content);
  }

  /** The header line of the example is a single line, no delimiter, without a trailing carriage return. */
  lemma LineOfLetters(k: char, p: char, q: char, r: char, b: char, c: char, line: string)
    requires Letters(k, p, q, r, b, c)
    requires line == [k] + ": " + ['"', p, '\\', '\\', q, ':', ' ', r, '"', ' ', b, ':', ' ', c]
    ensures '\n' !in line && line != Delimiter && DropCR(line) == line
  {
    assert line[0] == k && line[|line| - 1] == c;
  }

  /** A one-line header written back is read back as that line. */
  lemma ReadOneLine(line: string, content: string)
    requires '\n' !in line && line != Delimiter && DropCR(line) == line
    requires content == Reassemble([line], [])
    ensures FindHeader(SplitLines(content)) == Some(Span(0, 2))
    ensures HeaderLines(SplitLines(content), Span(0, 2)) == [line]
  {
    SplitReassembled([line], []);
    RereadHeader(content, [line], [""]);
  }

  /** Repairing a one-line header is repairing its line. */
  lemma RepairHeaderOne(line: string)
    ensures RepairHeader([line]) == RepairLine(line)
  {
    assert [line][1..] == [];
  }

  /** An emitted line is never a delimiter and never ends in a carriage return. */
  lemma EmitPlain(pr: Pair)
    ensures Emit(pr) != Delimiter && DropCR(Emit(pr)) == Emit(pr)
  {
    var e := Emit(pr);
    assert e[|e| - 1] == '"';
    assert e[|pr.key|] == ':';
  }
}
