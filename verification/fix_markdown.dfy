/**
 fix-markdown.js: `fixFile` once gray-matter has separated the header from the body. A falsy
 title is replaced by the file's stem; then, in one pass over the body's `\n`-separated lines,
 the first heading whose text matches the title (ignoring ASCII case) is dropped and every other
 heading that is not already trimmed is trimmed. The front-matter title, the body text and the
 stem are parameters.
 */
module FixMarkdown {
  import opened Wrappers
  import opened Text
  import opened Markdown
  import Validate

  /** The entries `fixFile` pushes on its list of changes. */
  datatype Change = AddedTitle | RemovedHeading | FixedHeading

  /** The outcome for one post: the title written back, the new body and the changes made. */
  datatype Fixed = Fixed(title: string, body: string, changes: seq<Change>)

  /** A heading whose text, with its `#` run and whitespace removed, is the title up to ASCII case. */
  predicate Matches(line: string, title: string) {
    IsHeading(line) && Lower(HeadingText(Trim(line))) == Lower(title)
  }

  /** A line as the pass keeps it: a heading trimmed, any other line as it is. */
  function Tidy(line: string): string
  {
    if IsHeading(line) then Trim(line) else line
  }

  /** A tidied line is no badly indented heading, and it differs from the line only when that was one. */
  lemma TidyFacts(line: string)
    ensures !BadHeading(Tidy(line))
    ensures Tidy(line) == line <==> !BadHeading(line)
  {
    if IsHeading(line) {
      TrimTrimmed(Trim(line));
    }
  }

  /** For every line, whether it matches the title. */
  function Matching(lines: seq<string>, title: string): (r: seq<bool>)
    ensures |r| == |lines|
    ensures forall k :: 0 <= k < |r| ==> r[k] == Matches(lines[k], title)
  {
    seq(|lines|, k requires 0 <= k < |lines| => Matches(lines[k], title))
  }

  /** The index of the first `true` at or after `i`. */
  function FirstTrue(bs: seq<bool>, i: nat): (r: Option<nat>)
    requires i <= |bs|
    ensures r.Some? ==> i <= r.value < |bs| && bs[r.value]
    ensures r.Some? ==> forall k :: i <= k < r.value ==> !bs[k]
    ensures r.None? <==> forall k :: i <= k < |bs| ==> !bs[k]
    decreases |bs| - i
  {
    if i == |bs| then None
    else if bs[i] then Some(i)
    else FirstTrue(bs, i + 1)
  }

  /** The index of the first line that matches the title: the heading the pass drops. */
  function FirstMatch(lines: seq<string>, title: string): Option<nat>
  {
    FirstTrue(Matching(lines, title), 0)
  }

  /** The heading dropped is the first that matches, and none is dropped when none matches. */
  lemma FirstMatchFacts(lines: seq<string>, title: string)
    ensures var m := FirstMatch(lines, title);
      m.Some? ==> m.value < |lines| && Matches(lines[m.value], title)
    ensures var m := FirstMatch(lines, title);
      m.Some? ==> forall k :: 0 <= k < m.value ==> !Matches(lines[k], title)
    ensures FirstMatch(lines, title).None? <==> forall k :: 0 <= k < |lines| ==> !Matches(lines[k], title)
  {
    var bs := Matching(lines, title);
    assert FirstTrue(bs, 0).None? <==> forall k :: 0 <= k < |lines| ==> !bs[k];
  }

  /** Every line tidied. */
  function Tidied(lines: seq<string>): (r: seq<string>)
    ensures |r| == |lines|
    ensures forall k :: 0 <= k < |r| ==> r[k] == Tidy(lines[k])
  {
    seq(|lines|, k requires 0 <= k < |lines| => Tidy(lines[k]))
  }

  /** For every line, whether it is a heading that needs trimming. */
  function Untrimmed(lines: seq<string>): (r: seq<bool>)
    ensures |r| == |lines|
    ensures forall k :: 0 <= k < |r| ==> r[k] == BadHeading(lines[k])
  {
    seq(|lines|, k requires 0 <= k < |lines| => BadHeading(lines[k]))
  }

  // ---------------------------------------------------------------------------------------
  // Reference definitions, line by line

  /** The first `n` of `xs`, leaving out the one at `drop`. */
  function Without(xs: seq<string>, drop: Option<nat>, n: nat): seq<string>
    requires n <= |xs|
  {
    if n == 0 then [] else Without(xs, drop, n - 1) + (if drop == Some(n - 1) then [] else [xs[n - 1]])
  }

  /**
   The changes the first `n` lines record: the removal at `drop`, and a heading fix at every
   other line flagged in `bad`.
   */
  function Log(bad: seq<bool>, drop: Option<nat>, n: nat): seq<Change>
    requires n <= |bad|
  {
    if n == 0 then []
    else
      Log(bad, drop, n - 1)
      + (if drop == Some(n - 1) then [RemovedHeading] else if bad[n - 1] then [FixedHeading] else [])
  }

  /** Whether `drop` names one of the first `n` positions. */
  predicate Before(drop: Option<nat>, n: nat) {
    drop.Some? && drop.value < n
  }

  /** The element at `k` once the one at `drop` is left out: the next one from `drop` on. */
  function Pick(xs: seq<string>, drop: Option<nat>, k: nat): string
    requires k + 1 < |xs| || (k < |xs| && !(drop.Some? && drop.value <= k))
  {
    if drop.Some? && drop.value <= k then xs[k + 1] else xs[k]
  }

  /** Every element before `drop` stays in its place, every element after it moves one place down. */
  lemma {:induction false} WithoutShape(xs: seq<string>, drop: Option<nat>, n: nat)
    requires n <= |xs|
    ensures |Without(xs, drop, n)| == if Before(drop, n) then n - 1 else n
    ensures forall k :: 0 <= k < |Without(xs, drop, n)| ==> Without(xs, drop, n)[k] == Pick(xs, drop, k)
  {
    if n > 0 {
      WithoutShape(xs, drop, n - 1);
    }
  }

  /** Without a position to leave out, the first `n` are kept as they are. */
  lemma {:induction false} WithoutNothing(xs: seq<string>, drop: Option<nat>, n: nat)
    requires n <= |xs|
    requires !Before(drop, n)
    ensures Without(xs, drop, n) == xs[..n]
  {
    if n > 0 {
      WithoutNothing(xs, drop, n - 1);
      assert xs[..n] == xs[..n - 1] + [xs[n - 1]];
    }
  }

  /** The removal is recorded once when `drop` falls among the first `n`, and never otherwise. */
  lemma {:induction false} LogRemovedOnce(bad: seq<bool>, drop: Option<nat>, n: nat)
    requires n <= |bad|
    ensures RemovedHeading in Log(bad, drop, n) <==> Before(drop, n)
    ensures var c := Log(bad, drop, n);
      forall i, j :: 0 <= i < j < |c| && c[i] == RemovedHeading ==> c[j] != RemovedHeading
  {
    if n > 0 {
      LogRemovedOnce(bad, drop, n - 1);
    }
  }

  /** Nothing is recorded exactly when nothing is dropped and nothing is flagged. */
  lemma {:induction false} LogEmpty(bad: seq<bool>, drop: Option<nat>, n: nat)
    requires n <= |bad|
    ensures Log(bad, drop, n) == [] <==> !Before(drop, n) && forall k :: 0 <= k < n ==> !bad[k]
  {
    if n > 0 {
      LogEmpty(bad, drop, n - 1);
    }
  }

  // ---------------------------------------------------------------------------------------
  // The pass over the body

  /** The state the loop of `fixFile` carries: whether the title heading is gone, and what it built. */
  datatype Pass = Pass(removed: bool, out: seq<string>, changes: seq<Change>)

  /**
   One turn of the loop on `line`: the first heading matching the title is dropped, a heading
   that is not already trimmed is kept trimmed, any other line is kept as it is.
   */
  function Step(st: Pass, line: string, title: string): Pass
  {
    var trimmed := Trim(line);
    if !st.removed && "#" <= trimmed && Lower(HeadingText(trimmed)) == Lower(title) then
      Pass(true, st.out, st.changes + [RemovedHeading])
    else if "#" <= trimmed && line != trimmed then
      Pass(st.removed, st.out + [trimmed], st.changes + [FixedHeading])
    else
      Pass(st.removed, st.out + [line], st.changes)
  }

  /** After `i` lines the loop has kept, and recorded, what the reference definitions say. */
  predicate Agrees(lines: seq<string>, title: string, i: nat, st: Pass)
    requires i <= |lines|
  {
    && (st.removed <==> Before(FirstMatch(lines, title), i))
    && st.out == Without(Tidied(lines), FirstMatch(lines, title), i)
    && st.changes == Log(Untrimmed(lines), FirstMatch(lines, title), i)
  }

  lemma StepAgrees(lines: seq<string>, title: string, i: nat, st: Pass)
    requires i < |lines|
    requires Agrees(lines, title, i, st)
    ensures Agrees(lines, title, i + 1, Step(st, lines[i], title))
  {
    StepRef(lines, title, i);
  }

  /** The loop of `fixFile` over the body's lines. */
  method FixLines(lines: seq<string>, title: string) returns (out: seq<string>, changes: seq<Change>)
    ensures out == Without(Tidied(lines), FirstMatch(lines, title), |lines|)
    ensures changes == Log(Untrimmed(lines), FirstMatch(lines, title), |lines|)
  {
    var st := Pass(false, [], []);
    for i := 0 to |lines|
      invariant Agrees(lines, title, i, st)
    {
      StepAgrees(lines, title, i, st);
      st := Step(st, lines[i], title);
    }
    AgreesAtEnd(lines, title, st);
    out := st.out;
    changes := st.changes;
  }

  /** Once every line is seen, the state the loop carries is the reference outcome. */
  lemma AgreesAtEnd(lines: seq<string>, title: string, st: Pass)
    requires Agrees(lines, title, |lines|, st)
    ensures st.out == Without(Tidied(lines), FirstMatch(lines, title), |lines|)
    ensures st.changes == Log(Untrimmed(lines), FirstMatch(lines, title), |lines|)
  {
  }

  /** One more line: the reference definitions grow by what that line contributes. */
  lemma Advance(xs: seq<string>, bad: seq<bool>, drop: Option<nat>, i: nat)
    requires i < |xs| && i < |bad|
    ensures drop == Some(i) ==> Without(xs, drop, i + 1) == Without(xs, drop, i)
    ensures drop != Some(i) ==> Without(xs, drop, i + 1) == Without(xs, drop, i) + [xs[i]]
    ensures drop == Some(i) ==> Log(bad, drop, i + 1) == Log(bad, drop, i) + [RemovedHeading]
    ensures drop != Some(i) && bad[i] ==> Log(bad, drop, i + 1) == Log(bad, drop, i) + [FixedHeading]
    ensures drop != Some(i) && !bad[i] ==> Log(bad, drop, i + 1) == Log(bad, drop, i)
  {
    if drop == Some(i) || !bad[i] {
      assert Without(xs, drop, i) + [] == Without(xs, drop, i);
      assert Log(bad, drop, i) + [] == Log(bad, drop, i);
    }
  }

  /** Line `i` in the terms the loop computes: whether it is dropped, and what it adds. */
  lemma StepRef(lines: seq<string>, title: string, i: nat)
    requires i < |lines|
    ensures var m := FirstMatch(lines, title);
      var line := lines[i];
      var trimmed := Trim(line);
      var hit := !Before(m, i) && "#" <= trimmed && Lower(HeadingText(trimmed)) == Lower(title);
      var fix := "#" <= trimmed && line != trimmed;
      var out := Without(Tidied(lines), m, i);
      var changes := Log(Untrimmed(lines), m, i);
      && (Before(m, i + 1) <==> Before(m, i) || hit)
      && (hit ==> Without(Tidied(lines), m, i + 1) == out)
      && (hit ==> Log(Untrimmed(lines), m, i + 1) == changes + [RemovedHeading])
      && (!hit && fix ==> Without(Tidied(lines), m, i + 1) == out + [trimmed])
      && (!hit && fix ==> Log(Untrimmed(lines), m, i + 1) == changes + [FixedHeading])
      && (!hit && !fix ==> Without(Tidied(lines), m, i + 1) == out + [line])
      && (!hit && !fix ==> Log(Untrimmed(lines), m, i + 1) == changes)
  {
    LineStep(lines, title, i);
    Advance(Tidied(lines), Untrimmed(lines), FirstMatch(lines, title), i);
  }

  /** What the pass tests on line `i`, in the terms of the reference definitions. */
  lemma LineStep(lines: seq<string>, title: string, i: nat)
    requires i < |lines|
    ensures var m := FirstMatch(lines, title);
      && (m == Some(i) <==>
           !Before(m, i) && "#" <= Trim(lines[i]) && Lower(HeadingText(Trim(lines[i]))) == Lower(title))
      && (Before(m, i + 1) <==> Before(m, i) || m == Some(i))
    ensures Tidied(lines)[i] ==
      if "#" <= Trim(lines[i]) && lines[i] != Trim(lines[i]) then Trim(lines[i]) else lines[i]
    ensures Untrimmed(lines)[i] == ("#" <= Trim(lines[i]) && lines[i] != Trim(lines[i]))
  {
    MatchAt(lines, title, i);
  }

  /** Line `i` is the one dropped exactly when it matches and no earlier line has been dropped. */
  lemma MatchAt(lines: seq<string>, title: string, i: nat)
    requires i < |lines|
    ensures var m := FirstMatch(lines, title);
      && (m == Some(i) <==> !Before(m, i) && Matches(lines[i], title))
      && (Before(m, i + 1) <==> Before(m, i) || m == Some(i))
  {
    FirstTrueAt(Matching(lines, title), i);
  }

  lemma FirstTrueAt(bs: seq<bool>, i: nat)
    requires i < |bs|
    ensures var m := FirstTrue(bs, 0);
      && (m == Some(i) <==> !Before(m, i) && bs[i])
      && (Before(m, i + 1) <==> Before(m, i) || m == Some(i))
  {
  }

  /** `fixFile`: the title fix, then the pass over the body split on `\n` and joined back. */
  method FixFile(title: Option<string>, body: string, stem: string) returns (r: Fixed)
    ensures r.title == (if Truthy(title) then title.value else stem)
    ensures var lines := Split(body, '\n');
      r.body == Join(Without(Tidied(lines), FirstMatch(lines, r.title), |lines|), "\n")
    ensures var lines := Split(body, '\n');
      r.changes == (if Truthy(title) then [] else [AddedTitle]) + Log(Untrimmed(lines), FirstMatch(lines, r.title), |lines|)
  {
    var t := if Truthy(title) then title.value else stem;
    var changes: seq<Change> := if Truthy(title) then [] else [AddedTitle];
    var lines := Split(body, '\n');
    var out, more := FixLines(lines, t);
    r := Fixed(t, Join(out, "\n"), changes + more);
  }

  // ---------------------------------------------------------------------------------------
  // What the pass does

  /** The body kept for `lines` under `title`. */
  function Kept(lines: seq<string>, title: string): seq<string>
  {
    Without(Tidied(lines), FirstMatch(lines, title), |lines|)
  }

  /**
   The kept lines are the tidied lines with the first matching heading taken out: every line
   before it in its place, every line after it one place earlier.
   */
  lemma KeptShape(lines: seq<string>, title: string)
    ensures var m := FirstMatch(lines, title);
      |Kept(lines, title)| == if m.Some? then |lines| - 1 else |lines|
    ensures var m := FirstMatch(lines, title);
      forall k :: 0 <= k < |Kept(lines, title)| ==> Kept(lines, title)[k] == Pick(Tidied(lines), m, k)
  {
    var m := FirstMatch(lines, title);
    WithoutShape(Tidied(lines), m, |lines|);
    assert m.Some? ==> m.value < |lines|;
  }

  /** No heading is left untrimmed, so a second pass fixes no heading format. */
  lemma KeptTrimmed(lines: seq<string>, title: string)
    ensures forall k :: 0 <= k < |Kept(lines, title)| ==> !BadHeading(Kept(lines, title)[k])
  {
    var out := Kept(lines, title);
    var m := FirstMatch(lines, title);
    KeptShape(lines, title);
    forall k | 0 <= k < |out| ensures !BadHeading(out[k]) {
      var j := if m.Some? && m.value <= k then k + 1 else k;
      TidyFacts(lines[j]);
    }
  }

  /** Only whitespace is removed from the lines kept, so none of them gains a newline. */
  lemma KeptNoNewline(lines: seq<string>, title: string)
    requires forall k :: 0 <= k < |lines| ==> '\n' !in lines[k]
    ensures forall k :: 0 <= k < |Kept(lines, title)| ==> '\n' !in Kept(lines, title)[k]
  {
    var tidied := Tidied(lines);
    forall k | 0 <= k < |tidied| ensures '\n' !in tidied[k] {
      TidyNoNewline(lines[k]);
    }
    WithoutKeeps(tidied, FirstMatch(lines, title), |lines|);
  }

  lemma TidyNoNewline(line: string)
    requires '\n' !in line
    ensures '\n' !in Tidy(line)
  {
    if IsHeading(line) {
      TrimChars(line, '\n');
    }
  }

  /** Leaving an element out keeps every newline-free element newline-free. */
  lemma {:induction false} WithoutKeeps(xs: seq<string>, drop: Option<nat>, n: nat)
    requires n <= |xs|
    requires forall k :: 0 <= k < |xs| ==> '\n' !in xs[k]
    ensures forall k :: 0 <= k < |Without(xs, drop, n)| ==> '\n' !in Without(xs, drop, n)[k]
  {
    if n > 0 {
      WithoutKeeps(xs, drop, n - 1);
      var prev := Without(xs, drop, n - 1);
      var more := if drop == Some(n - 1) then [] else [xs[n - 1]];
      assert Without(xs, drop, n) == prev + more;
      assert forall k :: 0 <= k < |more| ==> more[k] == xs[n - 1];
    }
  }

  /**
   `removed duplicate title heading` is recorded at most once, and exactly when some heading
   matches the title.
   */
  lemma RemovedOnce(lines: seq<string>, title: string)
    ensures var c := Log(Untrimmed(lines), FirstMatch(lines, title), |lines|);
      && (RemovedHeading in c <==> exists k :: 0 <= k < |lines| && Matches(lines[k], title))
      && forall i, j :: 0 <= i < j < |c| && c[i] == RemovedHeading ==> c[j] != RemovedHeading
  {
    LogRemovedOnce(Untrimmed(lines), FirstMatch(lines, title), |lines|);
    FirstMatchFacts(lines, title);
  }

  /** No change is recorded for the body exactly when no heading matches and none needs trimming. */
  lemma NoChanges(lines: seq<string>, title: string)
    ensures Log(Untrimmed(lines), FirstMatch(lines, title), |lines|) == [] <==>
      forall k :: 0 <= k < |lines| ==> !Matches(lines[k], title) && !BadHeading(lines[k])
  {
    LogEmpty(Untrimmed(lines), FirstMatch(lines, title), |lines|);
    FirstMatchFacts(lines, title);
  }

  /** A body with no recorded change is kept line for line. */
  lemma UnchangedKept(lines: seq<string>, title: string)
    requires forall k :: 0 <= k < |lines| ==> !Matches(lines[k], title) && !BadHeading(lines[k])
    ensures Kept(lines, title) == lines
  {
    var m := FirstMatch(lines, title);
    var t := Tidied(lines);
    FirstMatchFacts(lines, title);
    TidiedSame(lines);
    WithoutNothing(t, m, |t|);
    assert t[..|t|] == t;
  }

  /** With no heading to trim, tidying every line changes nothing. */
  lemma TidiedSame(lines: seq<string>)
    requires forall k :: 0 <= k < |lines| ==> !BadHeading(lines[k])
    ensures Tidied(lines) == lines
  {
    var t := Tidied(lines);
    forall k | 0 <= k < |lines| ensures t[k] == lines[k] {
      TidyFacts(lines[k]);
    }
  }

  /** A post for which `fixFile` records no change keeps its title and its body. */
  method FixFileQuiet(title: Option<string>, body: string, stem: string) returns (r: Fixed)
    ensures r.changes == [] ==> Truthy(title) && r.title == title.value && r.body == body
  {
    r := FixFile(title, body, stem);
    if r.changes == [] {
      var lines := Split(body, '\n');
      NoChanges(lines, r.title);
      UnchangedKept(lines, r.title);
      JoinSplit(body, '\n');
    }
  }

  /**
   Checking the fixed post with validate-markdown.js finds no `heading_format` issue, and no
   `missing_title` issue when the title was present or the stem is not empty.
   */
  method FixThenValidate(title: Option<string>, body: string, stem: string) returns (r: Fixed)
    ensures forall x :: x in Validate.ValidateBody(Some(r.title), r.body) ==> x.kind != Validate.HeadingFormat
    ensures (Truthy(title) || stem != "") ==>
      forall x :: x in Validate.ValidateBody(Some(r.title), r.body) ==> x.kind != Validate.MissingTitle
  {
    r := FixFile(title, body, stem);
    var lines := Split(body, '\n');
    FixedLinesTrimmed(lines, r.title);
    forall x | x in Validate.ValidateBody(Some(r.title), r.body)
      ensures x.kind != Validate.HeadingFormat
      ensures (Truthy(title) || stem != "") ==> x.kind != Validate.MissingTitle
    {
      NoHeadingFormat(r.title, r.body, x);
      if x.kind == Validate.MissingTitle {
        Validate.ValidateTitleIssues(Some(r.title), r.body, x);
      }
    }
  }

  /** The body written back splits into lines none of which is a badly indented heading. */
  lemma FixedLinesTrimmed(lines: seq<string>, title: string)
    requires forall k :: 0 <= k < |lines| ==> '\n' !in lines[k]
    ensures var fixedLines := Split(Join(Kept(lines, title), "\n"), '\n');
      forall k :: 0 <= k < |fixedLines| ==> !BadHeading(fixedLines[k])
  {
    var out := Kept(lines, title);
    KeptTrimmed(lines, title);
    KeptNoNewline(lines, title);
    if |out| == 0 {
      assert Split(Join(out, "\n"), '\n') == [""];
    } else {
      SplitJoin(out, '\n');
    }
  }

  /** A body none of whose lines is a badly indented heading draws no `heading_format` issue. */
  lemma NoHeadingFormat(title: string, body: string, x: Validate.Issue)
    requires forall k :: 0 <= k < |Split(body, '\n')| ==> !BadHeading(Split(body, '\n')[k])
    requires x in Validate.ValidateBody(Some(title), body)
    ensures x.kind != Validate.HeadingFormat
  {
    Validate.ValidateLineIssues(Some(title), body, x);
  }

  // ---------------------------------------------------------------------------------------
  // A second run

  /** At most one line is a heading that matches the title. */
  predicate OneMatchAtMost(lines: seq<string>, title: string) {
    forall i, j :: 0 <= i < j < |lines| && Matches(lines[i], title) ==> !Matches(lines[j], title)
  }

  /** Tidying a line does not change whether it matches the title. */
  lemma TidyMatches(line: string, title: string)
    ensures Matches(Tidy(line), title) == Matches(line, title)
  {
    if IsHeading(line) {
      TrimTrimmed(Trim(line));
    }
  }

  /** When at most one heading matches the title, no kept line does. */
  lemma KeptNoMatch(lines: seq<string>, title: string)
    requires OneMatchAtMost(lines, title)
    ensures forall k :: 0 <= k < |Kept(lines, title)| ==> !Matches(Kept(lines, title)[k], title)
  {
    var out := Kept(lines, title);
    var m := FirstMatch(lines, title);
    KeptShape(lines, title);
    FirstMatchFacts(lines, title);
    forall k | 0 <= k < |out| ensures !Matches(out[k], title) {
      var j := if m.Some? && m.value <= k then k + 1 else k;
      TidyMatches(lines[j], title);
    }
  }

  /** `# T` is a trimmed heading that matches the title `T`. */
  lemma TitleHeading()
    ensures Matches("# T", "T") && Tidy("# T") == "# T"
  {
    TrimTrimmed("# T");
    assert Hashes("# T") == 1 && "# T"[1..] == " T";
    assert LeadingSpaces(" T") == 1 && " T"[1..] == "T";
    TrimTrimmed("T");
  }

  /**
   With two headings that match the title, each run drops one of them: the first run keeps the
   second `# T`, and the next run drops it too.
   */
  lemma KeptTwiceRemovesAgain()
    ensures Kept(["# T", "# T"], "T") == ["# T"]
    ensures Kept(["# T"], "T") == []
  {
    TitleHeading();
    var two, one := ["# T", "# T"], ["# T"];
    assert Tidied(two) == two;
    assert Tidied(one) == one;
    KeptDropsFirst(two, "T");
    KeptDropsFirst(one, "T");
    assert two[1..] == one;
  }

  /** When the first line matches and every line is already tidy, the pass drops just that line. */
  lemma KeptDropsFirst(lines: seq<string>, title: string)
    requires |lines| >= 1 && Matches(lines[0], title)
    requires Tidied(lines) == lines
    ensures Kept(lines, title) == lines[1..]
  {
    assert FirstMatch(lines, title) == Some(0) by {
      FirstMatchFacts(lines, title);
    }
    WithoutFirst(lines, |lines|);
    assert lines[1..|lines|] == lines[1..];
  }

  lemma {:induction false} WithoutFirst(xs: seq<string>, n: nat)
    requires 1 <= n <= |xs|
    ensures Without(xs, Some(0), n) == xs[1..n]
    decreases n
  {
    if n > 1 {
      WithoutFirst(xs, n - 1);
      assert xs[1..n] == xs[1..n - 1] + [xs[n - 1]];
    } else {
      assert Without(xs, Some(0), 0) == [];
    }
  }

  /** No kept line matches the title or is a badly indented heading. */
  lemma KeptClean(lines: seq<string>, title: string)
    requires OneMatchAtMost(lines, title)
    ensures forall k :: 0 <= k < |Kept(lines, title)| ==>
      !Matches(Kept(lines, title)[k], title) && !BadHeading(Kept(lines, title)[k])
  {
    KeptNoMatch(lines, title);
    KeptTrimmed(lines, title);
  }

  /**
   The lines a second run reads from the written body: the pass keeps them all, line for line,
   they join back into the same body, and the pass records nothing for them.
   */
  lemma SecondPass(lines: seq<string>, title: string)
    requires OneMatchAtMost(lines, title)
    requires forall k :: 0 <= k < |lines| ==> '\n' !in lines[k]
    ensures var body := Join(Kept(lines, title), "\n");
      var again := Split(body, '\n');
      && Kept(again, title) == again
      && Join(again, "\n") == body
      && Log(Untrimmed(again), FirstMatch(again, title), |again|) == []
  {
    var out := Kept(lines, title);
    KeptNoNewline(lines, title);
    SplitJoinLines(out);
    if |out| == 0 {
      var again := [""];
      assert !Matches("", title) && !BadHeading("");
      UnchangedKept(again, title);
      NoChanges(again, title);
    } else {
      KeptClean(lines, title);
      UnchangedKept(out, title);
      NoChanges(out, title);
    }
  }

  /**
   Running `fixFile` again on the post it wrote keeps the title and the body, and records no
   change when the title is not empty, provided at most one heading matched the title.
   */
  method FixFileTwice(title: Option<string>, body: string, stem: string) returns (first: Fixed, second: Fixed)
    requires OneMatchAtMost(Split(body, '\n'), if Truthy(title) then title.value else stem)
    ensures second.title == first.title && second.body == first.body
    ensures first.title != "" ==> second.changes == []
  {
    first := FixFile(title, body, stem);
    second := FixFile(Some(first.title), first.body, stem);
    SecondPass(Split(body, '\n'), first.title);
  }
}
