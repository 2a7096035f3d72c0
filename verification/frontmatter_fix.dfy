/**
 The header normalisation of fix-yaml-frontmatter.js: every `tags:` entry is rewritten as a
 block list (`tags:` then `  - tag` lines), and every `description:` or `excerpt:` value is
 joined with its continuation lines, line feeds kept, then trimmed and cut to 160 characters.
 Parsing an inline tag array (`JSON.parse`) is a parameter; None stands for a parse error.
 */
module FrontMatterFix {
  import opened Wrappers
  import opened Text
  import opened FrontMatter

  /** An entry of the change list the script reports. */
  datatype Change = TagsToBlock | Shortened(key: string)

  /** Output header lines together with the changes that produced them. */
  datatype Rewrite = Rewrite(lines: seq<string>, changes: seq<Change>)

  function Then(a: Rewrite, b: Rewrite): Rewrite {
    Rewrite(a.lines + b.lines, a.changes + b.changes)
  }

  const MaxDescLength := 160

  // ---------------------------------------------------------------------------------------
  // Tags
  // ---------------------------------------------------------------------------------------

  /** A block-list item: the line starts with two spaces, a dash and a space. */
  predicate IsItem(line: string) {
    "  - " <= line
  }

  /** `line.trim().substring(2)`: the item text after the dash and its space. */
  function ItemTag(line: string): string {
    var t := Trim(line);
    if |t| >= 2 then t[2..] else []
  }

  /** Number of leading block-list items. */
  function ItemRun(ls: seq<string>): (n: nat)
    ensures n <= |ls|
    ensures forall k :: 0 <= k < n ==> IsItem(ls[k])
    ensures n < |ls| ==> !IsItem(ls[n])
  {
    if |ls| > 0 && IsItem(ls[0]) then 1 + ItemRun(ls[1..]) else 0
  }

  function ItemTags(items: seq<string>): (tags: seq<string>)
    ensures |tags| == |items|
    ensures forall k :: 0 <= k < |items| ==> tags[k] == ItemTag(items[k])
  {
    seq(|items|, k requires 0 <= k < |items| => ItemTag(items[k]))
  }

  predicate NoDuplicates(s: seq<string>) {
    forall i, j :: 0 <= i < j < |s| ==> s[i] != s[j]
  }

  /**
   The items of `more` that `tags` does not hold and that do not occur earlier in `more`, in
   their order in `more`: what the merge loop appends.
   */
  function Fresh(tags: seq<string>, more: seq<string>): seq<string>
    decreases |more|
  {
    if |more| == 0 then []
    else
      var init := more[..|more| - 1];
      var x := more[|more| - 1];
      Fresh(tags, init) + (if x in tags || x in init then [] else [x])
  }

  /** `Fresh` holds exactly the items of `more` that `tags` lacks, each once. */
  lemma {:induction false} FreshMembers(tags: seq<string>, more: seq<string>)
    ensures forall t :: t in Fresh(tags, more) <==> t in more && t !in tags
    ensures NoDuplicates(Fresh(tags, more))
    decreases |more|
  {
    if |more| > 0 {
      var init := more[..|more| - 1];
      var x := more[|more| - 1];
      assert more == init + [x];
      FreshMembers(tags, init);
      var f := Fresh(tags, init);
      var r := Fresh(tags, more);
      if !(x in tags || x in init) {
        assert r == f + [x];
        forall i, j | 0 <= i < j < |r|
          ensures r[i] != r[j]
        {
          if j == |f| {
            assert r[i] == f[i];
          } else {
            assert r[i] == f[i] && r[j] == f[j];
          }
        }
      }
    }
  }

  /** `Fresh` seen from the front: the first item is kept unless `tags` holds it, and then counts as held. */
  lemma {:induction false} FreshCons(tags: seq<string>, more: seq<string>)
    requires |more| > 0
    ensures Fresh(tags, more)
         == if more[0] in tags then Fresh(tags, more[1..]) else [more[0]] + Fresh(tags + [more[0]], more[1..])
    decreases |more|
  {
    var h := more[0];
    if |more| > 1 {
      var init := more[..|more| - 1];
      var x := more[|more| - 1];
      assert init[0] == h;
      assert more[1..][..|more[1..]| - 1] == init[1..];
      assert more[1..][|more[1..]| - 1] == x;
      assert x in init <==> x == h || x in init[1..] by {
        assert init == [h] + init[1..];
      }
      assert x in tags + [h] <==> x in tags || x == h;
      FreshCons(tags, init);
    } else {
      assert more[..0] == [] && more[1..] == [];
    }
  }

  /**
   The inline array merged with the block items that follow it: each item is appended unless
   the list already holds it.
   */
  function Merge(tags: seq<string>, more: seq<string>): (r: seq<string>)
    ensures r == tags + Fresh(tags, more)
    ensures tags <= r
    ensures forall t :: t in r <==> t in tags || t in more
    ensures NoDuplicates(tags) ==> NoDuplicates(r)
    decreases |more|
  {
    if |more| == 0 then
      assert tags + [] == tags;
      tags
    else
      var h := more[0];
      var r := if h in tags then Merge(tags, more[1..]) else Merge(tags + [h], more[1..]);
      MergeStep(tags, more, r);
      AppendFresh(tags, more, r);
      r
  }

  lemma MergeStep(tags: seq<string>, more: seq<string>, r: seq<string>)
    requires |more| > 0
    requires more[0] in tags ==> r == tags + Fresh(tags, more[1..])
    requires more[0] !in tags ==> r == tags + [more[0]] + Fresh(tags + [more[0]], more[1..])
    ensures r == tags + Fresh(tags, more)
  {
    if more[0] in tags {
      FreshHeld(tags, more);
    } else {
      FreshNew(tags, more, Fresh(tags + [more[0]], more[1..]));
    }
  }

  lemma FreshHeld(tags: seq<string>, more: seq<string>)
    requires |more| > 0 && more[0] in tags
    ensures Fresh(tags, more) == Fresh(tags, more[1..])
  {
    FreshCons(tags, more);
  }

  lemma FreshNew(tags: seq<string>, more: seq<string>, f: seq<string>)
    requires |more| > 0 && more[0] !in tags
    requires f == Fresh(tags + [more[0]], more[1..])
    ensures tags + Fresh(tags, more) == tags + [more[0]] + f
  {
    FreshCons(tags, more);
    assert tags + [more[0]] + f == tags + ([more[0]] + f);
  }

  /** The list the merge writes starts with `tags`, holds the items of both, and repeats none when `tags` does not. */
  lemma AppendFresh(tags: seq<string>, more: seq<string>, r: seq<string>)
    requires r == tags + Fresh(tags, more)
    ensures tags <= r
    ensures forall t :: t in r <==> t in tags || t in more
    ensures NoDuplicates(tags) ==> NoDuplicates(r)
  {
    var f := Fresh(tags, more);
    FreshMembers(tags, more);
    assert forall t :: t in r <==> t in tags || t in f;
    if NoDuplicates(tags) {
      forall i, j | 0 <= i < j < |r|
        ensures r[i] != r[j]
      {
        if j < |tags| {
          assert r[i] == tags[i] && r[j] == tags[j];
        } else if i < |tags| {
          assert r[i] == tags[i] && r[j] == f[j - |tags|];
          assert r[j] in f;
        } else {
          assert r[i] == f[i - |tags|] && r[j] == f[j - |tags|];
        }
      }
    }
  }

  /** The lines a tag list is written as; nothing at all for an empty list. */
  function TagBlock(tags: seq<string>): (r: seq<string>)
    ensures |tags| == 0 ==> r == []
    ensures |tags| > 0 ==> |r| == |tags| + 1 && r[0] == TagsKey
    ensures forall k :: 0 <= k < |tags| ==> r[k + 1] == "  - " + tags[k]
  {
    if |tags| == 0 then []
    else [TagsKey] + seq(|tags|, k requires 0 <= k < |tags| => "  - " + tags[k])
  }

  lemma DashTrimmed(t: string)
    requires IsTrimmed(t) && |t| > 0
    ensures Trim("- " + t) == "- " + t
  {
    var d := "- " + t;
    assert d[0] == '-' && d[|d| - 1] == t[|t| - 1];
    TrimTrimmed(d);
  }

  lemma TwoSpaces(d: string)
    ensures Trim("  " + d) == Trim(d)
  {
    assert "  " + d == [' '] + ([' '] + d);
    TrimLeadingSpace(' ', [' '] + d);
    TrimLeadingSpace(' ', d);
  }

  lemma EmptyItem()
    ensures Trim("- ") == "-"
  {
  }

  /** An item written for a trimmed tag reads back as that tag. */
  lemma ItemOfTag(t: string)
    requires IsTrimmed(t)
    ensures IsItem("  - " + t) && ItemTag("  - " + t) == t
  {
    var d := "- " + t;
    assert "  - " + t == "  " + d;
    TwoSpaces(d);
    if |t| == 0 {
      EmptyItem();
    } else {
      DashTrimmed(t);
      assert d[2..] == t;
    }
  }

  /** Written-out tags read back as the same tags. */
  lemma TagBlockItems(tags: seq<string>)
    requires |tags| > 0
    requires forall k :: 0 <= k < |tags| ==> IsTrimmed(tags[k])
    ensures ItemRun(TagBlock(tags)[1..]) == |tags|
    ensures ItemTags(TagBlock(tags)[1..]) == tags
  {
    var items := TagBlock(tags)[1..];
    forall k | 0 <= k < |tags|
      ensures IsItem(items[k]) && ItemTag(items[k]) == tags[k]
    {
      ItemOfTag(tags[k]);
    }
    ItemRunAll(items);
  }

  lemma {:induction false} ItemRunAll(items: seq<string>)
    requires forall k :: 0 <= k < |items| ==> IsItem(items[k])
    ensures ItemRun(items) == |items|
    decreases |items|
  {
    if |items| > 0 {
      ItemRunAll(items[1..]);
    }
  }

  /** An inline array: the line holds both `[` and `]`. */
  predicate IsInline(line: string) {
    '[' in line && ']' in line
  }

  /** A bare key, `tags:` up to surrounding whitespace. */
  predicate IsBare(line: string) {
    Trim(line) == TagsKey
  }

  /** The text of `s` before the first place `pat` starts; all of `s` when it never does. */
  function UpTo(s: string, pat: string): (r: string)
    requires |pat| > 0
    ensures r <= s
    ensures |r| < |s| ==> pat <= s[|r|..]
    ensures forall i :: 0 <= i < |r| ==> !(pat <= s[i..])
  {
    if |s| == 0 || pat <= s then []
    else
      var rest := UpTo(s[1..], pat);
      assert forall i :: 1 <= i <= |rest| ==> s[i..] == s[1..][i - 1..];
      [s[0]] + rest
  }

  /** Each `'` turned into `"`. */
  function SingleToDouble(s: string): (r: string)
    ensures |r| == |s|
    ensures forall i :: 0 <= i < |s| ==> r[i] == (if s[i] == '\'' then '"' else s[i])
    ensures '\'' !in r
  {
    seq(|s|, i requires 0 <= i < |s| => if s[i] == '\'' then '"' else s[i])
  }

  /**
   The text handed to the JSON parser: what follows `tags:` up to the next `tags:`, trimmed,
   with single quotes turned into double ones.
   */
  function InlineText(line: string): string
    requires TagsKey <= line
  {
    SingleToDouble(Trim(UpTo(line[|TagsKey|..], TagsKey)))
  }

  function InlineTags(line: string, parse: string -> Option<seq<string>>): seq<string>
    requires TagsKey <= line
  {
    parse(InlineText(line)).GetOr([])
  }

  /** The tags of a `tags:` line and the items after it; duplicates are skipped after an inline array only. */
  function CollectedTags(line: string, items: seq<string>, parse: string -> Option<seq<string>>): (tags: seq<string>)
    requires TagsKey <= line
    ensures !IsInline(line) ==> tags == ItemTags(items)
    ensures IsInline(line) ==> tags == InlineTags(line, parse) + Fresh(InlineTags(line, parse), ItemTags(items))
    ensures IsInline(line) ==> InlineTags(line, parse) <= tags
    ensures forall t :: t in tags <==> (IsInline(line) && t in InlineTags(line, parse)) || t in ItemTags(items)
  {
    if IsInline(line) then Merge(InlineTags(line, parse), ItemTags(items)) else ItemTags(items)
  }

  function TagsRewrite(tags: seq<string>): (r: Rewrite)
    ensures r.lines == TagBlock(tags)
    ensures r.changes == (if |tags| > 0 then [TagsToBlock] else [])
  {
    if |tags| > 0 then Rewrite(TagBlock(tags), [TagsToBlock]) else Rewrite([], [])
  }

  // ---------------------------------------------------------------------------------------
  // Description and excerpt
  // ---------------------------------------------------------------------------------------

  /** The value after the first colon, trimmed, joined with its continuation lines and trimmed again. */
  function FullValue(line: string, cont: seq<string>): (v: string)
    ensures IsTrimmed(v)
  {
    Trim(Join([Trim(AfterColon(line))] + cont, "\n"))
  }

  /** A value over 160 characters becomes its first 157 characters and `...`. */
  function Shorten(v: string): (r: string)
    ensures |v| <= MaxDescLength ==> r == v
    ensures |v| > MaxDescLength ==> |r| == MaxDescLength && r == v[..MaxDescLength - 3] + "..."
  {
    if |v| > MaxDescLength then v[..MaxDescLength - 3] + "..." else v
  }

  lemma ShortenTrimmed(v: string)
    requires IsTrimmed(v)
    ensures IsTrimmed(Shorten(v)) && |Shorten(v)| <= MaxDescLength
  {
  }

  /**
   A folded field: one entry `key: value`, whose value keeps the line feeds of its continuation
   lines, and a change entry when the value was cut.
   */
  function FoldRewrite(line: string, cont: seq<string>): (r: Rewrite)
    ensures |r.lines| == 1
    ensures r.lines[0] == KeyOf(line) + ": " + Shorten(FullValue(line, cont))
    ensures r.changes == (if |FullValue(line, cont)| > MaxDescLength then [Shortened(KeyOf(line))] else [])
  {
    var key := KeyOf(line);
    var v := FullValue(line, cont);
    if |v| > MaxDescLength then Rewrite([key + ": " + Shorten(v)], [Shortened(key)])
    else Rewrite([key + ": " + v], [])
  }

  /** A written `key: value` line with a trimmed value of at most 160 characters folds to itself. */
  lemma FoldSettles(key: string, v: string)
    requires key == "description" || key == "excerpt"
    requires IsTrimmed(v) && |v| <= MaxDescLength
    ensures FoldRewrite(key + ": " + v, []) == Rewrite([key + ": " + v], [])
  {
    FoldLineHead(key, v);
    assert Join([v], "\n") == v;
    TrimTrimmed(v);
  }

  /** The key and the trimmed first value of a written `key: value` line. */
  lemma FoldLineHead(key: string, p0: string)
    requires key == "description" || key == "excerpt"
    requires IsTrimmed(p0)
    ensures KeyOf(key + ": " + p0) == key
    ensures Trim(AfterColon(key + ": " + p0)) == p0
  {
    var line := key + ": " + p0;
    KeyOfPrefix(key, line);
    assert AfterColon(line) == [' '] + p0;
    TrimLeadingSpace(' ', p0);
    TrimTrimmed(p0);
  }

  /** The folded value of a first line and its continuation lines, when they are the pieces of a trimmed value. */
  lemma FullValuePieces(key: string, v: string)
    requires key == "description" || key == "excerpt"
    requires IsTrimmed(v) && IsTrimmed(Split(v, '\n')[0])
    ensures var ps := Split(v, '\n');
      FullValue(key + ": " + ps[0], ps[1..]) == v
  {
    var ps := Split(v, '\n');
    FoldLineHead(key, ps[0]);
    calc {
      FullValue(key + ": " + ps[0], ps[1..]);
      Trim(Join([ps[0]] + ps[1..], "\n"));
      { assert [ps[0]] + ps[1..] == ps; }
      Trim(Join(ps, "\n"));
      { JoinSplit(v, '\n'); }
      Trim(v);
      { TrimTrimmed(v); }
      v;
    }
  }

  /**
   A written `key: value` line whose value runs over several lines is read again as its first
   physical line followed by the rest as continuation lines, and these fold back to the same
   line, provided the first physical line is trimmed and the others are continuation lines.
   */
  lemma FoldSettlesLines(key: string, v: string)
    requires key == "description" || key == "excerpt"
    requires IsTrimmed(v) && |v| <= MaxDescLength
    requires var ps := Split(v, '\n');
      IsTrimmed(ps[0]) && forall k :: 1 <= k < |ps| ==> IsContinuation(ps[k])
    ensures var ps := Split(v, '\n');
      && Split(key + ": " + v, '\n') == [key + ": " + ps[0]] + ps[1..]
      && ContinuationRun(ps[1..]) == |ps| - 1
      && FoldRewrite(key + ": " + ps[0], ps[1..]) == Rewrite([key + ": " + v], [])
  {
    var ps := Split(v, '\n');
    ContinuationRunAll(ps[1..]);
    assert key + ": " + v == (key + ": ") + v;
    SplitPrepend(key + ": ", v, '\n');
    FoldLineHead(key, ps[0]);
    FullValuePieces(key, v);
  }

  lemma {:induction false} ContinuationRunAll(ls: seq<string>)
    requires forall k :: 0 <= k < |ls| ==> IsContinuation(ls[k])
    ensures ContinuationRun(ls) == |ls|
    decreases |ls|
  {
    if |ls| > 0 {
      ContinuationRunAll(ls[1..]);
    }
  }

  /**
   Every line feed is followed by whitespace, a `.` or the end of the text, so no physical line
   after the first can start with `-`.
   */
  predicate QuietBreaks(s: string) {
    forall i :: 0 <= i < |s| - 1 && s[i] == '\n' ==> IsSpace(s[i + 1]) || s[i + 1] == '.'
  }

  /** Empty, or starting with whitespace: what a continuation line looks like. */
  predicate SpaceStart(s: string) {
    |s| == 0 || IsSpace(s[0])
  }

  lemma QuietSlice(s: string, a: nat, b: nat)
    requires a <= b <= |s| && QuietBreaks(s)
    ensures QuietBreaks(s[a..b])
  {
    var t := s[a..b];
    forall i | 0 <= i < |t| - 1 && t[i] == '\n'
      ensures IsSpace(t[i + 1]) || t[i + 1] == '.'
    {
      assert t[i] == s[a + i] && t[i + 1] == s[a + i + 1];
    }
  }

  lemma QuietTrim(s: string)
    requires QuietBreaks(s)
    ensures QuietBreaks(Trim(s))
  {
    var t := s[LeadingSpaces(s)..];
    QuietSlice(s, LeadingSpaces(s), |s|);
    QuietSlice(t, 0, |t| - TrailingSpaces(t));
  }

  lemma QuietShorten(v: string)
    requires QuietBreaks(v)
    ensures QuietBreaks(Shorten(v))
  {
    if |v| > MaxDescLength {
      var p := v[..MaxDescLength - 3];
      QuietSlice(v, 0, MaxDescLength - 3);
      var r := p + "...";
      forall i | 0 <= i < |r| - 1 && r[i] == '\n'
        ensures IsSpace(r[i + 1]) || r[i + 1] == '.'
      {
        assert i < |p|;
        if i < |p| - 1 {
          assert r[i] == p[i] && r[i + 1] == p[i + 1];
        }
      }
    }
  }

  /** A line feed between a single line and quiet text that starts with whitespace keeps it quiet. */
  lemma QuietLink(a: string, b: string)
    requires '\n' !in a && QuietBreaks(b) && SpaceStart(b)
    ensures QuietBreaks(a + "\n" + b)
  {
    var s := a + "\n" + b;
    assert forall i :: 0 <= i < |a| ==> s[i] == a[i];
    forall i | 0 <= i < |s| - 1 && s[i] == '\n'
      ensures IsSpace(s[i + 1]) || s[i + 1] == '.'
    {
      if i > |a| {
        assert s[i] == b[i - |a| - 1] && s[i + 1] == b[i - |a|];
      } else if i == |a| {
        assert s[i + 1] == b[0];
      }
    }
  }

  /** Continuation lines joined with line feeds give quiet text that starts with whitespace. */
  lemma {:induction false} QuietJoin(cont: seq<string>)
    requires forall k :: 0 <= k < |cont| ==> '\n' !in cont[k] && SpaceStart(cont[k])
    ensures QuietBreaks(Join(cont, "\n")) && SpaceStart(Join(cont, "\n"))
    decreases |cont|
  {
    if |cont| > 1 {
      QuietJoin(cont[1..]);
      QuietLink(cont[0], Join(cont[1..], "\n"));
      var j := Join(cont, "\n");
      assert j == cont[0] + "\n" + Join(cont[1..], "\n");
      if |cont[0]| > 0 {
        assert j[0] == cont[0][0];
      } else {
        assert j[0] == '\n';
      }
    } else if |cont| == 1 {
      assert Join(cont, "\n") == cont[0];
    }
  }

  lemma ContinuationSpaceStart(line: string)
    requires IsContinuation(line)
    ensures SpaceStart(line)
  {
    if |line| > 0 && !("  " <= line) {
      BlankStartsWithSpace(line);
    }
  }

  /** The value of a folded field, before and after shortening, is quiet. */
  lemma QuietValue(line: string, cont: seq<string>)
    requires '\n' !in line
    requires forall k :: 0 <= k < |cont| ==> '\n' !in cont[k] && IsContinuation(cont[k])
    ensures QuietBreaks(Shorten(FullValue(line, cont)))
  {
    var t0 := Trim(AfterColon(line));
    assert '\n' !in t0 by {
      var ac := AfterColon(line);
      assert forall i :: 0 <= i < |ac| ==> ac[i] in line;
      var t := ac[LeadingSpaces(ac)..];
      assert forall i :: 0 <= i < |t0| ==> t0[i] == t[i] && t[i] == ac[LeadingSpaces(ac) + i];
    }
    forall k | 0 <= k < |cont|
      ensures SpaceStart(cont[k])
    {
      ContinuationSpaceStart(cont[k]);
    }
    var ps := [t0] + cont;
    var j := Join(ps, "\n");
    if |cont| == 0 {
      assert j == t0;
    } else {
      QuietJoin(cont);
      assert ps[1..] == cont;
      assert j == t0 + "\n" + Join(cont, "\n");
      QuietLink(t0, Join(cont, "\n"));
    }
    QuietTrim(j);
    QuietShorten(FullValue(line, cont));
  }

  /** No piece after the first of a quiet text starts with anything but whitespace or a `.`. */
  lemma {:induction false} QuietPieces(s: string)
    requires QuietBreaks(s)
    ensures forall j :: 1 <= j < |Split(s, '\n')| ==> Split(s, '\n')[j] != Delimiter
    decreases |s|
  {
    if |s| > 0 {
      QuietSlice(s, 1, |s|);
      QuietPieces(s[1..]);
      var rest := Split(s[1..], '\n');
      if s[0] == '\n' {
        SplitFirstPrefix(s[1..], '\n');
        assert |rest[0]| == 0 || rest[0][0] == s[1];
        assert rest[0] != Delimiter;
      }
    }
  }

  /**
   A folded `description:` or `excerpt:` line, even one that keeps line feeds from its
   continuation lines, never holds a physical line that reads as `---`.
   */
  lemma FoldedLineNoDelimiter(line: string, cont: seq<string>)
    requires '\n' !in line
    requires forall k :: 0 <= k < |cont| ==> '\n' !in cont[k] && IsContinuation(cont[k])
    ensures var pieces := Split(FoldRewrite(line, cont).lines[0], '\n');
      forall j :: 0 <= j < |pieces| ==> pieces[j] != Delimiter
  {
    var key := KeyOf(line);
    var w := Shorten(FullValue(line, cont));
    var a := key + ": ";
    assert '\n' !in a by {
      assert forall i :: 0 <= i < |key| ==> key[i] == line[i];
    }
    QuietValue(line, cont);
    QuietLink2(a, w);
    var out := FoldRewrite(line, cont).lines[0];
    assert out == a + w;
    QuietPieces(out);
    SplitKeepsHead(a, w, '\n');
    var p0 := Split(out, '\n')[0];
    assert p0[|key|] == ':';
    assert p0 != Delimiter;
  }

  /** Single-line text ahead of quiet text keeps it quiet. */
  lemma QuietLink2(a: string, w: string)
    requires '\n' !in a && QuietBreaks(w)
    ensures QuietBreaks(a + w)
  {
    var s := a + w;
    assert forall i :: 0 <= i < |a| ==> s[i] == a[i];
    forall i | 0 <= i < |s| - 1 && s[i] == '\n'
      ensures IsSpace(s[i + 1]) || s[i + 1] == '.'
    {
      if i >= |a| {
        assert s[i] == w[i - |a|] && s[i + 1] == w[i - |a| + 1];
      }
    }
  }

  // ---------------------------------------------------------------------------------------
  // The header pass
  // ---------------------------------------------------------------------------------------

  /**
   The script loops forever on a `tags:` line that is neither an inline array nor a bare key
   (it never advances); such headers are excluded.
   */
  predicate TagsLinesTerminate(ls: seq<string>) {
    forall k :: 0 <= k < |ls| ==> LineTerminates(ls[k])
  }

  /** A line on which one turn of the loop moves on: no `tags:` line, an inline array or a bare key. */
  predicate LineTerminates(line: string) {
    TagsKey <= line ==> IsInline(line) || IsBare(line)
  }

  /**
   How many lines one turn of the script's header loop moves past a `tags:` line, as written:
   the line and its block items after an inline array or a bare key, and nothing at all after
   any other `tags:` line, so that the same turn repeats for ever.
   */
  function TagsAdvance(ls: seq<string>): (n: nat)
    requires |ls| > 0 && TagsKey <= ls[0]
    ensures n <= |ls|
  {
    if IsInline(ls[0]) || IsBare(ls[0]) then 1 + ItemRun(ls[1..]) else 0
  }

  /** A header line `tags: c` (a scalar value) does not move the loop on: the script hangs. */
  lemma TagsScalarStalls(c: char, rest: seq<string>)
    requires IsWordChar(c)
    ensures TagsKey <= TagsKey + [' ', c]
    ensures TagsAdvance([TagsKey + [' ', c]] + rest) == 0
  {
    var line := TagsKey + [' ', c];
    var ls := [line] + rest;
    assert ls[0] == line;
    assert line[..|TagsKey|] == TagsKey;
    assert !IsInline(line) by {
      assert forall k :: 0 <= k < |line| ==> line[k] != '[';
    }
    assert !IsBare(line) by {
      assert line[0] == 't' && line[|line| - 1] == c;
      TrimTrimmed(line);
    }
  }

  /**
   On the headers where the script terminates, its loop moves exactly as `HeadLength` does;
   `HeadLength` moves at least one line on every header.
   */
  lemma TagsAdvanceAgrees(ls: seq<string>)
    requires |ls| > 0 && TagsKey <= ls[0]
    ensures TagsLinesTerminate(ls) ==> TagsAdvance(ls) == HeadLength(ls) >= 1
    ensures !TagsLinesTerminate(ls[..1]) <==> TagsAdvance(ls) == 0
  {
    assert ls[..1][0] == ls[0];
  }

  /** A line neither tags nor folded: copied as it is. */
  predicate IsPlain(line: string) {
    !(TagsKey <= line) && !IsSummaryField(line)
  }

  /** Number of lines the first line of a header takes with it, itself included. */
  function HeadLength(ls: seq<string>): (n: nat)
    requires |ls| > 0
    ensures 1 <= n <= |ls|
  {
    if TagsKey <= ls[0] then 1 + ItemRun(ls[1..])
    else if IsSummaryField(ls[0]) then 1 + ContinuationRun(ls[1..])
    else 1
  }

  /**
   What the first line and the lines it takes become: a `tags:` line and its block items give
   the tag block, a description or excerpt and its continuation lines give one folded line, and
   any other line is copied.
   */
  function HeadRewrite(ls: seq<string>, parse: string -> Option<seq<string>>): Rewrite
    requires |ls| > 0
  {
    var n := HeadLength(ls);
    if TagsKey <= ls[0] then TagsRewrite(CollectedTags(ls[0], ls[1..n], parse))
    else if IsSummaryField(ls[0]) then FoldRewrite(ls[0], ls[1..n])
    else Rewrite([ls[0]], [])
  }

  lemma TerminatePlain(pre: seq<string>, rest: seq<string>)
    requires forall k :: 0 <= k < |pre| ==> IsPlain(pre[k])
    requires TagsLinesTerminate(rest)
    ensures TagsLinesTerminate(pre + rest)
  {
    assert forall k :: 0 <= k < |pre| ==> (pre + rest)[k] == pre[k];
    assert forall k :: |pre| <= k < |pre + rest| ==> (pre + rest)[k] == rest[k - |pre|];
  }

  lemma TerminateSuffix(ls: seq<string>, n: nat)
    requires n <= |ls| && TagsLinesTerminate(ls)
    ensures TagsLinesTerminate(ls[n..])
  {
    assert forall k :: 0 <= k < |ls| - n ==> ls[n..][k] == ls[n + k];
  }

  /** The header pass, one head segment at a time. */
  function Normalize(ls: seq<string>, parse: string -> Option<seq<string>>): (r: Rewrite)
    requires TagsLinesTerminate(ls)
    ensures |ls| == 0 ==> r == Rewrite([], [])
    decreases |ls|
  {
    if |ls| == 0 then Rewrite([], [])
    else
      TerminateSuffix(ls, HeadLength(ls));
      Then(HeadRewrite(ls, parse), Normalize(ls[HeadLength(ls)..], parse))
  }

  lemma NormalizeUnfold(ls: seq<string>, parse: string -> Option<seq<string>>)
    requires |ls| > 0 && TagsLinesTerminate(ls)
    ensures TagsLinesTerminate(ls[HeadLength(ls)..])
    ensures Normalize(ls, parse) == Then(HeadRewrite(ls, parse), Normalize(ls[HeadLength(ls)..], parse))
  {
  }

  lemma HeadPlain(ls: seq<string>, parse: string -> Option<seq<string>>)
    requires |ls| > 0 && IsPlain(ls[0])
    ensures HeadLength(ls) == 1 && HeadRewrite(ls, parse) == Rewrite([ls[0]], [])
  {
  }

  lemma PlainStep(ls: seq<string>, parse: string -> Option<seq<string>>)
    requires |ls| > 0 && IsPlain(ls[0]) && TagsLinesTerminate(ls)
    ensures TagsLinesTerminate(ls[1..])
    ensures Normalize(ls, parse) == Then(Rewrite([ls[0]], []), Normalize(ls[1..], parse))
  {
    HeadPlain(ls, parse);
    NormalizeUnfold(ls, parse);
  }

  lemma PlainStepAt(pre: seq<string>, rest: seq<string>, parse: string -> Option<seq<string>>)
    requires |pre| > 0 && IsPlain(pre[0])
    requires TagsLinesTerminate(pre + rest) && TagsLinesTerminate(pre[1..] + rest)
    ensures Normalize(pre + rest, parse) == Then(Rewrite([pre[0]], []), Normalize(pre[1..] + rest, parse))
  {
    PlainStep(pre + rest, parse);
    assert (pre + rest)[1..] == pre[1..] + rest;
  }

  lemma ThenCons(pre: seq<string>, a: Rewrite, b: Rewrite, c: Rewrite)
    requires |pre| > 0
    requires a == Then(Rewrite([pre[0]], []), b)
    requires b == Then(Rewrite(pre[1..], []), c)
    ensures a == Then(Rewrite(pre, []), c)
  {
    assert [pre[0]] + (pre[1..] + c.lines) == pre + c.lines;
  }

  /** Plain lines ahead of the rest are copied unchanged, in order, with no change entry. */
  lemma {:induction false} NormalizePlainPrefix(pre: seq<string>, rest: seq<string>, parse: string -> Option<seq<string>>)
    requires forall k :: 0 <= k < |pre| ==> IsPlain(pre[k])
    requires TagsLinesTerminate(rest)
    ensures TagsLinesTerminate(pre + rest)
    ensures Normalize(pre + rest, parse) == Then(Rewrite(pre, []), Normalize(rest, parse))
    decreases |pre|
  {
    TerminatePlain(pre, rest);
    if |pre| > 0 {
      TerminatePlain(pre[1..], rest);
      NormalizePlainPrefix(pre[1..], rest, parse);
      PlainStepAt(pre, rest, parse);
      ThenCons(pre, Normalize(pre + rest, parse), Normalize(pre[1..] + rest, parse), Normalize(rest, parse));
    } else {
      assert pre + rest == rest;
    }
  }

  /** A header of plain lines only comes out unchanged. */
  lemma NormalizePlain(ls: seq<string>, parse: string -> Option<seq<string>>)
    requires forall k :: 0 <= k < |ls| ==> IsPlain(ls[k])
    ensures TagsLinesTerminate(ls)
    ensures Normalize(ls, parse) == Rewrite(ls, [])
  {
    NormalizePlainPrefix(ls, [], parse);
    assert ls + [] == ls;
  }

  lemma {:induction false} ItemRunAppend(items: seq<string>, rest: seq<string>)
    requires forall k :: 0 <= k < |items| ==> IsItem(items[k])
    requires |rest| == 0 || !IsItem(rest[0])
    ensures ItemRun(items + rest) == |items|
    decreases |items|
  {
    if |items| > 0 {
      assert (items + rest)[1..] == items[1..] + rest;
      ItemRunAppend(items[1..], rest);
    } else {
      assert items + rest == rest;
    }
  }

  lemma BareKey()
    ensures IsBare(TagsKey) && !IsInline(TagsKey)
  {
    TrimTrimmed(TagsKey);
  }

  lemma HeadTags(ls: seq<string>, parse: string -> Option<seq<string>>)
    requires |ls| > 0 && TagsKey <= ls[0]
    ensures HeadLength(ls) == 1 + ItemRun(ls[1..])
    ensures HeadRewrite(ls, parse) == TagsRewrite(CollectedTags(ls[0], ls[1..HeadLength(ls)], parse))
  {
  }

  lemma BlockItems(tags: seq<string>)
    requires |tags| > 0
    ensures forall k :: 0 <= k < |TagBlock(tags)[1..]| ==> IsItem(TagBlock(tags)[1..][k])
  {
    var items := TagBlock(tags)[1..];
    assert forall k :: 0 <= k < |items| ==> items[k] == "  - " + tags[k];
  }

  lemma BlockLength(tags: seq<string>, rest: seq<string>)
    requires |tags| > 0
    requires |rest| == 0 || !IsItem(rest[0])
    ensures TagsKey <= (TagBlock(tags) + rest)[0]
    ensures ItemRun((TagBlock(tags) + rest)[1..]) == |tags|
    ensures (TagBlock(tags) + rest)[1..1 + |tags|] == TagBlock(tags)[1..]
    ensures (TagBlock(tags) + rest)[1 + |tags|..] == rest
  {
    var block := TagBlock(tags);
    var ls := block + rest;
    assert |block| == 1 + |tags| && ls[0] == block[0];
    assert ls[1..] == block[1..] + rest;
    assert ls[1..1 + |tags|] == block[1..];
    assert ls[1 + |tags|..] == rest;
    BlockItems(tags);
    ItemRunAppend(block[1..], rest);
  }

  /** A written tag block is one head segment that is written back as it stands. */
  lemma BlockHead(tags: seq<string>, rest: seq<string>, parse: string -> Option<seq<string>>)
    requires |tags| > 0
    requires forall k :: 0 <= k < |tags| ==> IsTrimmed(tags[k])
    requires |rest| == 0 || !IsItem(rest[0])
    ensures HeadLength(TagBlock(tags) + rest) == 1 + |tags|
    ensures (TagBlock(tags) + rest)[1 + |tags|..] == rest
    ensures HeadRewrite(TagBlock(tags) + rest, parse) == Rewrite(TagBlock(tags), [TagsToBlock])
  {
    var ls := TagBlock(tags) + rest;
    BlockLength(tags, rest);
    HeadTags(ls, parse);
    BlockTags(tags, parse);
  }

  lemma BlockTags(tags: seq<string>, parse: string -> Option<seq<string>>)
    requires |tags| > 0
    requires forall k :: 0 <= k < |tags| ==> IsTrimmed(tags[k])
    ensures TagsRewrite(CollectedTags(TagBlock(tags)[0], TagBlock(tags)[1..], parse)) == Rewrite(TagBlock(tags), [TagsToBlock])
  {
    TagBlockItems(tags);
    BareKey();
  }

  lemma TerminateBlock(tags: seq<string>, rest: seq<string>)
    requires |tags| > 0
    requires |rest| == 0 || !IsItem(rest[0])
    requires TagsLinesTerminate(rest)
    ensures TagsLinesTerminate(TagBlock(tags) + rest)
  {
    TerminateTagBlock(tags);
    TerminateConcat(TagBlock(tags), rest);
  }

  /** A written tag block is a bare key followed by plain item lines. */
  lemma TerminateTagBlock(tags: seq<string>)
    requires |tags| > 0
    ensures TagsLinesTerminate(TagBlock(tags))
  {
    var block := TagBlock(tags);
    forall k | 0 <= k < |block|
      ensures LineTerminates(block[k])
    {
      if k == 0 {
        BareKey();
      } else {
        assert block[k] == "  - " + tags[k - 1];
        assert block[k][0] == ' ';
      }
    }
  }

  lemma TerminateConcat(a: seq<string>, b: seq<string>)
    requires TagsLinesTerminate(a) && TagsLinesTerminate(b)
    ensures TagsLinesTerminate(a + b)
  {
    forall k | 0 <= k < |a + b|
      ensures LineTerminates((a + b)[k])
    {
      if k < |a| {
        assert (a + b)[k] == a[k];
      } else {
        assert (a + b)[k] == b[k - |a|];
      }
    }
  }

  /**
   Tags already in block style are written back as they stand; the script still records a
   "standardized" change for them.
   */
  lemma BlockTagsKept(tags: seq<string>, rest: seq<string>, parse: string -> Option<seq<string>>)
    requires |tags| > 0
    requires forall k :: 0 <= k < |tags| ==> IsTrimmed(tags[k])
    requires |rest| == 0 || !IsItem(rest[0])
    requires TagsLinesTerminate(rest)
    ensures TagsLinesTerminate(TagBlock(tags) + rest)
    ensures Normalize(TagBlock(tags) + rest, parse)
         == Then(Rewrite(TagBlock(tags), [TagsToBlock]), Normalize(rest, parse))
  {
    TerminateBlock(tags, rest);
    BlockHead(tags, rest, parse);
    NormalizeUnfold(TagBlock(tags) + rest, parse);
  }

  lemma EmptyHead(line: string, rest: seq<string>, parse: string -> Option<seq<string>>)
    requires TagsKey <= line && IsBare(line) && !IsInline(line)
    requires |rest| == 0 || !IsItem(rest[0])
    ensures HeadLength([line] + rest) == 1
    ensures ([line] + rest)[1..] == rest
    ensures HeadRewrite([line] + rest, parse) == Rewrite([], [])
  {
    var ls := [line] + rest;
    assert ls[1..] == rest;
    HeadTags(ls, parse);
    assert ls[1..1] == [];
  }

  /** A bare `tags:` with no items is dropped from the header, without a change entry. */
  lemma EmptyTagsDropped(line: string, rest: seq<string>, parse: string -> Option<seq<string>>)
    requires TagsKey <= line && IsBare(line) && !IsInline(line)
    requires |rest| == 0 || !IsItem(rest[0])
    requires TagsLinesTerminate(rest)
    ensures TagsLinesTerminate([line] + rest)
    ensures Normalize([line] + rest, parse) == Normalize(rest, parse)
  {
    TerminateCons(line, rest);
    EmptyHead(line, rest, parse);
    SkipHead([line] + rest, parse);
  }

  lemma TerminateCons(line: string, rest: seq<string>)
    requires TagsKey <= line ==> IsInline(line) || IsBare(line)
    requires TagsLinesTerminate(rest)
    ensures TagsLinesTerminate([line] + rest)
  {
    var ls := [line] + rest;
    assert forall k :: 1 <= k < |ls| ==> ls[k] == rest[k - 1];
  }

  /** A head segment that writes nothing leaves the pass to the rest. */
  lemma SkipHead(ls: seq<string>, parse: string -> Option<seq<string>>)
    requires |ls| > 0 && TagsLinesTerminate(ls)
    requires HeadRewrite(ls, parse) == Rewrite([], [])
    ensures TagsLinesTerminate(ls[HeadLength(ls)..])
    ensures Normalize(ls, parse) == Normalize(ls[HeadLength(ls)..], parse)
  {
    NormalizeUnfold(ls, parse);
    ThenEmpty(Normalize(ls, parse), Normalize(ls[HeadLength(ls)..], parse));
  }

  lemma ThenEmpty(a: Rewrite, b: Rewrite)
    requires a == Then(Rewrite([], []), b)
    ensures a == b
  {
    assert [] + b.lines == b.lines && [] + b.changes == b.changes;
  }

  // ---------------------------------------------------------------------------------------
  // The file
  // ---------------------------------------------------------------------------------------

  /** What the script writes and the changes it reports. */
  datatype Outcome = Outcome(content: string, changes: seq<Change>)

  /** Headers on which the script terminates. */
  predicate Normalizable(content: string) {
    var lines := SplitLines(content);
    FindHeader(lines).None? || TagsLinesTerminate(HeaderLines(lines, FindHeader(lines).value))
  }

  /**
   One file: no header means nothing is written and no change is reported; otherwise the
   normalised header is written between two `---` lines, followed by the body.
   */
  function FixFrontmatter(content: string, parse: string -> Option<seq<string>>): (r: Option<Outcome>)
    requires Normalizable(content)
    ensures r.None? <==> CountDelimiters(SplitLines(content)) < 2
    ensures r.Some? ==> "---\n" <= r.value.content
  {
    var lines := SplitLines(content);
    match FindHeader(lines)
    case None => None
    case Some(sp) =>
      var rw := Normalize(HeaderLines(lines, sp), parse);
      Some(Outcome(Reassemble(rw.lines, BodyLines(lines, sp)), rw.changes))
  }

  lemma FixFrontmatterParts(content: string, parse: string -> Option<seq<string>>)
    requires Normalizable(content)
    requires FindHeader(SplitLines(content)).Some?
    ensures var lines := SplitLines(content);
      var sp := FindHeader(lines).value;
      var rw := Normalize(HeaderLines(lines, sp), parse);
      FixFrontmatter(content, parse) == Some(Outcome(Reassemble(rw.lines, BodyLines(lines, sp)), rw.changes))
  {
  }

  /** Text whose header, read back with the two-delimiter search, is `hdr` at the top and whose body is `body`. */
  predicate ReadsBackAs(written: string, hdr: seq<string>, body: seq<string>) {
    var again := SplitLines(written);
    var sp := Span(0, |hdr| + 1);
    && FindHeader(again) == Some(sp)
    && HeaderLines(again, sp) == hdr
    && BodyLines(again, sp) == body
  }

  /**
   Reading the written file again gives the physical lines of the normalised header and the old
   body. A folded summary may take several physical lines; it is enough that none of them is
   `---` or ends in a carriage return (`FoldedLineNoDelimiter` shows the first for every folded
   line), and that no body line but the last ends in one.
   */
  lemma FixFrontmatterReread(content: string, parse: string -> Option<seq<string>>)
    requires Normalizable(content)
    requires FindHeader(SplitLines(content)).Some?
    requires var lines := SplitLines(content);
      var ph := PhysicalLines(Normalize(HeaderLines(lines, FindHeader(lines).value), parse).lines);
      forall j :: 0 <= j < |ph| ==> ph[j] != Delimiter && DropCR(ph[j]) == ph[j]
    requires var lines := SplitLines(content);
      var body := BodyLines(lines, FindHeader(lines).value);
      forall i :: 0 <= i < |body| - 1 ==> DropCR(body[i]) == body[i]
    ensures var lines := SplitLines(content);
      var sp := FindHeader(lines).value;
      var out := Normalize(HeaderLines(lines, sp), parse).lines;
      ReadsBackAs(FixFrontmatter(content, parse).value.content, PhysicalLines(out), JoinedLines(BodyLines(lines, sp)))
  {
    var lines := SplitLines(content);
    var sp := FindHeader(lines).value;
    var out := Normalize(HeaderLines(lines, sp), parse).lines;
    FixFrontmatterParts(content, parse);
    RereadWritten(lines, sp, out, FixFrontmatter(content, parse).value.content);
  }

  /** Text written as `out` around the body of `lines` reads back as the physical lines of `out` and that body. */
  lemma RereadWritten(lines: seq<string>, sp: Span, out: seq<string>, written: string)
    requires ValidSpan(lines, sp)
    requires forall i :: 0 <= i < |lines| ==> '\n' !in lines[i]
    requires var ph := PhysicalLines(out);
      forall j :: 0 <= j < |ph| ==> ph[j] != Delimiter && DropCR(ph[j]) == ph[j]
    requires var body := BodyLines(lines, sp);
      forall i :: 0 <= i < |body| - 1 ==> DropCR(body[i]) == body[i]
    requires written == Reassemble(out, BodyLines(lines, sp))
    ensures ReadsBackAs(written, PhysicalLines(out), JoinedLines(BodyLines(lines, sp)))
  {
    BodyNoNewline(lines, sp);
    RereadPhysical(out, BodyLines(lines, sp));
  }
}
