/**
 update-tags.js: every post's tags become the directories it sits in. The path of the post
 relative to the posts directory and the platform's separator are parameters; the header is the
 run of lines after a first-line `---` up to the next `---`.
 */
module UpdateTags {
  import opened Wrappers
  import opened Text
  import opened FrontMatter

  /** `parts.filter(Boolean)` on strings: the non-empty ones, in order. */
  function NonEmpty(parts: seq<string>): (r: seq<string>)
    ensures |r| <= |parts|
    ensures forall k :: 0 <= k < |r| ==> |r[k]| > 0
    ensures forall x :: x in r <==> x in parts && |x| > 0
    decreases |parts|
  {
    if |parts| == 0 then []
    else if |parts[0]| == 0 then NonEmpty(parts[1..])
    else [parts[0]] + NonEmpty(parts[1..])
  }

  lemma {:induction false} NonEmptyKeeps(parts: seq<string>)
    requires forall k :: 0 <= k < |parts| ==> |parts[k]| > 0
    ensures NonEmpty(parts) == parts
    decreases |parts|
  {
    if |parts| > 0 {
      NonEmptyKeeps(parts[1..]);
    }
  }

  /** The tags of a post in directory `dir`: its path components, empty ones dropped. */
  function PathTags(dir: string, sep: char): (tags: seq<string>)
    ensures forall k :: 0 <= k < |tags| ==> |tags[k]| > 0 && sep !in tags[k]
    ensures forall x :: x in tags <==> x in Split(dir, sep) && |x| > 0
  {
    NonEmpty(Split(dir, sep))
  }

  /** Directories written with one separator between them give back exactly those directories. */
  lemma PathTagsOfJoin(dirs: seq<string>, sep: char)
    requires |dirs| >= 1
    requires forall k :: 0 <= k < |dirs| ==> |dirs[k]| > 0 && sep !in dirs[k]
    ensures PathTags(Join(dirs, [sep]), sep) == dirs
  {
    SplitJoin(dirs, sep);
    NonEmptyKeeps(dirs);
  }

  /**
   A post at the top of the posts directory has directory `.`, which is a non-empty component:
   it is tagged `.`.
   */
  lemma TopLevelPost(dir: string, sep: char)
    requires dir == "." && sep != '.'
    ensures PathTags(dir, sep) == ["."]
  {
    SplitNoSep(dir, sep);
  }

  function Quote(t: string): (q: string)
    ensures |q| == |t| + 2 && q[0] == '\'' && q[|q| - 1] == '\'' && q[1..|q| - 1] == t
  {
    "'" + t + "'"
  }

  function QuoteAll(tags: seq<string>): (r: seq<string>)
    ensures |r| == |tags|
    ensures forall k :: 0 <= k < |r| ==> r[k] == Quote(tags[k])
  {
    seq(|tags|, k requires 0 <= k < |tags| => Quote(tags[k]))
  }

  /** The inline tags line, each tag in single quotes, separated by `, `. */
  function TagsLine(tags: seq<string>): (line: string)
    ensures TagsKey <= line
    ensures line[|line| - 1] == ']'
    ensures line != Delimiter
  {
    var line := TagsKey + " [" + Join(QuoteAll(tags), ", ") + "]";
    assert line[0] == 't';
    line
  }

  /** Newline-free tags give a newline-free line. */
  lemma TagsLineOneLine(tags: seq<string>)
    requires forall k :: 0 <= k < |tags| ==> '\n' !in tags[k]
    ensures '\n' !in TagsLine(tags)
  {
    var q := QuoteAll(tags);
    JoinNoChar(q, ", ", '\n');
  }

  lemma {:induction false} JoinNoChar(parts: seq<string>, sep: string, c: char)
    requires c !in sep
    requires forall k :: 0 <= k < |parts| ==> c !in parts[k]
    ensures c !in Join(parts, sep)
    decreases |parts|
  {
    if |parts| > 1 {
      JoinNoChar(parts[1..], sep, c);
    }
  }

  /** The first header line starting with `tags:`, searching from `i`. */
  function FirstTagsFrom(hdr: seq<string>, i: nat): (r: Option<nat>)
    requires i <= |hdr|
    ensures r.Some? ==> i <= r.value < |hdr| && TagsKey <= hdr[r.value]
    ensures r.Some? ==> forall k :: i <= k < r.value ==> !(TagsKey <= hdr[k])
    ensures r.None? <==> forall k :: i <= k < |hdr| ==> !(TagsKey <= hdr[k])
    decreases |hdr| - i
  {
    if i == |hdr| then None
    else if TagsKey <= hdr[i] then Some(i)
    else FirstTagsFrom(hdr, i + 1)
  }

  /**
   The header with its tags set to `line`: the first `tags:` line is replaced, any later one is
   left alone, and a header without one gains `line` at its end.
   */
  function SetTags(hdr: seq<string>, line: string): (r: seq<string>)
    ensures (exists k :: 0 <= k < |hdr| && TagsKey <= hdr[k]) ==> |r| == |hdr|
    ensures (forall k :: 0 <= k < |hdr| ==> !(TagsKey <= hdr[k])) ==> r == hdr + [line]
    ensures FirstTagsFrom(hdr, 0).Some? ==> r == hdr[FirstTagsFrom(hdr, 0).value := line]
    ensures line in r
    ensures forall k :: 0 <= k < |hdr| && r[k] != hdr[k] ==>
      r[k] == line && TagsKey <= hdr[k] && forall j :: 0 <= j < k ==> !(TagsKey <= hdr[j])
  {
    match FirstTagsFrom(hdr, 0)
    case Some(k) =>
      var r := hdr[k := line];
      assert r[k] == line;
      r
    case None => hdr + [line]
  }

  /** Setting the same tags line twice is setting it once. */
  lemma SetTagsTwice(hdr: seq<string>, line: string)
    requires TagsKey <= line
    ensures SetTags(SetTags(hdr, line), line) == SetTags(hdr, line)
  {
    var once := SetTags(hdr, line);
    match FirstTagsFrom(hdr, 0)
    case Some(k) =>
      assert FirstTagsFrom(once, 0) == Some(k);
    case None =>
      assert FirstTagsFrom(once, 0) == Some(|hdr|);
  }

  /** The text written for a post whose lines are `lines`, with its closing delimiter at `e`. */
  function Updated(lines: seq<string>, e: nat, dir: string, sep: char): string
    requires 1 <= e < |lines|
  {
    Join(Rebuilt(SetTags(lines[1..e], TagsLine(PathTags(dir, sep))), lines[e + 1..]), "\n")
  }

  /**
   One post: None when the first line is not `---` or no closing `---` follows (the post is
   skipped), otherwise the new text, joined with `\n` whatever terminators it was read with.
   */
  function UpdateTags(content: string, dir: string, sep: char): (r: Option<string>)
    ensures r.None? <==> FindClosing(SplitLines(content)).None?
    ensures r.Some? ==> r.value == Updated(SplitLines(content), FindClosing(SplitLines(content)).value, dir, sep)
  {
    var lines := SplitLines(content);
    match FindClosing(lines)
    case None => None
    case Some(e) => Some(Updated(lines, e, dir, sep))
  }

  /** Setting a plain tags line keeps a plain header plain. */
  lemma SetTagsPlain(hdr: seq<string>, line: string)
    requires PlainHeader(hdr)
    requires '\n' !in line && DropCR(line) == line && line != Delimiter
    ensures PlainHeader(SetTags(hdr, line))
  {
  }

  /** A text that splits into delimited lines whose header already carries the tags line. */
  lemma UpdateSettled(out: string, hdr: seq<string>, body: seq<string>, dir: string, sep: char)
    requires SplitLines(out) == Rebuilt(hdr, body)
    requires out == Join(Rebuilt(hdr, body), "\n")
    requires FindClosing(Rebuilt(hdr, body)) == Some(|hdr| + 1)
    requires Rebuilt(hdr, body)[1..|hdr| + 1] == hdr
    requires Rebuilt(hdr, body)[|hdr| + 2..] == body
    requires SetTags(hdr, TagsLine(PathTags(dir, sep))) == hdr
    ensures UpdateTags(out, dir, sep) == Some(out)
  {
  }

  /** A post whose header already carries the tags line comes out as it went in. */
  lemma UpdateRebuilt(hdr: seq<string>, body: seq<string>, dir: string, sep: char)
    requires PlainHeader(hdr)
    requires PlainLines(body)
    requires SetTags(hdr, TagsLine(PathTags(dir, sep))) == hdr
    ensures UpdateTags(Join(Rebuilt(hdr, body), "\n"), dir, sep) == Some(Join(Rebuilt(hdr, body), "\n"))
  {
    FramedReadBack(hdr, body);
    UpdateSettled(Join(Rebuilt(hdr, body), "\n"), hdr, body, dir, sep);
  }

  /** The text written for a post's lines is a fixed point of the update. */
  lemma SettledOnLines(lines: seq<string>, e: nat, dir: string, sep: char)
    requires PlainLines(lines)
    requires FindClosing(lines) == Some(e)
    requires forall k :: 0 <= k < |PathTags(dir, sep)| ==> '\n' !in PathTags(dir, sep)[k]
    ensures UpdateTags(Updated(lines, e, dir, sep), dir, sep) == Some(Updated(lines, e, dir, sep))
  {
    var line := TagsLine(PathTags(dir, sep));
    TagsLineOneLine(PathTags(dir, sep));
    ClosingParts(lines, e);
    SetTagsPlain(lines[1..e], line);
    SetTagsTwice(lines[1..e], line);
    UpdateRebuilt(SetTags(lines[1..e], line), lines[e + 1..], dir, sep);
  }

  /**
   Running the update again with the same directory changes nothing, when no line the post was
   read with ends in two carriage returns.
   */
  lemma UpdateTagsTwice(content: string, dir: string, sep: char)
    requires UpdateTags(content, dir, sep).Some?
    requires PlainLines(SplitLines(content))
    requires forall k :: 0 <= k < |PathTags(dir, sep)| ==> '\n' !in PathTags(dir, sep)[k]
    ensures UpdateTags(UpdateTags(content, dir, sep).value, dir, sep) == UpdateTags(content, dir, sep)
  {
    var lines := SplitLines(content);
    SettledOnLines(lines, FindClosing(lines).value, dir, sep);
  }
}
