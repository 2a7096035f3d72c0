/**
 update-frontmatter.js: default fields appended to a post's header when they are missing. A
 field counts as present when its `key:` occurs anywhere in the header text, not only at the
 start of a line. The file name, its directory and the clock are parameters.
 */
module UpdateFrontmatter {
  import opened Wrappers
  import opened Text
  import opened FrontMatter

  /** A field the script adds when its key occurs nowhere in the header text. */
  datatype Field = Field(key: string, line: string)

  /**
   What the script takes from outside the file: the file name without its extension, the name
   of the directory holding the file, and the time of the run as an ISO string.
   */
  datatype Context = Context(stem: string, category: string, now: string)

  /** The keys tested, in the order their additions are made. */
  const FieldKeys := ["title:", "tags:", "category:", "description:", "pubDate:", "draft:", "excerpt:"]

  /** The default description, and the default excerpt with it. */
  function DefaultDescription(stem: string): string
  {
    "A post about " + stem
  }

  /** A value that stays on one line and carries no carriage return. */
  predicate OneLine(s: string)
  {
    '\n' !in s && '\r' !in s
  }

  /** A field whose line starts with its key and is one plain line other than a delimiter. */
  predicate WellFormed(f: Field)
  {
    f.key <= f.line && OneLine(f.line) && f.line != Delimiter
  }

  /** The field for `key`, its line the key followed by `rest`. */
  function Keyed(key: string, rest: string): (f: Field)
    ensures f.key <= f.line
  {
    Field(key, key + rest)
  }

  /** The seven defaults, each keyed as `FieldKeys` orders them. */
  function Fields(c: Context): (fs: seq<Field>)
    ensures |fs| == |FieldKeys|
    ensures forall k :: 0 <= k < |fs| ==> fs[k].key == FieldKeys[k]
  {
    [ Keyed(FieldKeys[0], " " + c.stem),
      Keyed(FieldKeys[1], " []"),
      Keyed(FieldKeys[2], " " + c.category),
      Keyed(FieldKeys[3], " \"" + DefaultDescription(c.stem) + "\""),
      Keyed(FieldKeys[4], " " + c.now),
      Keyed(FieldKeys[5], " false"),
      Keyed(FieldKeys[6], " \"" + DefaultDescription(c.stem) + "\"") ]
  }

  lemma KeyedLine(key: string, rest: string)
    requires OneLine(key) && OneLine(rest) && |key| > 3 && key[0] != '-'
    ensures WellFormed(Keyed(key, rest))
  {
    assert (key + rest)[0] == key[0];
  }

  lemma OneLineQuoted(d: string)
    requires OneLine(d)
    ensures OneLine(" \"" + d + "\"")
  {
  }

  /** Every key is one plain line that cannot start a list item. */
  lemma KeysPlain()
    ensures forall k :: 0 <= k < |FieldKeys| ==>
      OneLine(FieldKeys[k]) && |FieldKeys[k]| > 3 && FieldKeys[k][0] != '-'
  {
  }

  /** With one-line outside values every default is well formed. */
  lemma FieldsWellFormed(c: Context)
    requires OneLine(c.stem) && OneLine(c.category) && OneLine(c.now)
    ensures forall f :: f in Fields(c) ==> WellFormed(f)
  {
    KeysPlain();
    var d := DefaultDescription(c.stem);
    OneLineQuoted(d);
    assert OneLine(" " + c.stem) && OneLine(" " + c.category) && OneLine(" " + c.now);
    assert OneLine(" []") && OneLine(" false");
    var f0 := Keyed(FieldKeys[0], " " + c.stem);
    var f1 := Keyed(FieldKeys[1], " []");
    var f2 := Keyed(FieldKeys[2], " " + c.category);
    var f3 := Keyed(FieldKeys[3], " \"" + d + "\"");
    var f4 := Keyed(FieldKeys[4], " " + c.now);
    var f5 := Keyed(FieldKeys[5], " false");
    var f6 := Keyed(FieldKeys[6], " \"" + d + "\"");
    KeyedLine(FieldKeys[0], " " + c.stem);
    KeyedLine(FieldKeys[1], " []");
    KeyedLine(FieldKeys[2], " " + c.category);
    KeyedLine(FieldKeys[3], " \"" + d + "\"");
    KeyedLine(FieldKeys[4], " " + c.now);
    KeyedLine(FieldKeys[5], " false");
    KeyedLine(FieldKeys[6], " \"" + d + "\"");
    AllWellFormed(Fields(c), [f0, f1, f2, f3, f4, f5, f6]);
  }

  lemma AllWellFormed(fs: seq<Field>, gs: seq<Field>)
    requires fs == gs
    requires forall k :: 0 <= k < |gs| ==> WellFormed(gs[k])
    ensures forall f :: f in fs ==> WellFormed(f)
  {
  }

  /** The lines of the fields whose key the header text lacks, in field order. */
  function Additions(text: string, fs: seq<Field>): (adds: seq<string>)
    ensures |adds| <= |fs|
    ensures |adds| == 0 <==> forall k :: 0 <= k < |fs| ==> Contains(text, fs[k].key)
    decreases |fs|
  {
    if |fs| == 0 then []
    else
      var rest := Additions(text, fs[1..]);
      assert forall k :: 1 <= k < |fs| ==> fs[k] == fs[1..][k - 1];
      if Contains(text, fs[0].key) then rest else [fs[0].line] + rest
  }

  /** The additions are exactly the lines of the fields whose key is missing. */
  lemma {:induction false} AdditionsMembers(text: string, fs: seq<Field>)
    ensures forall k :: 0 <= k < |fs| && !Contains(text, fs[k].key) ==> fs[k].line in Additions(text, fs)
    ensures forall j :: 0 <= j < |Additions(text, fs)| ==>
      exists k :: 0 <= k < |fs| && Additions(text, fs)[j] == fs[k].line && !Contains(text, fs[k].key)
    decreases |fs|
  {
    if |fs| > 0 {
      AdditionsMembers(text, fs[1..]);
      assert forall k :: 1 <= k < |fs| ==> fs[k] == fs[1..][k - 1];
      var rest := Additions(text, fs[1..]);
      var adds := Additions(text, fs);
      var skip := if Contains(text, fs[0].key) then 0 else 1;
      assert adds == (if skip == 0 then rest else [fs[0].line] + rest);
      forall j | 0 <= j < |adds|
        ensures exists k :: 0 <= k < |fs| && adds[j] == fs[k].line && !Contains(text, fs[k].key)
      {
        if j < skip {
          assert adds[j] == fs[0].line && !Contains(text, fs[0].key);
        } else {
          assert adds[j] == rest[j - skip];
          var k :| 0 <= k < |fs[1..]| && rest[j - skip] == fs[1..][k].line && !Contains(text, fs[1..][k].key);
          assert fs[1..][k] == fs[k + 1];
        }
      }
    } else {
      assert Additions(text, fs) == [];
    }
  }

  /** A header that mentions none of the keys gains every field, in order. */
  lemma {:induction false} AdditionsAll(text: string, fs: seq<Field>)
    requires forall k :: 0 <= k < |fs| ==> !Contains(text, fs[k].key)
    ensures |Additions(text, fs)| == |fs|
    ensures forall k :: 0 <= k < |fs| ==> Additions(text, fs)[k] == fs[k].line
    decreases |fs|
  {
    if |fs| > 0 {
      assert forall k :: 1 <= k < |fs| ==> fs[k] == fs[1..][k - 1];
      AdditionsAll(text, fs[1..]);
    }
  }

  /**
   One post with a given list of fields: None when it is skipped (no first-line `---`, or no
   closing `---`) or when every key is already present; otherwise the header with the additions
   just before the closing delimiter and the body after it, joined with `\n`.
   */
  function UpdateWith(content: string, fs: seq<Field>): (r: Option<string>)
    ensures FindClosing(SplitLines(content)).None? ==> r.None?
    ensures FindClosing(SplitLines(content)).Some? ==>
      var lines := SplitLines(content);
      var e := FindClosing(lines).value;
      (r.None? <==> forall k :: 0 <= k < |fs| ==> Contains(Join(lines[1..e], "\n"), fs[k].key))
    ensures r.Some? ==>
      var lines := SplitLines(content);
      var e := FindClosing(lines).value;
      var adds := Additions(Join(lines[1..e], "\n"), fs);
      r.value == Join(Rebuilt(lines[1..e] + adds, lines[e + 1..]), "\n")
  {
    var lines := SplitLines(content);
    match FindClosing(lines)
    case None => None
    case Some(e) =>
      var adds := Additions(Join(lines[1..e], "\n"), fs);
      if |adds| == 0 then None
      else Some(Join(Rebuilt(lines[1..e] + adds, lines[e + 1..]), "\n"))
  }

  /** The script's update: the defaults for this post, in their fixed order. */
  function UpdateFrontmatter(content: string, c: Context): (r: Option<string>)
    ensures FindClosing(SplitLines(content)).None? ==> r.None?
    ensures FindClosing(SplitLines(content)).Some? ==>
      var lines := SplitLines(content);
      var e := FindClosing(lines).value;
      (r.None? <==> forall k :: 0 <= k < |FieldKeys| ==> Contains(Join(lines[1..e], "\n"), FieldKeys[k]))
  {
    UpdateWith(content, Fields(c))
  }

  /** After the additions, the header text contains every key. */
  lemma AddedKeysPresent(hdr: seq<string>, fs: seq<Field>)
    requires forall k :: 0 <= k < |fs| ==> fs[k].key <= fs[k].line
    ensures var adds := Additions(Join(hdr, "\n"), fs);
      forall k :: 0 <= k < |fs| ==> Contains(Join(hdr + adds, "\n"), fs[k].key)
  {
    var adds := Additions(Join(hdr, "\n"), fs);
    AdditionsMembers(Join(hdr, "\n"), fs);
    JoinPrefix(hdr, adds, "\n");
    forall k | 0 <= k < |fs|
      ensures Contains(Join(hdr + adds, "\n"), fs[k].key)
    {
      if Contains(Join(hdr, "\n"), fs[k].key) {
        ContainsOfPrefix(Join(hdr, "\n"), Join(hdr + adds, "\n"), fs[k].key);
      } else {
        var j :| 0 <= j < |adds| && adds[j] == fs[k].line;
        assert (hdr + adds)[|hdr| + j] == fs[k].line;
        ContainsJoinElement(hdr + adds, "\n", |hdr| + j, fs[k].key);
      }
    }
  }

  /** Additions drawn from well-formed fields extend a plain header to a plain header. */
  lemma ExtendedHeader(hdr: seq<string>, text: string, fs: seq<Field>)
    requires PlainHeader(hdr)
    requires forall k :: 0 <= k < |fs| ==> WellFormed(fs[k])
    ensures PlainHeader(hdr + Additions(text, fs))
  {
    var adds := Additions(text, fs);
    AdditionsMembers(text, fs);
    forall j | 0 <= j < |adds|
      ensures adds[j] != Delimiter && '\n' !in adds[j] && DropCR(adds[j]) == adds[j]
    {
      var k :| 0 <= k < |fs| && adds[j] == fs[k].line;
      assert WellFormed(fs[k]);
      assert |adds[j]| > 0 ==> adds[j][|adds[j]| - 1] != '\r';
    }
  }

  /** Text whose lines are a framed header that already has every key is left alone. */
  lemma Reread(out: string, ls: seq<string>, h: seq<string>, fs: seq<Field>)
    requires SplitLines(out) == ls
    requires FindClosing(ls) == Some(|h| + 1)
    requires ls[1..|h| + 1] == h
    requires forall k :: 0 <= k < |fs| ==> Contains(Join(h, "\n"), fs[k].key)
    ensures UpdateWith(out, fs).None?
  {
    assert |Additions(Join(h, "\n"), fs)| == 0;
  }

  /**
   A second run with well-formed fields adds nothing: every addition carries its key, so the
   header now contains all of them. This holds when no line the post was read with ends in two
   carriage returns.
   */
  lemma UpdateWithTwice(content: string, fs: seq<Field>)
    requires UpdateWith(content, fs).Some?
    requires PlainLines(SplitLines(content))
    requires forall k :: 0 <= k < |fs| ==> WellFormed(fs[k])
    ensures UpdateWith(UpdateWith(content, fs).value, fs).None?
  {
    var lines := SplitLines(content);
    var e := FindClosing(lines).value;
    var h := lines[1..e] + Additions(Join(lines[1..e], "\n"), fs);
    ClosingParts(lines, e);
    ExtendedHeader(lines[1..e], Join(lines[1..e], "\n"), fs);
    FramedReadBack(h, lines[e + 1..]);
    AddedKeysPresent(lines[1..e], fs);
    Reread(UpdateWith(content, fs).value, Rebuilt(h, lines[e + 1..]), h, fs);
  }

  /** The script's second run adds nothing, when the outside values stay on one line. */
  lemma UpdateTwice(content: string, c: Context)
    requires UpdateFrontmatter(content, c).Some?
    requires PlainLines(SplitLines(content))
    requires OneLine(c.stem) && OneLine(c.category) && OneLine(c.now)
    ensures UpdateFrontmatter(UpdateFrontmatter(content, c).value, c).None?
  {
    FieldsWellFormed(c);
    var fs := Fields(c);
    assert forall k :: 0 <= k < |fs| ==> fs[k] in fs;
    UpdateWithTwice(content, fs);
  }
}
