/**
 The JavaScript string operations the scripts rely on, as pure functions over `string`
 (`seq<char>`): the `\s` and `\w` regex classes, `trim`, `split`, `join`, `split(/\r?\n/)`,
 `includes`, `startsWith` (written `p <= s`, Dafny's prefix test), ASCII lower-casing and
 `replace(/\s+/g, ' ')`.
 */
module Text {

  /** JavaScript's `\s` class. `String.prototype.trim` strips exactly the same characters. */
  predicate IsSpace(c: char) {
    || c == ' ' || c == '\t' || c == '\n' || c == '\r' || c == '\U{000B}' || c == '\U{000C}'
    || c == '\U{00A0}' || c == '\U{1680}' || ('\U{2000}' <= c <= '\U{200A}')
    || c == '\U{2028}' || c == '\U{2029}' || c == '\U{202F}' || c == '\U{205F}'
    || c == '\U{3000}' || c == '\U{FEFF}'
  }

  /** JavaScript's `\w` class: ASCII letters, ASCII digits and `_`. */
  predicate IsWordChar(c: char) {
    ('a' <= c <= 'z') || ('A' <= c <= 'Z') || ('0' <= c <= '9') || c == '_'
  }

  predicate AllSpace(s: string) {
    forall i :: 0 <= i < |s| ==> IsSpace(s[i])
  }

  /** Length of the longest all-whitespace prefix. */
  function LeadingSpaces(s: string): (n: nat)
    ensures n <= |s|
    ensures forall i :: 0 <= i < n ==> IsSpace(s[i])
    ensures n < |s| ==> !IsSpace(s[n])
  {
    if |s| > 0 && IsSpace(s[0]) then 1 + LeadingSpaces(s[1..]) else 0
  }

  /** Length of the longest all-whitespace suffix. */
  function TrailingSpaces(s: string): (n: nat)
    ensures n <= |s|
    ensures forall i :: |s| - n <= i < |s| ==> IsSpace(s[i])
    ensures n < |s| ==> !IsSpace(s[|s| - n - 1])
  {
    if |s| > 0 && IsSpace(s[|s| - 1]) then 1 + TrailingSpaces(s[..|s| - 1]) else 0
  }

  /** `s.trim()`. */
  function Trim(s: string): (r: string)
    ensures |r| <= |s|
    ensures r == [] || (!IsSpace(r[0]) && !IsSpace(r[|r| - 1]))
  {
    var t := s[LeadingSpaces(s)..];
    t[..|t| - TrailingSpaces(t)]
  }

  /** A string that `trim` leaves alone: empty, or starting and ending with a non-space. */
  predicate IsTrimmed(s: string) {
    s == [] || (!IsSpace(s[0]) && !IsSpace(s[|s| - 1]))
  }

  lemma TrimTrimmed(s: string)
    requires IsTrimmed(s)
    ensures Trim(s) == s
  {
  }

  /** Whitespace removed from the front before `trim` makes no difference. */
  lemma TrimDropsLeading(s: string, n: nat)
    requires n <= |s|
    requires forall i :: 0 <= i < n ==> IsSpace(s[i])
    ensures Trim(s[n..]) == Trim(s)
  {
    var t := s[n..];
    assert LeadingSpaces(s) == n + LeadingSpaces(t) by {
      LeadingSpacesAfter(s, n);
    }
    assert s[LeadingSpaces(s)..] == t[LeadingSpaces(t)..];
  }

  lemma {:induction false} LeadingSpacesAfter(s: string, n: nat)
    requires n <= |s|
    requires forall i :: 0 <= i < n ==> IsSpace(s[i])
    ensures LeadingSpaces(s) == n + LeadingSpaces(s[n..])
    decreases n
  {
    if n > 0 {
      LeadingSpacesAfter(s[1..], n - 1);
      assert s[1..][n - 1..] == s[n..];
    }
  }

  lemma TrimLeadingSpace(c: char, s: string)
    requires IsSpace(c)
    ensures Trim([c] + s) == Trim(s)
  {
    assert ([c] + s)[1..] == s;
  }

  lemma TrimTrailingSpace(s: string, c: char)
    requires IsSpace(c)
    ensures Trim(s + [c]) == Trim(s)
  {
    if AllSpace(s) {
      AllSpaceAppend(s, [c]);
      TrimEmpty(s);
      TrimEmpty(s + [c]);
    } else {
      var n := LeadingSpaces(s);
      LeadingSpacesSnoc(s, c);
      var t := s[n..];
      assert (s + [c])[n..] == t + [c];
      assert (t + [c])[..|t|] == t;
      assert TrailingSpaces(t + [c]) == 1 + TrailingSpaces(t);
    }
  }

  lemma {:induction false} LeadingSpacesSnoc(s: string, c: char)
    requires !AllSpace(s)
    ensures LeadingSpaces(s + [c]) == LeadingSpaces(s)
    decreases |s|
  {
    if IsSpace(s[0]) {
      assert !AllSpace(s[1..]) by {
        var i :| 0 <= i < |s| && !IsSpace(s[i]);
        assert s[1..][i - 1] == s[i];
      }
      LeadingSpacesSnoc(s[1..], c);
      assert (s + [c])[1..] == s[1..] + [c];
    }
  }

  /** Every character of `Trim(s)` is a character of `s`. */
  lemma TrimChars(s: string, c: char)
    requires c !in s
    ensures c !in Trim(s)
  {
    var t := s[LeadingSpaces(s)..];
    assert c !in t;
  }

  /** A string whose trim is empty is all whitespace; in particular it does not start with a non-space. */
  lemma BlankStartsWithSpace(s: string)
    requires Trim(s) == []
    requires |s| > 0
    ensures IsSpace(s[0])
  {
  }

  /** The first non-space character survives `trim`. */
  lemma TrimFirst(s: string)
    requires |s| > 0 && !IsSpace(s[0])
    ensures |Trim(s)| > 0 && Trim(s)[0] == s[0]
  {
    assert LeadingSpaces(s) == 0;
    assert TrailingSpaces(s) < |s|;
  }

  /** `s.split(sep)` for a one-character separator. */
  function Split(s: string, sep: char): (parts: seq<string>)
    ensures |parts| >= 1
    ensures forall i :: 0 <= i < |parts| ==> sep !in parts[i]
    decreases |s|
  {
    if |s| == 0 then [""]
    else
      var rest := Split(s[1..], sep);
      if s[0] == sep then [""] + rest
      else [[s[0]] + rest[0]] + rest[1..]
  }

  /** `parts.join(sep)`. */
  function Join(parts: seq<string>, sep: string): string
  {
    if |parts| == 0 then ""
    else if |parts| == 1 then parts[0]
    else parts[0] + sep + Join(parts[1..], sep)
  }

  lemma {:induction false} SplitNoSep(s: string, sep: char)
    requires sep !in s
    ensures Split(s, sep) == [s]
    decreases |s|
  {
    if |s| > 0 {
      SplitNoSep(s[1..], sep);
      assert [s[0]] + s[1..] == s;
    }
  }

  lemma {:induction false} SplitAppend(a: string, sep: char, b: string)
    requires sep !in a
    ensures Split(a + [sep] + b, sep) == [a] + Split(b, sep)
    decreases |a|
  {
    var s := a + [sep] + b;
    if |a| == 0 {
      assert s[1..] == b;
    } else {
      assert s[1..] == a[1..] + [sep] + b;
      SplitAppend(a[1..], sep, b);
      assert [a[0]] + a[1..] == a;
    }
  }

  /** Splitting undoes joining when no part contains the separator. */
  lemma {:induction false} SplitJoin(parts: seq<string>, sep: char)
    requires |parts| >= 1
    requires forall i :: 0 <= i < |parts| ==> sep !in parts[i]
    ensures Split(Join(parts, [sep]), sep) == parts
    decreases |parts|
  {
    if |parts| == 1 {
      SplitNoSep(parts[0], sep);
    } else {
      SplitJoin(parts[1..], sep);
      SplitAppend(parts[0], sep, Join(parts[1..], [sep]));
      assert [parts[0]] + parts[1..] == parts;
    }
  }

  /** Joining undoes splitting. */
  lemma {:induction false} JoinSplit(s: string, sep: char)
    ensures Join(Split(s, sep), [sep]) == s
    decreases |s|
  {
    if |s| > 0 {
      JoinSplit(s[1..], sep);
      var rest := Split(s[1..], sep);
      if s[0] != sep && |rest| > 1 {
        assert Join(rest, [sep]) == rest[0] + [sep] + Join(rest[1..], [sep]);
      }
      assert [s[0]] + s[1..] == s;
    }
  }

  /** A string splits into one part exactly when the separator does not occur in it. */
  lemma SplitSingle(s: string, sep: char)
    ensures |Split(s, sep)| == 1 <==> sep !in s
  {
    JoinSplit(s, sep);
    if sep !in s {
      SplitNoSep(s, sep);
    }
  }

  lemma JoinAppendOne(parts: seq<string>, last: string, sep: string)
    ensures Join(parts + [last], sep) == if |parts| == 0 then last else Join(parts, sep) + sep + last
    decreases |parts|
  {
    if |parts| > 1 {
      assert (parts + [last])[1..] == parts[1..] + [last];
      JoinAppendOne(parts[1..], last, sep);
    } else if |parts| == 1 {
      assert (parts + [last])[1..] == [last];
    }
  }

  /** Joining a longer list extends the shorter join: `Join(a)` is a prefix of `Join(a + b)`. */
  lemma {:induction false} JoinPrefix(a: seq<string>, b: seq<string>, sep: string)
    ensures Join(a, sep) <= Join(a + b, sep)
    decreases |b|
  {
    if |b| > 0 {
      var a' := a + [b[0]];
      JoinPrefix(a', b[1..], sep);
      assert a' + b[1..] == a + b;
      JoinAppendOne(a, b[0], sep);
    } else {
      assert a + b == a;
    }
  }

  /**
   The lines that splitting `Join(ls, "\n")` at line feeds gives back: `ls` itself, except
   that an empty list joins to the empty string, which splits into one empty line.
   */
  function JoinedLines(ls: seq<string>): (r: seq<string>)
    ensures |r| >= 1
  {
    if |ls| == 0 then [""] else ls
  }

  lemma SplitJoinLines(ls: seq<string>)
    requires forall i :: 0 <= i < |ls| ==> '\n' !in ls[i]
    ensures Split(Join(ls, "\n"), '\n') == JoinedLines(ls)
  {
    if |ls| > 0 {
      SplitJoin(ls, '\n');
    }
  }

  lemma JoinCons(ls: seq<string>, y: string)
    requires |ls| > 1
    ensures Join(ls, "\n") + "\n" + y == ls[0] + ['\n'] + (Join(ls[1..], "\n") + "\n" + y)
  {
  }

  /** Splitting a joined block followed by a line feed and more text. */
  lemma {:induction false} SplitJoinThen(ls: seq<string>, y: string)
    requires forall i :: 0 <= i < |ls| ==> '\n' !in ls[i]
    ensures Split(Join(ls, "\n") + "\n" + y, '\n') == JoinedLines(ls) + Split(y, '\n')
    decreases |ls|
  {
    if |ls| == 0 {
      SplitAppend("", '\n', y);
      assert "" + "\n" + y == "" + ['\n'] + y;
    } else if |ls| == 1 {
      SplitAppend(ls[0], '\n', y);
    } else {
      var rest := Join(ls[1..], "\n") + "\n" + y;
      SplitJoinThen(ls[1..], y);
      JoinCons(ls, y);
      SplitAppend(ls[0], '\n', rest);
      calc {
        Split(Join(ls, "\n") + "\n" + y, '\n');
        Split(ls[0] + ['\n'] + rest, '\n');
        [ls[0]] + Split(rest, '\n');
        [ls[0]] + (JoinedLines(ls[1..]) + Split(y, '\n'));
        { assert JoinedLines(ls) == [ls[0]] + JoinedLines(ls[1..]); }
        JoinedLines(ls) + Split(y, '\n');
      }
    }
  }

  /** Splitting distributes over a concatenation around one separator. */
  lemma {:induction false} SplitConcat(x: string, sep: char, y: string)
    ensures Split(x + [sep] + y, sep) == Split(x, sep) + Split(y, sep)
    decreases |x|
  {
    var s := x + [sep] + y;
    if |x| == 0 {
      assert s[0] == sep && s[1..] == y;
    } else {
      assert s[0] == x[0] && s[1..] == x[1..] + [sep] + y;
      SplitConcat(x[1..], sep, y);
      var rest := Split(x[1..], sep);
      if x[0] != sep {
        assert (rest + Split(y, sep))[0] == rest[0];
        assert (rest + Split(y, sep))[1..] == rest[1..] + Split(y, sep);
      }
    }
  }

  /** The first piece of a split is where the string starts. */
  lemma {:induction false} SplitFirstPrefix(s: string, sep: char)
    ensures Split(s, sep)[0] <= s
    decreases |s|
  {
    if |s| > 0 && s[0] != sep {
      SplitFirstPrefix(s[1..], sep);
      assert s == [s[0]] + s[1..];
    }
  }

  /** A text free of the separator stays at the head of the first piece. */
  lemma {:induction false} SplitKeepsHead(a: string, w: string, sep: char)
    requires sep !in a
    ensures a <= Split(a + w, sep)[0]
    decreases |a|
  {
    if |a| > 0 {
      assert (a + w)[0] == a[0] && (a + w)[1..] == a[1..] + w;
      SplitKeepsHead(a[1..], w, sep);
      assert a == [a[0]] + a[1..];
    }
  }

  /** Text free of the separator put in front only lengthens the first piece. */
  lemma {:induction false} SplitPrepend(a: string, v: string, sep: char)
    requires sep !in a
    ensures Split(a + v, sep) == [a + Split(v, sep)[0]] + Split(v, sep)[1..]
    decreases |a|
  {
    if |a| > 0 {
      assert (a + v)[0] == a[0] && (a + v)[1..] == a[1..] + v;
      SplitPrepend(a[1..], v, sep);
      var rest := Split(a[1..] + v, sep);
      assert rest[0] == a[1..] + Split(v, sep)[0] && rest[1..] == Split(v, sep)[1..];
      assert Split(a + v, sep) == [[a[0]] + rest[0]] + rest[1..];
      assert [a[0]] + (a[1..] + Split(v, sep)[0]) == a + Split(v, sep)[0];
    } else {
      assert a + v == v && a + Split(v, sep)[0] == Split(v, sep)[0];
      assert Split(v, sep) == [Split(v, sep)[0]] + Split(v, sep)[1..];
    }
  }

  /**
   The physical lines a list of lines occupies once joined with `\n`: a line that itself holds
   line feeds takes several.
   */
  function PhysicalLines(ls: seq<string>): (r: seq<string>)
    ensures |r| >= 1
    ensures forall i :: 0 <= i < |r| ==> '\n' !in r[i]
  {
    Split(Join(ls, "\n"), '\n')
  }

  /** Drops one trailing carriage return. */
  function DropCR(s: string): string
  {
    if |s| > 0 && s[|s| - 1] == '\r' then s[..|s| - 1] else s
  }

  /**
   `s.split(/\r?\n/)`: split at every line feed, and a carriage return directly before a line
   feed belongs to the terminator. Only the last piece can keep a trailing carriage return.
   */
  function SplitLines(s: string): (lines: seq<string>)
    ensures |lines| >= 1
    ensures forall i :: 0 <= i < |lines| ==> '\n' !in lines[i]
  {
    var parts := Split(s, '\n');
    seq(|parts|, i requires 0 <= i < |parts| => if i < |parts| - 1 then DropCR(parts[i]) else parts[i])
  }

  /** Every piece but the last loses a trailing carriage return; the last is kept whole. */
  lemma SplitLinesPieces(s: string)
    ensures |SplitLines(s)| == |Split(s, '\n')|
    ensures forall i :: 0 <= i < |Split(s, '\n')| - 1 ==> SplitLines(s)[i] == DropCR(Split(s, '\n')[i])
  {
  }

  /** Lines that `SplitLines` gives back unchanged after a `\n` join. */
  predicate PlainLines(lines: seq<string>) {
    && (forall i :: 0 <= i < |lines| ==> '\n' !in lines[i])
    && (forall i :: 0 <= i < |lines| - 1 ==> DropCR(lines[i]) == lines[i])
  }

  lemma SplitLinesJoinLf(lines: seq<string>)
    requires |lines| >= 1 && PlainLines(lines)
    ensures SplitLines(Join(lines, "\n")) == lines
  {
    SplitJoin(lines, '\n');
  }

  function WithCR(lines: seq<string>): (r: seq<string>)
    ensures |r| == |lines|
  {
    seq(|lines|, i requires 0 <= i < |lines| => if i < |lines| - 1 then lines[i] + "\r" else lines[i])
  }

  lemma {:induction false} JoinCrlf(lines: seq<string>)
    ensures Join(lines, "\r\n") == Join(WithCR(lines), "\n")
    decreases |lines|
  {
    if |lines| > 1 {
      JoinCrlf(lines[1..]);
      assert WithCR(lines)[1..] == WithCR(lines[1..]);
    }
  }

  lemma WithCRNoLf(lines: seq<string>)
    requires forall i :: 0 <= i < |lines| ==> '\n' !in lines[i]
    ensures forall i :: 0 <= i < |WithCR(lines)| ==> '\n' !in WithCR(lines)[i]
  {
    var w := WithCR(lines);
    forall i | 0 <= i < |w| ensures '\n' !in w[i] {
      if i < |w| - 1 {
        assert w[i] == lines[i] + "\r";
      }
    }
  }

  lemma DropCRWithCR(lines: seq<string>)
    ensures forall i :: 0 <= i < |lines| - 1 ==> DropCR(WithCR(lines)[i]) == lines[i]
  {
    forall i | 0 <= i < |lines| - 1 ensures DropCR(WithCR(lines)[i]) == lines[i] {
      assert WithCR(lines)[i] == lines[i] + "\r";
    }
  }

  /** A document written with `\r\n` terminators splits into the same lines as one written with `\n`. */
  lemma SplitLinesJoinCrlf(lines: seq<string>)
    requires |lines| >= 1
    requires forall i :: 0 <= i < |lines| ==> '\n' !in lines[i]
    ensures SplitLines(Join(lines, "\r\n")) == lines
  {
    JoinCrlf(lines);
    var w := WithCR(lines);
    WithCRNoLf(lines);
    SplitJoin(w, '\n');
    DropCRWithCR(lines);
    var r := SplitLines(Join(lines, "\r\n"));
    assert |r| == |lines|;
    forall i | 0 <= i < |lines| ensures r[i] == lines[i] {
    }
  }

  /** `s.includes(sub)`. */
  predicate Contains(s: string, sub: string)
    decreases |s|
  {
    sub <= s || (|s| > 0 && Contains(s[1..], sub))
  }

  lemma {:induction false} ContainsAppend(s: string, t: string, sub: string)
    requires Contains(s, sub)
    ensures Contains(s + t, sub)
    decreases |s|
  {
    if sub <= s {
      assert (s + t)[..|sub|] == s[..|sub|];
    } else {
      assert (s + t)[1..] == s[1..] + t;
      ContainsAppend(s[1..], t, sub);
    }
  }

  lemma {:induction false} ContainsPrepend(t: string, s: string, sub: string)
    requires Contains(s, sub)
    ensures Contains(t + s, sub)
    decreases |t|
  {
    if |t| > 0 {
      assert (t + s)[1..] == t[1..] + s;
      ContainsPrepend(t[1..], s, sub);
    } else {
      assert t + s == s;
    }
  }

  lemma ContainsPrefix(s: string, sub: string)
    requires sub <= s
    ensures Contains(s, sub)
  {
  }

  /** Every element of a list is a substring of the list's join. */
  lemma {:induction false} ContainsJoinElement(parts: seq<string>, sep: string, k: nat, sub: string)
    requires k < |parts|
    requires sub <= parts[k]
    ensures Contains(Join(parts, sep), sub)
    decreases |parts|
  {
    if |parts| == 1 {
      ContainsPrefix(parts[0], sub);
    } else if k == 0 {
      ContainsPrefix(parts[0], sub);
      ContainsAppend(parts[0], sep + Join(parts[1..], sep), sub);
      assert parts[0] + (sep + Join(parts[1..], sep)) == Join(parts, sep);
    } else {
      ContainsJoinElement(parts[1..], sep, k - 1, sub);
      ContainsPrepend(parts[0] + sep, Join(parts[1..], sep), sub);
    }
  }

  /** A prefix's substrings are substrings of the whole. */
  lemma ContainsOfPrefix(p: string, s: string, sub: string)
    requires p <= s
    requires Contains(p, sub)
    ensures Contains(s, sub)
  {
    ContainsAppend(p, s[|p|..], sub);
    assert p + s[|p|..] == s;
  }

  /** ASCII `toLowerCase`. */
  function LowerChar(c: char): char
  {
    if 'A' <= c <= 'Z' then (c as int - 'A' as int + 'a' as int) as char else c
  }

  function Lower(s: string): (r: string)
    ensures |r| == |s|
  {
    seq(|s|, i requires 0 <= i < |s| => LowerChar(s[i]))
  }

  /** `s.replace(/\s+/g, ' ')`: every maximal whitespace run becomes one space. */
  function CollapseSpaces(s: string): (r: string)
    ensures |r| <= |s|
    decreases |s|
  {
    if |s| == 0 then []
    else if IsSpace(s[0]) then
      var rest := s[1..];
      [' '] + CollapseSpaces(rest[LeadingSpaces(rest)..])
    else [s[0]] + CollapseSpaces(s[1..])
  }

  /** A string in which whitespace occurs only as single spaces between other characters. */
  predicate IsNormalized(s: string) {
    && IsTrimmed(s)
    && (forall i :: 0 <= i < |s| && IsSpace(s[i]) ==> s[i] == ' ')
    && (forall i :: 0 <= i < |s| - 1 && s[i] == ' ' ==> s[i + 1] != ' ')
  }

  /** `CollapseSpaces` leaves a string alone when no whitespace run is longer than one space. */
  lemma {:induction false} CollapseSingleSpaces(s: string)
    requires forall i :: 0 <= i < |s| && IsSpace(s[i]) ==> s[i] == ' '
    requires forall i :: 0 <= i < |s| - 1 && s[i] == ' ' ==> s[i + 1] != ' '
    ensures CollapseSpaces(s) == s
    decreases |s|
  {
    if |s| > 0 {
      var rest := s[1..];
      if IsSpace(s[0]) {
        if |rest| > 0 {
          assert rest[0] == s[1];
        }
        assert LeadingSpaces(rest) == 0;
      }
      CollapseSingleSpaces(rest);
      assert [s[0]] + rest == s;
    }
  }

  lemma NormalizedFixed(s: string)
    requires IsNormalized(s)
    ensures Trim(CollapseSpaces(s)) == s
  {
    CollapseSingleSpaces(s);
  }

  lemma {:induction false} CollapseChars(s: string, c: char)
    requires c != ' ' && c !in s
    ensures c !in CollapseSpaces(s)
    decreases |s|
  {
    if |s| > 0 {
      var rest := s[1..];
      if IsSpace(s[0]) {
        assert c !in rest[LeadingSpaces(rest)..];
        CollapseChars(rest[LeadingSpaces(rest)..], c);
      } else {
        CollapseChars(rest, c);
      }
    }
  }

  /** `trim` empties exactly the all-whitespace strings. */
  lemma TrimEmpty(s: string)
    ensures Trim(s) == [] <==> AllSpace(s)
  {
  }

  lemma AllSpaceAppend(a: string, b: string)
    ensures AllSpace(a + b) <==> AllSpace(a) && AllSpace(b)
  {
    if AllSpace(a) && AllSpace(b) {
      forall i | 0 <= i < |a + b|
        ensures IsSpace((a + b)[i])
      {
        if i >= |a| {
          assert (a + b)[i] == b[i - |a|];
        }
      }
    }
    if AllSpace(a + b) {
      assert forall i :: 0 <= i < |a| ==> a[i] == (a + b)[i];
      assert forall i :: 0 <= i < |b| ==> b[i] == (a + b)[i + |a|];
    }
  }

  /** Whitespace only as single spaces, never followed by more whitespace. */
  predicate SingleSpaced(s: string) {
    && (forall i :: 0 <= i < |s| && IsSpace(s[i]) ==> s[i] == ' ')
    && (forall i :: 0 <= i < |s| - 1 && s[i] == ' ' ==> !IsSpace(s[i + 1]))
  }

  lemma SingleSpacedCons(x: char, c: string)
    requires SingleSpaced(c)
    requires IsSpace(x) ==> x == ' ' && (c == [] || !IsSpace(c[0]))
    ensures SingleSpaced([x] + c)
  {
    var r := [x] + c;
    assert forall i :: 1 <= i < |r| ==> r[i] == c[i - 1];
  }

  /**
   What `replace(/\s+/g, ' ')` produces: whitespace only as single spaces, empty only for the
   empty string, and starting and ending with whitespace exactly when the input does.
   */
  lemma {:induction false} CollapseShape(s: string)
    ensures SingleSpaced(CollapseSpaces(s))
    ensures CollapseSpaces(s) == [] <==> s == []
    ensures |s| > 0 ==> (IsSpace(CollapseSpaces(s)[0]) <==> IsSpace(s[0]))
    ensures |s| > 0 ==> (IsSpace(CollapseSpaces(s)[|CollapseSpaces(s)| - 1]) <==> IsSpace(s[|s| - 1]))
    decreases |s|
  {
    if |s| > 0 {
      var r := CollapseSpaces(s);
      var rest := s[1..];
      if IsSpace(s[0]) {
        var after := rest[LeadingSpaces(rest)..];
        CollapseShape(after);
        var c := CollapseSpaces(after);
        assert r == [' '] + c;
        SingleSpacedCons(' ', c);
        if |after| == 0 {
          assert |rest| > 0 ==> s[|s| - 1] == rest[|rest| - 1];
        } else {
          assert after[|after| - 1] == s[|s| - 1];
          assert r[|r| - 1] == c[|c| - 1];
        }
      } else {
        CollapseShape(rest);
        var c := CollapseSpaces(rest);
        assert r == [s[0]] + c;
        SingleSpacedCons(s[0], c);
        if |rest| > 0 {
          assert rest[|rest| - 1] == s[|s| - 1];
          assert r[|r| - 1] == c[|c| - 1];
        }
      }
    }
  }

  /** `trim` followed by whitespace collapsing leaves a normalized string. */
  lemma TrimmedCollapse(s: string)
    requires IsTrimmed(s)
    ensures IsNormalized(CollapseSpaces(s))
  {
    CollapseShape(s);
  }
}
