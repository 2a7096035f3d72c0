/**
 The ambiguous-line tokenizer of the manual front-matter repair (fix-yaml-errors.js): one
 physical header line that holds several `key: value` pairs is cut into (key, value) pairs,
 left to right, by a character scan with an "inside double quotes" flag and an "escape the
 next character" flag.
 */
module Tokenizer {
  import opened Wrappers
  import opened Text

  /** One or more `\w` characters: what the scanner accepts as a field key. */
  predicate IsKey(k: string) {
    |k| > 0 && forall i :: 0 <= i < |k| ==> IsWordChar(k[i])
  }

  /** Length of the longest `\w` prefix. */
  function WordRun(s: string): (n: nat)
    ensures n <= |s|
    ensures forall i :: 0 <= i < n ==> IsWordChar(s[i])
    ensures n < |s| ==> !IsWordChar(s[n])
  {
    if |s| > 0 && IsWordChar(s[0]) then 1 + WordRun(s[1..]) else 0
  }

  /** A key followed by a non-word character is exactly the word run. */
  lemma {:induction false} WordRunOfKey(s: string, m: nat)
    ensures (0 < m < |s| && !IsWordChar(s[m]) && IsKey(s[..m])) ==> WordRun(s) == m
    decreases m
  {
    if 1 < m < |s| && !IsWordChar(s[m]) && IsKey(s[..m]) {
      assert s[1..][..m - 1] == s[..m][1..];
      assert s[1..][m - 1] == s[m];
      WordRunOfKey(s[1..], m - 1);
      assert s[..m][0] == s[0];
    } else if m == 1 && m < |s| && !IsWordChar(s[m]) && IsKey(s[..m]) {
      assert s[..m][0] == s[0];
      assert s[1..][0] == s[1];
    }
  }

  /** `s` starts with a key of length `n` followed by a colon. */
  predicate KeyAt(s: string, n: nat) {
    0 < n < |s| && s[n] == ':' && IsKey(s[..n])
  }

  /** The key matched at the start of a remainder, and what follows the colon and its spaces. */
  datatype KeyMatch = KeyMatch(key: string, rest: string)

  /**
   `s.match(/^(\w+):\s*\/)`. Since `:` is not a `\w` character, backtracking cannot find a
   shorter key, so the match is the maximal word run followed by a colon.
   */
  function MatchKey(s: string): (r: Option<KeyMatch>)
    ensures r.Some? ==> KeyAt(s, |r.value.key|) && r.value.key == s[..|r.value.key|]
    ensures r.Some? ==> |r.value.key| + 1 + |r.value.rest| <= |s|
    ensures r.Some? ==> r.value.rest == s[|s| - |r.value.rest|..]
    ensures r.Some? ==> AllSpace(s[|r.value.key| + 1..|s| - |r.value.rest|])
    ensures r.Some? ==> r.value.rest == [] || !IsSpace(r.value.rest[0])
    ensures r.None? <==> forall n :: 0 < n < |s| && s[n] == ':' ==> !IsKey(s[..n])
  {
    var n := WordRun(s);
    if 0 < n < |s| && s[n] == ':' then
      var after := s[n + 1..];
      var k := LeadingSpaces(after);
      assert after[k..] == s[|s| - |after[k..]|..];
      assert s[n + 1..|s| - |after[k..]|] == after[..k];
      Some(KeyMatch(s[..n], after[k..]))
    else
      assert forall m :: 0 < m < |s| && s[m] == ':' ==> !IsKey(s[..m]) by {
        forall m | 0 < m < |s| && s[m] == ':' ensures !IsKey(s[..m]) {
          WordRunOfKey(s, m);
        }
      }
      None
  }

  /** A key is matched exactly when the text starts with some key and colon. */
  lemma MatchKeyIffKeyAt(s: string)
    ensures MatchKey(s).Some? <==> exists n :: KeyAt(s, n)
  {
    if MatchKey(s).Some? {
      assert KeyAt(s, |MatchKey(s).value.key|);
    }
  }

  /** `t` starts with `\w+:`, checked one character at a time. */
  predicate KeyThenColon(t: string)
    decreases |t|
  {
    |t| > 1 && IsWordChar(t[0]) && (t[1] == ':' || KeyThenColon(t[1..]))
  }

  /** `t` starts with `\s*\w+:`. */
  predicate KeyAfterSpaces(t: string)
    decreases |t|
  {
    if |t| > 0 && IsSpace(t[0]) then KeyAfterSpaces(t[1..]) else KeyThenColon(t)
  }

  /** `s.match(/^\s+\w+:/)`: at least one whitespace character, then a key and a colon. */
  predicate SpacedKeyAhead(s: string) {
    |s| > 0 && IsSpace(s[0]) && KeyAfterSpaces(s[1..])
  }

  lemma {:induction false} KeyThenColonRun(t: string)
    ensures KeyThenColon(t) <==> (0 < WordRun(t) < |t| && t[WordRun(t)] == ':')
    decreases |t|
  {
    if |t| > 1 && IsWordChar(t[0]) {
      KeyThenColonRun(t[1..]);
    }
  }

  /** The character-by-character test agrees with the regex match `^\w+:`. */
  lemma KeyThenColonMatches(t: string)
    ensures KeyThenColon(t) <==> MatchKey(t).Some?
  {
    KeyThenColonRun(t);
  }

  lemma {:induction false} KeyAfterSpacesRun(t: string)
    ensures KeyAfterSpaces(t) <==> MatchKey(t[LeadingSpaces(t)..]).Some?
    decreases |t|
  {
    if |t| > 0 && IsSpace(t[0]) {
      KeyAfterSpacesRun(t[1..]);
      assert t[1..][LeadingSpaces(t[1..])..] == t[LeadingSpaces(t)..];
    } else {
      KeyThenColonMatches(t);
    }
  }

  /**
   The scanner's lookahead is the regex `^\s+\w+:`: a non-empty maximal whitespace run
   followed by a key match.
   */
  lemma SpacedKeyAheadMatches(s: string)
    ensures SpacedKeyAhead(s) <==> LeadingSpaces(s) > 0 && MatchKey(s[LeadingSpaces(s)..]).Some?
  {
    if |s| > 0 && IsSpace(s[0]) {
      KeyAfterSpacesRun(s[1..]);
      assert s[1..][LeadingSpaces(s[1..])..] == s[LeadingSpaces(s)..];
    }
  }

  /** The outcome of scanning one value: the characters kept, and where the scan broke off. */
  datatype Scan = Scan(value: string, stop: Option<nat>) {
    /** Index just past the consumed text: the break index, or the full length when none. */
    function End(len: nat): nat {
      if stop.Some? then stop.value else len
    }
  }

  /**
   Reference meaning of the escape flag: every backslash that is not itself escaped is
   dropped and the character after it is kept literally; a trailing lone backslash vanishes.
   `pending` says the text starts right after such a backslash.
   */
  function Unescape(pending: bool, s: string): string
    decreases |s|
  {
    if |s| == 0 then []
    else if pending then [s[0]] + Unescape(false, s[1..])
    else if s[0] == '\\' then Unescape(true, s[1..])
    else [s[0]] + Unescape(false, s[1..])
  }

  /**
   The inner `for` loop over `remaining` from index `i`, with accumulator `acc` and the two
   flags. A break records the index at which `remaining` is re-cut: just past the closing
   quote, or at the whitespace before the next key.
   */
  function ScanValue(r: string, i: nat, acc: string, inQuotes: bool, escapeNext: bool): (sc: Scan)
    requires i <= |r|
    ensures sc.stop.Some? ==> i <= sc.stop.value <= |r|
    decreases |r| - i
  {
    if i == |r| then Scan(acc, None)
    else
      var c := r[i];
      if escapeNext then ScanValue(r, i + 1, acc + [c], inQuotes, false)
      else if c == '\\' then ScanValue(r, i + 1, acc, inQuotes, true)
      else if c == '"' && !inQuotes then ScanValue(r, i + 1, acc + [c], true, false)
      else if c == '"' && inQuotes then
        if i + 1 >= |r| || r[i + 1] == ' ' || SpacedKeyAhead(r[i + 1..]) then Scan(acc + [c], Some(i + 1))
        else ScanValue(r, i + 1, acc + [c], false, false)
      else if !inQuotes && SpacedKeyAhead(r[i..]) then Scan(acc, Some(i))
      else ScanValue(r, i + 1, acc + [c], inQuotes, false)
  }

  /**
   `remaining` after one value: re-cut and trimmed at the break, or left as the value text
   when the scan reached the end of the line without a break.
   */
  function Next(r: string, sc: Scan): (n: string)
    requires sc.stop.Some? ==> sc.stop.value <= |r|
    ensures |n| <= |r|
  {
    if sc.stop.None? then r else Trim(r[sc.stop.value..])
  }

  /**
   What a value scan computes: the consumed text with every escaping backslash dropped and
   the character after it kept literally, inside or outside quotes.
   */
  lemma {:induction false} ScanValueMeaning(r: string, i: nat, acc: string, inQuotes: bool, escapeNext: bool)
    requires i <= |r|
    ensures var sc := ScanValue(r, i, acc, inQuotes, escapeNext);
      sc.value == acc + Unescape(escapeNext, r[i..sc.End(|r|)])
    decreases |r| - i
  {
    if i < |r| {
      var c := r[i];
      var sc := ScanValue(r, i, acc, inQuotes, escapeNext);
      var e := sc.End(|r|);
      if escapeNext {
        ScanValueMeaning(r, i + 1, acc + [c], inQuotes, false);
        assert r[i..e] == [c] + r[i + 1..e];
      } else if c == '\\' {
        ScanValueMeaning(r, i + 1, acc, inQuotes, true);
        assert r[i..e] == [c] + r[i + 1..e];
      } else if c == '"' && !inQuotes {
        ScanValueMeaning(r, i + 1, acc + [c], true, false);
        assert r[i..e] == [c] + r[i + 1..e];
      } else if c == '"' && inQuotes {
        if i + 1 >= |r| || r[i + 1] == ' ' || SpacedKeyAhead(r[i + 1..]) {
          assert r[i..e] == [c];
        } else {
          ScanValueMeaning(r, i + 1, acc + [c], false, false);
          assert r[i..e] == [c] + r[i + 1..e];
        }
      } else if !inQuotes && SpacedKeyAhead(r[i..]) {
        assert r[i..e] == [];
      } else {
        ScanValueMeaning(r, i + 1, acc + [c], inQuotes, false);
        assert r[i..e] == [c] + r[i + 1..e];
      }
    }
  }

  /**
   Where a value scan may break off: at the end of the line, at a space right after a closing
   quote, or at the whitespace that precedes the next `\w+:` key.
   */
  lemma {:induction false} ScanStopMeaning(r: string, i: nat, acc: string, inQuotes: bool, escapeNext: bool)
    requires i <= |r|
    ensures var sc := ScanValue(r, i, acc, inQuotes, escapeNext);
      sc.stop.Some? ==> var k := sc.stop.value; k == |r| || r[k] == ' ' || SpacedKeyAhead(r[k..])
    decreases |r| - i
  {
    if i < |r| {
      var c := r[i];
      if escapeNext {
        ScanStopMeaning(r, i + 1, acc + [c], inQuotes, false);
      } else if c == '\\' {
        ScanStopMeaning(r, i + 1, acc, inQuotes, true);
      } else if c == '"' && !inQuotes {
        ScanStopMeaning(r, i + 1, acc + [c], true, false);
      } else if c == '"' && inQuotes {
        if !(i + 1 >= |r| || r[i + 1] == ' ' || SpacedKeyAhead(r[i + 1..])) {
          ScanStopMeaning(r, i + 1, acc + [c], false, false);
        }
      } else if !(!inQuotes && SpacedKeyAhead(r[i..])) {
        ScanStopMeaning(r, i + 1, acc + [c], inQuotes, false);
      }
    }
  }

  /** `value.replace(/\\n/g, ' ')`: each backslash-n pair becomes one space. */
  function ReplaceBackslashN(s: string): string
    decreases |s|
  {
    if |s| == 0 then []
    else if |s| >= 2 && s[0] == '\\' && s[1] == 'n' then [' '] + ReplaceBackslashN(s[2..])
    else [s[0]] + ReplaceBackslashN(s[1..])
  }

  /**
   The value clean-up: a value that starts and ends with `"` loses those quotes (a lone `"`
   becomes empty), has `\n` pairs turned into spaces, whitespace runs collapsed and is
   trimmed. Any other value is kept as scanned.
   */
  function Clean(v: string): string
  {
    if |v| >= 1 && v[0] == '"' && v[|v| - 1] == '"' then
      Trim(CollapseSpaces(ReplaceBackslashN(if |v| >= 2 then v[1..|v| - 1] else [])))
    else v
  }

  /** One extracted field. */
  datatype Pair = Pair(key: string, value: string)

  /** The output line for one pair: the value is wrapped in double quotes and not re-escaped. */
  function Emit(p: Pair): string
  {
    p.key + ": \"" + p.value + "\""
  }

  lemma {:induction false} UnescapeChars(pending: bool, s: string, c: char)
    requires c !in s
    ensures c !in Unescape(pending, s)
    decreases |s|
  {
    if |s| > 0 {
      UnescapeChars(s[0] == '\\' && !pending, s[1..], c);
    }
  }

  lemma {:induction false} ReplaceBackslashNChars(s: string, c: char)
    requires c != ' ' && c !in s
    ensures c !in ReplaceBackslashN(s)
    decreases |s|
  {
    if |s| >= 2 && s[0] == '\\' && s[1] == 'n' {
      ReplaceBackslashNChars(s[2..], c);
    } else if |s| > 0 {
      ReplaceBackslashNChars(s[1..], c);
    }
  }

  lemma CleanChars(v: string, c: char)
    requires c != ' ' && c !in v
    ensures c !in Clean(v)
  {
    if |v| >= 1 && v[0] == '"' && v[|v| - 1] == '"' {
      var inner := if |v| >= 2 then v[1..|v| - 1] else [];
      assert c !in inner;
      ReplaceBackslashNChars(inner, c);
      CollapseChars(ReplaceBackslashN(inner), c);
      TrimChars(CollapseSpaces(ReplaceBackslashN(inner)), c);
    }
  }

  /** One round of the loop introduces no line feed the line did not have. */
  lemma StepKeepsNewlinesOut(s: string, m: KeyMatch, sc: Scan)
    requires |m.rest| <= |s| && m.rest == s[|s| - |m.rest|..]
    requires sc.stop.Some? ==> sc.stop.value <= |m.rest|
    requires sc.value == Unescape(false, m.rest[..sc.End(|m.rest|)])
    ensures '\n' !in s ==> '\n' !in Clean(sc.value) && '\n' !in Next(m.rest, sc)
  {
    if '\n' !in s {
      assert '\n' !in m.rest;
      assert '\n' !in m.rest[..sc.End(|m.rest|)];
      UnescapeChars(false, m.rest[..sc.End(|m.rest|)], '\n');
      CleanChars(sc.value, '\n');
      if sc.stop.Some? {
        TrimChars(m.rest[sc.stop.value..], '\n');
      }
    }
  }

  /** One round of the outer loop: the pair it emits and the remainder it continues on. */
  datatype Round = Round(pair: Pair, rest: string)

  /**
   One round of the outer loop on a non-empty `remaining`: match a key at its start, scan the
   value, clean it, and re-cut the remainder. None when `remaining` does not start with `\w+:`.
   */
  function Step(s: string): (r: Option<Round>)
    ensures r.Some? <==> exists n :: KeyAt(s, n)
    ensures r.Some? ==> IsKey(r.value.pair.key) && KeyAt(s, |r.value.pair.key|) && r.value.pair.key <= s
    ensures r.Some? ==> |r.value.rest| + 2 <= |s|
    ensures r.Some? && '\n' !in s ==> '\n' !in r.value.pair.value && '\n' !in r.value.rest
  {
    MatchKeyIffKeyAt(s);
    match MatchKey(s)
    case None => None
    case Some(m) =>
      var sc := ScanValue(m.rest, 0, [], false, false);
      ScanValueMeaning(m.rest, 0, [], false, false);
      assert m.rest[0..sc.End(|m.rest|)] == m.rest[..sc.End(|m.rest|)];
      StepKeepsNewlinesOut(s, m, sc);
      Some(Round(Pair(m.key, Clean(sc.value)), Next(m.rest, sc)))
  }

  /**
   The outer `while (remaining)` loop. Each round matches a key at the start of `remaining`,
   scans its value and continues on the strictly shorter remainder; it stops at the first
   remainder that does not start with `\w+:`, and that remainder is dropped.
   */
  function Tokenize(s: string): (ps: seq<Pair>)
    ensures forall j :: 0 <= j < |ps| ==> IsKey(ps[j].key)
    ensures 2 * |ps| <= |s|
    ensures |ps| > 0 <==> exists n :: KeyAt(s, n)
    ensures |ps| > 0 ==> KeyAt(s, |ps[0].key|) && ps[0].key <= s
    ensures '\n' !in s ==> forall j :: 0 <= j < |ps| ==> '\n' !in ps[j].value
    decreases |s|
  {
    if |s| == 0 then []
    else
      match Step(s)
      case None => []
      case Some(rd) =>
        var tail := Tokenize(rd.rest);
        var ps := [rd.pair] + tail;
        assert ps[0] == rd.pair && ps[1..] == tail;
        ps
  }

  /** The tokenizer applied to a header line: `remaining` starts as the trimmed line. */
  function TokenizeLine(line: string): seq<Pair>
  {
    Tokenize(Trim(line))
  }

  // ---------------------------------------------------------------------------------------
  // Round trip: a line written as `key: value key: "value" ...` tokenizes back to its fields.
  // ---------------------------------------------------------------------------------------

  /** A field as a writer would put it on a shared line: the value bare or double-quoted. */
  datatype Field = Field(key: string, value: string, quoted: bool)

  /** A backslash before every double quote, as inside a YAML double-quoted scalar. */
  function Escape(v: string): string
    decreases |v|
  {
    if |v| == 0 then [] else (if v[0] == '"' then "\\\"" else [v[0]]) + Escape(v[1..])
  }

  lemma {:induction false} EscapeNoQuotes(v: string)
    requires '"' !in v
    ensures Escape(v) == v
    decreases |v|
  {
    if |v| > 0 {
      EscapeNoQuotes(v[1..]);
    }
  }

  lemma {:induction false} EscapeAppend(a: string, b: string)
    ensures Escape(a + b) == Escape(a) + Escape(b)
    decreases |a|
  {
    if |a| > 0 {
      assert (a + b)[1..] == a[1..] + b;
      EscapeAppend(a[1..], b);
    } else {
      assert a + b == b;
    }
  }

  function RenderValue(f: Field): string
  {
    if f.quoted then "\"" + Escape(f.value) + "\"" else f.value
  }

  function RenderField(f: Field): string
  {
    f.key + ": " + RenderValue(f)
  }

  /** Fields written on one line, separated by single spaces. */
  function RenderLine(fs: seq<Field>): string
    requires |fs| > 0
    decreases |fs|
  {
    if |fs| == 1 then RenderField(fs[0]) else RenderField(fs[0]) + " " + RenderLine(fs[1..])
  }

  /** A bare value: non-empty, with no whitespace, double quote or backslash. */
  predicate PlainValue(v: string) {
    |v| > 0 && forall i :: 0 <= i < |v| ==> !IsSpace(v[i]) && v[i] != '"' && v[i] != '\\'
  }

  /** A quoted value: no backslash, and whitespace only as single inner spaces. */
  predicate QuotedValue(v: string) {
    IsNormalized(v) && '\\' !in v
  }

  /**
   A field the scanner can recover: a `\w+` key, and a value of the right shape. A bare value
   in last position must not itself start with `\w+:`, because the scanner re-reads it as a key.
   */
  predicate WellFormedField(f: Field, last: bool) {
    && IsKey(f.key)
    && (if f.quoted then QuotedValue(f.value) else PlainValue(f.value) && (last ==> !KeyThenColon(f.value)))
  }

  predicate WellFormedLine(fs: seq<Field>) {
    |fs| > 0 && forall j :: 0 <= j < |fs| ==> WellFormedField(fs[j], j == |fs| - 1)
  }

  function Pairs(fs: seq<Field>): (ps: seq<Pair>)
    ensures |ps| == |fs|
  {
    seq(|fs|, j requires 0 <= j < |fs| => Pair(fs[j].key, fs[j].value))
  }

  lemma MatchRendered(key: string, x: string)
    requires IsKey(key)
    requires x == [] || !IsSpace(x[0])
    ensures MatchKey(key + ": " + x) == Some(KeyMatch(key, x))
  {
    var s := key + ": " + x;
    assert s[..|key|] == key;
    WordRunOfKey(s, |key|);
    var after := s[|key| + 1..];
    assert after == " " + x;
    assert after[1..] == x;
    assert LeadingSpaces(after) == 1 + LeadingSpaces(x);
  }

  // Single steps of the value scan, each unfolding `ScanValue` once.

  lemma ScanStepKeep(r: string, i: nat, acc: string, inQuotes: bool)
    requires i < |r| && r[i] != '\\' && r[i] != '"'
    requires inQuotes || !SpacedKeyAhead(r[i..])
    ensures ScanValue(r, i, acc, inQuotes, false) == ScanValue(r, i + 1, acc + [r[i]], inQuotes, false)
  {
  }

  lemma ScanStepEscape(r: string, i: nat, acc: string, inQuotes: bool)
    requires i + 1 < |r| && r[i] == '\\'
    ensures ScanValue(r, i, acc, inQuotes, false) == ScanValue(r, i + 2, acc + [r[i + 1]], inQuotes, false)
  {
    assert ScanValue(r, i, acc, inQuotes, false) == ScanValue(r, i + 1, acc, inQuotes, true);
  }

  lemma ScanStepOpen(r: string, i: nat, acc: string)
    requires i < |r| && r[i] == '"'
    ensures ScanValue(r, i, acc, false, false) == ScanValue(r, i + 1, acc + ['"'], true, false)
  {
  }

  lemma ScanStepClose(r: string, i: nat, acc: string)
    requires i < |r| && r[i] == '"'
    requires i + 1 == |r| || r[i + 1] == ' '
    ensures ScanValue(r, i, acc, true, false) == Scan(acc + ['"'], Some(i + 1))
  {
  }

  lemma ScanStepBreak(r: string, i: nat, acc: string)
    requires i < |r| && r[i] != '\\' && r[i] != '"'
    requires SpacedKeyAhead(r[i..])
    ensures ScanValue(r, i, acc, false, false) == Scan(acc, Some(i))
  {
  }

  lemma ScanStepEnd(r: string, acc: string, inQuotes: bool)
    ensures ScanValue(r, |r|, acc, inQuotes, false) == Scan(acc, None)
  {
  }

  lemma {:induction false} ScanEscaped(r: string, i: nat, acc: string, v: string)
    requires '\\' !in v
    requires i + |Escape(v)| <= |r|
    requires r[i..i + |Escape(v)|] == Escape(v)
    ensures ScanValue(r, i, acc, true, false) == ScanValue(r, i + |Escape(v)|, acc + v, true, false)
    decreases |v|
  {
    if |v| == 0 {
      assert acc + v == acc;
    } else {
      var rest := Escape(v[1..]);
      if v[0] == '"' {
        assert Escape(v) == "\\\"" + rest;
        assert r[i..i + |Escape(v)|][0] == r[i] && r[i..i + |Escape(v)|][1] == r[i + 1];
        ScanStepEscape(r, i, acc, true);
        assert r[i + 2..i + 2 + |rest|] == r[i..i + |Escape(v)|][2..];
        ScanEscaped(r, i + 2, acc + ['"'], v[1..]);
        assert acc + ['"'] + v[1..] == acc + v;
      } else {
        assert Escape(v) == [v[0]] + rest;
        assert r[i..i + |Escape(v)|][0] == r[i];
        ScanStepKeep(r, i, acc, true);
        assert r[i + 1..i + 1 + |rest|] == r[i..i + |Escape(v)|][1..];
        ScanEscaped(r, i + 1, acc + [v[0]], v[1..]);
        assert acc + [v[0]] + v[1..] == acc + v;
      }
    }
  }

  /** A quoted value followed by the end of the line or a space is scanned up to its closing quote. */
  lemma ScanQuoted(v: string, tail: string)
    requires '\\' !in v
    requires tail == [] || tail[0] == ' '
    ensures ScanValue("\"" + Escape(v) + "\"" + tail, 0, [], false, false)
         == Scan("\"" + v + "\"", Some(|Escape(v)| + 2))
  {
    var r := "\"" + Escape(v) + "\"" + tail;
    var j := 1 + |Escape(v)|;
    QuotedLayout(v, tail, r);
    assert [] + ['"'] == "\"";
    calc {
      ScanValue(r, 0, [], false, false);
      { ScanStepOpen(r, 0, []); }
      ScanValue(r, 1, "\"", true, false);
      { ScanEscaped(r, 1, "\"", v); }
      ScanValue(r, j, "\"" + v, true, false);
      { ScanStepClose(r, j, "\"" + v); }
      Scan("\"" + v + ['"'], Some(j + 1));
    }
    assert "\"" + v + ['"'] == "\"" + v + "\"";
  }

  /** Where the quotes and the escaped text sit in a quoted value followed by `tail`. */
  lemma QuotedLayout(v: string, tail: string, r: string)
    requires r == "\"" + Escape(v) + "\"" + tail
    requires tail == [] || tail[0] == ' '
    ensures r[0] == '"' && 1 + |Escape(v)| < |r|
    ensures r[1..1 + |Escape(v)|] == Escape(v)
    ensures r[1 + |Escape(v)|] == '"'
    ensures 2 + |Escape(v)| == |r| || r[2 + |Escape(v)|] == ' '
  {
  }

  lemma {:induction false} ScanPlainPrefix(r: string, v: string, i: nat)
    requires PlainValue(v) && v <= r
    requires i <= |v|
    ensures ScanValue(r, i, v[..i], false, false) == ScanValue(r, |v|, v, false, false)
    decreases |v| - i
  {
    if i < |v| {
      assert r[i] == v[i];
      assert LeadingSpaces(r[i..]) == 0;
      ScanStepKeep(r, i, v[..i], false);
      assert v[..i] + [r[i]] == v[..i + 1];
      ScanPlainPrefix(r, v, i + 1);
    } else {
      assert v[..i] == v;
    }
  }

  /** A bare value is scanned up to the space before the next key, or to the end of the line. */
  lemma ScanPlain(v: string, tail: string)
    requires PlainValue(v)
    requires tail == [] || (|tail| > 1 && tail[0] == ' ' && KeyThenColon(tail[1..]) && !IsSpace(tail[1]))
    ensures ScanValue(v + tail, 0, [], false, false) == Scan(v, if tail == [] then None else Some(|v|))
  {
    var r := v + tail;
    assert v <= r;
    ScanPlainPrefix(r, v, 0);
    assert v[..0] == [];
    if tail != [] {
      assert r[|v|..] == tail;
      assert SpacedKeyAhead(tail);
      ScanStepBreak(r, |v|, v);
    } else {
      assert r == v;
      ScanStepEnd(r, v, false);
    }
  }

  lemma {:induction false} ReplaceBackslashNNone(s: string)
    requires '\\' !in s
    ensures ReplaceBackslashN(s) == s
    decreases |s|
  {
    if |s| > 0 {
      ReplaceBackslashNNone(s[1..]);
    }
  }

  lemma CleanQuoted(v: string)
    requires QuotedValue(v)
    ensures Clean("\"" + v + "\"") == v
  {
    var w := "\"" + v + "\"";
    assert w[1..|w| - 1] == v;
    ReplaceBackslashNNone(v);
    NormalizedFixed(v);
  }

  /** A normalized value that `\n` replacement leaves alone comes back from its quoted form. */
  lemma CleanFixed(v: string)
    requires IsNormalized(v) && ReplaceBackslashN(v) == v
    ensures Clean(['"'] + v + ['"']) == v
  {
    var w := ['"'] + v + ['"'];
    assert w[1..|w| - 1] == v;
    NormalizedFixed(v);
  }

  lemma {:induction false} KeyThenColonOfKey(key: string, x: string)
    requires IsKey(key)
    ensures KeyThenColon(key + ":" + x)
    decreases |key|
  {
    var t := key + ":" + x;
    if |key| > 1 {
      assert t[1..] == key[1..] + ":" + x;
      KeyThenColonOfKey(key[1..], x);
    }
  }

  /** The text after a line's first field: nothing, or a space and the remaining fields. */
  function RenderTail(fs: seq<Field>): string
    requires |fs| > 0
  {
    if |fs| == 1 then "" else " " + RenderLine(fs[1..])
  }

  lemma RenderLineHead(fs: seq<Field>)
    requires |fs| > 0
    ensures RenderLine(fs) == fs[0].key + ": " + (RenderValue(fs[0]) + RenderTail(fs))
  {
  }

  /** A rendered line ends in a closing quote or in the last character of a bare value. */
  lemma {:induction false} RenderLineLast(fs: seq<Field>)
    requires WellFormedLine(fs)
    ensures |RenderLine(fs)| > 0 && !IsSpace(RenderLine(fs)[|RenderLine(fs)| - 1])
    decreases |fs|
  {
    var f := fs[0];
    assert WellFormedField(f, |fs| == 1);
    if |fs| == 1 {
      var rv := RenderValue(f);
      assert RenderLine(fs) == f.key + ": " + rv;
      assert rv[|rv| - 1] == '"' || rv[|rv| - 1] == f.value[|f.value| - 1];
    } else {
      TailWellFormed(fs);
      RenderLineLast(fs[1..]);
      var t := RenderLine(fs[1..]);
      assert RenderLine(fs) == RenderField(f) + " " + t;
    }
  }

  /** A rendered line is trimmed and starts with its first key and a colon. */
  lemma RenderLineShape(fs: seq<Field>)
    requires WellFormedLine(fs)
    ensures IsTrimmed(RenderLine(fs)) && |RenderLine(fs)| > 0
    ensures KeyThenColon(RenderLine(fs)) && !IsSpace(RenderLine(fs)[0])
  {
    var f := fs[0];
    assert IsKey(f.key);
    RenderLineHead(fs);
    var rest := " " + (RenderValue(f) + RenderTail(fs));
    assert RenderLine(fs) == f.key + ":" + rest;
    KeyThenColonOfKey(f.key, rest);
    RenderLineLast(fs);
    assert RenderLine(fs)[0] == f.key[0];
  }

  lemma TailWellFormed(fs: seq<Field>)
    requires WellFormedLine(fs) && |fs| > 1
    ensures WellFormedLine(fs[1..])
  {
    forall j | 0 <= j < |fs[1..]| ensures WellFormedField(fs[1..][j], j == |fs[1..]| - 1) {
      assert fs[1..][j] == fs[j + 1];
      assert WellFormedField(fs[j + 1], j + 1 == |fs| - 1);
    }
  }

  lemma StepUnfold(s: string, m: KeyMatch, sc: Scan)
    requires MatchKey(s) == Some(m)
    requires ScanValue(m.rest, 0, [], false, false) == sc
    ensures Step(s) == Some(Round(Pair(m.key, Clean(sc.value)), Next(m.rest, sc)))
  {
  }

  /** One round on `key: "v"` followed by nothing or by a space and more text. */
  lemma StepQuoted(key: string, v: string, tail: string)
    requires IsKey(key) && QuotedValue(v)
    requires tail == [] || tail[0] == ' '
    ensures Step(key + ": " + ("\"" + Escape(v) + "\"" + tail)) == Some(Round(Pair(key, v), Trim(tail)))
  {
    var x := "\"" + Escape(v) + "\"" + tail;
    assert x[0] == '"';
    MatchRendered(key, x);
    ScanQuoted(v, tail);
    var sc := Scan("\"" + v + "\"", Some(|Escape(v)| + 2));
    StepUnfold(key + ": " + x, KeyMatch(key, x), sc);
    CleanQuoted(v);
    assert x[|Escape(v)| + 2..] == tail;
  }

  /** One round on `key: v` with a bare value, followed by nothing or by a space and the next key. */
  lemma StepPlain(key: string, v: string, tail: string)
    requires IsKey(key) && PlainValue(v)
    requires tail == [] || (|tail| > 1 && tail[0] == ' ' && KeyThenColon(tail[1..]) && !IsSpace(tail[1]))
    ensures Step(key + ": " + (v + tail)) == Some(Round(Pair(key, v), if tail == [] then v else Trim(tail)))
  {
    var x := v + tail;
    assert x[0] == v[0];
    MatchRendered(key, x);
    ScanPlain(v, tail);
    var sc := Scan(v, if tail == [] then None else Some(|v|));
    StepUnfold(key + ": " + x, KeyMatch(key, x), sc);
    assert v[0] != '"';
    if tail == [] {
      assert x == v;
    } else {
      assert x[|v|..] == tail;
    }
  }

  /** The tail is empty, or a space before the next key; trimmed, it is the rest of the line. */
  lemma RenderTailShape(fs: seq<Field>)
    requires WellFormedLine(fs)
    ensures var t := RenderTail(fs);
      t == [] || (|t| > 1 && t[0] == ' ' && KeyThenColon(t[1..]) && !IsSpace(t[1]))
    ensures Trim(RenderTail(fs)) == if |fs| == 1 then "" else RenderLine(fs[1..])
  {
    if |fs| > 1 {
      TailWellFormed(fs);
      RenderLineShape(fs[1..]);
      assert RenderTail(fs)[1..] == RenderLine(fs[1..]);
      TrimLeadingSpace(' ', RenderLine(fs[1..]));
      TrimTrimmed(RenderLine(fs[1..]));
    }
  }

  /** One round on a rendered line emits its first field and continues on the rest of the line. */
  lemma StepRendered(fs: seq<Field>)
    requires WellFormedLine(fs)
    ensures Step(RenderLine(fs)) ==
      Some(Round(Pair(fs[0].key, fs[0].value),
                 if |fs| == 1 then (if fs[0].quoted then "" else fs[0].value) else RenderLine(fs[1..])))
  {
    assert WellFormedField(fs[0], |fs| == 1);
    RenderLineHead(fs);
    RenderTailShape(fs);
    if fs[0].quoted {
      StepQuoted(fs[0].key, fs[0].value, RenderTail(fs));
    } else {
      StepPlain(fs[0].key, fs[0].value, RenderTail(fs));
    }
  }

  lemma TokenizeUnfold(s: string, rd: Round)
    requires Step(s) == Some(rd)
    ensures Tokenize(s) == [rd.pair] + Tokenize(rd.rest)
  {
  }

  /** Text that does not start with `\w+:` yields no pairs. */
  lemma TokenizeNoKey(s: string)
    requires !KeyThenColon(s)
    ensures Tokenize(s) == []
  {
    KeyThenColonMatches(s);
    MatchKeyIffKeyAt(s);
  }

  lemma PairsCons(fs: seq<Field>)
    requires |fs| > 0
    ensures Pairs(fs) == [Pair(fs[0].key, fs[0].value)] + Pairs(fs[1..])
  {
  }

  lemma {:induction false} TokenizeRendered(fs: seq<Field>)
    requires WellFormedLine(fs)
    ensures Tokenize(RenderLine(fs)) == Pairs(fs)
    decreases |fs|
  {
    StepRendered(fs);
    var rd := Step(RenderLine(fs)).value;
    TokenizeUnfold(RenderLine(fs), rd);
    var f := fs[0];
    assert WellFormedField(f, |fs| == 1);
    if |fs| == 1 {
      if !f.quoted {
        TokenizeNoKey(f.value);
      }
      PairsCons(fs);
    } else {
      TailWellFormed(fs);
      TokenizeRendered(fs[1..]);
      PairsCons(fs);
    }
  }

  /**
   Tokenizing a line written from well-formed fields gives back exactly those fields, keys
   and values, in order: quoted values may contain `: ` and escaped quotes.
   */
  lemma RoundTrip(fs: seq<Field>)
    requires WellFormedLine(fs)
    ensures TokenizeLine(RenderLine(fs)) == Pairs(fs)
  {
    RenderLineShape(fs);
    TrimTrimmed(RenderLine(fs));
    TokenizeRendered(fs);
  }

  // Two lines from the repair pass's own examples, with the keys and values as parameters
  // pinned to the example's text.

  lemma RenderCons(f: Field, fs: seq<Field>)
    requires |fs| > 0
    ensures RenderLine([f] + fs) == RenderField(f) + " " + RenderLine(fs)
  {
    assert ([f] + fs)[1..] == fs;
  }

  lemma RenderTwo(f1: Field, f2: Field)
    ensures RenderLine([f1, f2]) == RenderField(f1) + " " + RenderField(f2)
  {
    RenderCons(f1, [f2]);
    assert [f1] + [f2] == [f1, f2];
  }

  lemma RenderThree(f1: Field, f2: Field, f3: Field)
    ensures RenderLine([f1, f2, f3]) == RenderField(f1) + " " + RenderField(f2) + " " + RenderField(f3)
  {
    RenderTwo(f2, f3);
    RenderCons(f1, [f2, f3]);
    assert [f1] + [f2, f3] == [f1, f2, f3];
  }

  lemma PairsThree(f1: Field, f2: Field, f3: Field)
    ensures Pairs([f1, f2, f3]) == [Pair(f1.key, f1.value), Pair(f2.key, f2.value), Pair(f3.key, f3.value)]
  {
  }

  lemma ColonValueQuoted(v: string)
    requires v == "value with: colon"
    ensures QuotedValue(v)
  {
    assert IsNormalized(v);
  }

  lemma ColonValuesUnescaped(v1: string, v3: string)
    requires v1 == "value with: colon" && v3 == "v3"
    ensures Escape(v1) == v1 && Escape(v3) == v3
  {
    EscapeNoQuotes(v1);
    EscapeNoQuotes(v3);
  }

  lemma ColonFieldsWellFormed(k1: string, v1: string, k2: string, v2: string, k3: string, v3: string)
    requires k1 == "key1" && k2 == "key2" && k3 == "key3"
    requires v1 == "value with: colon" && v2 == "value2" && v3 == "v3"
    ensures WellFormedLine([Field(k1, v1, true), Field(k2, v2, false), Field(k3, v3, true)])
  {
    ColonValueQuoted(v1);
    assert IsKey(k1) && IsKey(k2) && IsKey(k3);
    assert PlainValue(v2) && QuotedValue(v3);
  }

  /**
   `key1: "value with: colon" key2: value2 key3: "v3"` gives the three pairs in order: the
   quoted value keeps its `: `, and the bare value ends at the space before `key3:`.
   */
  lemma ExampleColonInQuotes(k1: string, v1: string, k2: string, v2: string, k3: string, v3: string)
    requires k1 == "key1" && k2 == "key2" && k3 == "key3"
    requires v1 == "value with: colon" && v2 == "value2" && v3 == "v3"
    ensures TokenizeLine(k1 + ": " + ("\"" + v1 + "\"") + " " + (k2 + ": " + v2) + " " + (k3 + ": " + ("\"" + v3 + "\"")))
         == [Pair(k1, v1), Pair(k2, v2), Pair(k3, v3)]
  {
    var fs := [Field(k1, v1, true), Field(k2, v2, false), Field(k3, v3, true)];
    ColonFieldsWellFormed(k1, v1, k2, v2, k3, v3);
    ColonValuesUnescaped(v1, v3);
    RenderThree(fs[0], fs[1], fs[2]);
    PairsThree(fs[0], fs[1], fs[2]);
    RoundTrip(fs);
  }

  lemma EscapeQuoted(a: string, b: string)
    requires '"' !in a && '"' !in b
    ensures Escape(a + "\"" + b + "\"") == a + "\\\"" + b + "\\\""
  {
    var q := "\"";
    assert a + q + b + q == a + (q + (b + q));
    EscapeAppend(a, q + (b + q));
    EscapeAppend(q, b + q);
    EscapeAppend(b, q);
    EscapeNoQuotes(a);
    EscapeNoQuotes(b);
    assert Escape(q) == "\\\"";
  }

  lemma SayHiFieldsWellFormed(k1: string, v1: string, k2: string, v2: string)
    requires k1 == "title" && v1 == "Say " + "\"" + "hi" + "\""
    requires k2 == "tags" && v2 == "x"
    ensures WellFormedLine([Field(k1, v1, true), Field(k2, v2, false)])
  {
    assert IsKey(k1) && IsKey(k2);
    assert v1 == "Say \"hi\"";
    assert QuotedValue(v1) && PlainValue(v2);
    assert !KeyThenColon(v2);
  }

  /**
   `title: "Say \"hi\"" tags: x` gives `title` = `Say "hi"` and `tags` = `x`: each escaping
   backslash is dropped and the quote after it is kept.
   */
  lemma ExampleEscapedQuote(k1: string, v1: string, e1: string, k2: string, v2: string)
    requires k1 == "title" && v1 == "Say " + "\"" + "hi" + "\"" && e1 == "Say " + "\\\"" + "hi" + "\\\""
    requires k2 == "tags" && v2 == "x"
    ensures TokenizeLine(k1 + ": " + ("\"" + e1 + "\"") + " " + (k2 + ": " + v2)) == [Pair(k1, v1), Pair(k2, v2)]
  {
    var fs := [Field(k1, v1, true), Field(k2, v2, false)];
    EscapeQuoted("Say ", "hi");
    SayHiFieldsWellFormed(k1, v1, k2, v2);
    RenderTwo(fs[0], fs[1]);
    assert Pairs(fs) == [Pair(k1, v1), Pair(k2, v2)];
    RoundTrip(fs);
  }
}
