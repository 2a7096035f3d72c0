/**
 The tests the body scripts share: a truthy title, what counts as a heading and as a badly
 indented one (`heading_format`), the `#` run that starts a heading, and the heading text left
 once the `#` run and the whitespace after it are replaced away and the rest is trimmed.
 */
module Markdown {
  import opened Wrappers
  import opened Text

  /** A JavaScript-truthy string field: present and not empty. */
  predicate Truthy(o: Option<string>) {
    o.Some? && o.value != ""
  }

  /** A line whose trim starts with `#`. */
  predicate IsHeading(line: string) {
    "#" <= Trim(line)
  }

  /** A heading whose line is not already trimmed: leading or trailing whitespace around it. */
  predicate BadHeading(line: string) {
    IsHeading(line) && line != Trim(line)
  }

  /** The number of `#` a line starts with. */
  function Hashes(line: string): (n: nat)
    ensures n <= |line|
    ensures forall i :: 0 <= i < n ==> line[i] == '#'
    ensures n < |line| ==> line[n] != '#'
  {
    if |line| > 0 && line[0] == '#' then 1 + Hashes(line[1..]) else 0
  }

  /**
   Replacing the pattern "one or more `#`, then any whitespace" at the start of the line by
   nothing: without a leading `#` nothing matches and the line is kept.
   */
  function StripHashes(line: string): (r: string)
    ensures Hashes(line) == 0 ==> r == line
  {
    if Hashes(line) == 0 then line
    else
      var rest := line[Hashes(line)..];
      rest[LeadingSpaces(rest)..]
  }

  /** The text of a heading line: its `#` run and the whitespace after it removed, then trimmed. */
  function HeadingText(line: string): string
  {
    Trim(StripHashes(line))
  }

  /** Dropping the whitespace after the `#` run changes nothing `trim` would not do anyway. */
  lemma HeadingTextAfterHashes(line: string)
    requires Hashes(line) > 0
    ensures HeadingText(line) == Trim(line[Hashes(line)..])
  {
    var rest := line[Hashes(line)..];
    TrimDropsLeading(rest, LeadingSpaces(rest));
  }
}
