# Front-matter maintenance scripts of the faaza-blog, in Dafny

The blog keeps its posts as Markdown files that start with a YAML front matter between two
`---` lines. A handful of Node scripts keep that front matter and the post bodies in shape:

- `fix-yaml-errors.js` finds posts whose front matter js-yaml rejects. It then repairs them by
  hand: stray `---`/`...` lines are dropped, and a line holding several `key: value` pairs is cut
  into one `key: "value"` line per pair.
- `check-yaml-parsing-errors.js` reports, per post, the loader error and its position.
- `fix-yaml-frontmatter.js` rewrites `tags` (inline arrays, block lists) into block style. It also
  rewrites each `description`/`excerpt` value as one `key: value` entry. The value is joined with
  its continuation lines, keeping the line breaks between them; it is then trimmed and cut to 160
  characters. A multi-line value therefore stays multi-line.
- `fix-yaml-parsing.js` turns folded block scalars (`>` / `>-`) of those two fields into literal
  ones (`|`).
- `update-tags.js` sets `tags` from the directories a post sits in.
- `update-frontmatter.js` adds the missing default fields.
- `refine-frontmatter.js` recomputes title, category, description, date and draft from the body
  and the file's place.
- `validate-markdown.js` reports title and body problems.
- `fix-markdown.js` removes the duplicate title heading and trims indented headings.

Each script is modelled as pure functions from a file's text (and the outside values it uses)
to the text it writes, or to the report it prints. The modules follow the scripts:

| module | file | models |
|---|---|---|
| `Wrappers` | wrappers.dfy | `Option` |
| `Text` | text.dfy | the JavaScript string built-ins the scripts use: `\s`, `\w`, `trim`, `split`, `join`, `split(/\r?\n/)`, `includes`, `toLowerCase`, `replace(/\s+/g, ' ')` |
| `FrontMatter` | frontmatter.dfy | the delimiter searches every script repeats, and writing a framed header back |
| `YamlCheck` | yaml_check.dfy | `extractFrontMatter` and `checkYamlParsing` of fix-yaml-errors.js and check-yaml-parsing-errors.js |
| `Tokenizer` | tokenizer.dfy | the pair scanner of fix-yaml-errors.js |
| `Repair` | repair.dfy | the manual repair branch of fix-yaml-errors.js |
| `FrontMatterFix` | frontmatter_fix.dfy | fix-yaml-frontmatter.js |
| `FoldedBlocks` | folded_blocks.dfy | fix-yaml-parsing.js |
| `UpdateTags` | update_tags.dfy | update-tags.js |
| `UpdateFrontmatter` | update_frontmatter.dfy | update-frontmatter.js |
| `Refine` | refine.dfy | refine-frontmatter.js |
| `Markdown` | markdown.dfy | heading recognition shared by the two Markdown scripts |
| `Validate` | validate.dfy | validate-markdown.js |
| `FixMarkdown` | fix_markdown.dfy | fix-markdown.js |

Every loop of the scripts is either a recursive function or a method with invariants. Each one is
tied to an independent reference definition: the pair scanner to an unescaping function and a
render/tokenize round trip; the Markdown scans to per-line reference reports; the header passes
to line-by-line maps. Each write-back is tied to reading the written text again.

A second run is stated for five of the scripts that rewrite files, each under the conditions
named under "Left out": fix-yaml-errors.js (Repair.RepairSettles), fix-yaml-parsing.js
(FoldedBlocks.FixYamlSettles), update-tags.js (UpdateTags.UpdateTagsTwice), update-frontmatter.js
(UpdateFrontmatter.UpdateTwice) and refine-frontmatter.js (Refine.RefineFileTwice). fix-markdown.js
settles only when at most one heading matches the title (FixMarkdown.FixFileTwice); with two, every
run drops one more (FixMarkdown.KeptTwiceRemovesAgain). fix-yaml-errors.js does not settle in
general either (Repair.RepairTwiceChanges). For fix-yaml-frontmatter.js only the parts of the pass
are shown to settle (FrontMatterFix.FoldSettles, FrontMatterFix.FoldSettlesLines,
FrontMatterFix.BlockTagsKept, FrontMatterFix.NormalizePlain), not a whole second run.

Two quirks of the source are modelled as written and stated as lemmas. In validate-markdown.js the
`list_indentation` test (lines 78-84) matches on a line that was already trimmed, so its captured
indent is always empty and it never fires (Validate.NeverBadIndent). In refine-frontmatter.js the
`break` on a blank line (line 47) is unreachable, because the `if` around it (line 45) admits only
lines whose trim is non-empty; a blank line never ends the description (Refine.GatherPastBlank).

## Model

| member | source | states |
|---|---|---|
| Text.Trim | fix-yaml-errors.js:107 | `trim()` gives a string no longer than its input that neither starts nor ends with whitespace |
| Text.TrimEmpty | refine-frontmatter.js:45 | a line trims to the empty string exactly when it is all whitespace |
| Text.TrimDropsLeading | validate-markdown.js:41 | whitespace removed from the front first does not change what `trim` gives |
| Text.Split | validate-markdown.js:37 | `split(sep)` gives at least one piece, and no piece holds the separator |
| Text.SplitJoin | fix-markdown.js:38-65 | splitting a joined list gives back the list when no element holds the separator |
| Text.JoinSplit | fix-markdown.js:38-65 | joining the pieces of a split gives back the text |
| Text.SplitSingle | refine-frontmatter.js:100 | a string splits into one piece exactly when the separator does not occur in it |
| Text.SplitLines | fix-yaml-errors.js:25 | `split(/\r?\n/)` gives at least one line and no line holds a line feed |
| Text.SplitLinesPieces | fix-yaml-errors.js:25 | the `\r?\n` split is the `\n` split with one trailing carriage return taken off every piece but the last |
| Text.SplitLinesJoinLf | fix-yaml-errors.js:25 | lines joined with `\n` are read back as the same lines when none but the last ends in a carriage return |
| Text.SplitLinesJoinCrlf | fix-yaml-errors.js:25 | a text written with `\r\n` terminators splits into the same lines as one written with `\n` |
| Text.CollapseShape | refine-frontmatter.js:50 | `replace(/\s+/g, ' ')` leaves whitespace only as single spaces; the result is empty only for the empty string, and starts or ends with whitespace exactly when the input does |
| Text.CollapseSingleSpaces | fix-yaml-errors.js:174 | collapsing changes nothing in a string whose whitespace is already single spaces |
| Text.TrimmedCollapse | refine-frontmatter.js:50 | a trimmed string, once collapsed, has only single inner spaces |
| Text.NormalizedFixed | fix-yaml-errors.js:174 | collapsing and trimming a normalized value gives it back |
| Text.Lower | validate-markdown.js:49 | `toLowerCase` keeps the length (ASCII letters only, see Left out) |
| Text.ContainsJoinElement | update-frontmatter.js:39-46 | each header line's text is found by `includes` on the joined header |
| FrontMatter.FindFrom | fix-yaml-errors.js:83-92 | the search finds the first `---` line at or after a position, or reports that there is none |
| FrontMatter.FindHeader | fix-yaml-errors.js:78-94 | no header exactly when fewer than two lines are `---`; otherwise the first two such lines, with no `---` before or between them |
| FrontMatter.FindHeaderAt | fix-yaml-errors.js:83-92 | the header found is determined by the first delimiter and the next one after it |
| FrontMatter.SplitReassembled | fix-yaml-errors.js:187 | the text written back splits into `---`, the header lines, `---`, the body lines |
| FrontMatter.RereadHeader | fix-yaml-frontmatter.js:107 | written-back text is read back with exactly the header lines written, when none is `---` or ends in a carriage return |
| FrontMatter.RereadFramed | fix-yaml-frontmatter.js:107 | the body lines come back too, when none but the last ends in a carriage return |
| FrontMatter.RereadReassembled | fix-yaml-errors.js:187 | written-back text is read back with the same header and body under those conditions |
| FrontMatter.RereadPhysical | fix-yaml-frontmatter.js:107 | a written header whose lines hold line feeds is read back as its physical lines, when none of them is `---` |
| FrontMatter.FindClosing | update-tags.js:29-37 | the closing delimiter exists exactly when line 0 is `---` and a later line is; it is the first such later line |
| FrontMatter.ClosingAgreesWithHeader | update-tags.js:29-37 | the first-line search and the two-delimiter search agree exactly on texts whose first line is `---` |
| FrontMatter.ContinuationRun | fix-yaml-frontmatter.js:86-89 | the continuation loop takes exactly the leading lines indented by two spaces or blank |
| FrontMatter.ContinuationHasNoKey | fix-yaml-parsing.js:58 | a continuation line never starts with a key such as `description:` |
| FrontMatter.KeyOf | fix-yaml-frontmatter.js:82 | `split(':')[0]` is a prefix of the line without a colon |
| FrontMatter.KeyOfPrefix | fix-yaml-frontmatter.js:82-83 | on a `key:` line, the key and the text after the first colon are what the line says |
| FrontMatter.FramedReadBack | update-tags.js:54-55 | a plain header and body framed and joined with `\n` split back into the same lines, with the closing delimiter right after the header |
| FrontMatter.ClosingParts | update-tags.js:38 | the header and body around a first-line header keep the lines' plainness |
| YamlCheck.Extract | fix-yaml-errors.js:24-47 | null exactly when fewer than two `---` lines; otherwise the two delimiter indices, the lines, and the header joined with `\n` |
| YamlCheck.ExtractFrontMatter | check-yaml-parsing-errors.js:23-41 | null exactly when fewer than two `---` lines; otherwise the same header text as fix-yaml-errors.js |
| YamlCheck.ExtractLf | check-yaml-parsing-errors.js:23-41 | the header is the lines strictly between the first two `---` lines, whatever surrounds them |
| YamlCheck.ExtractCrlf | check-yaml-parsing-errors.js:24 | the same document written with `\r\n` gives the same header text |
| YamlCheck.AdjacentDelimiters | check-yaml-parsing-errors.js:37-40 | two adjacent delimiters give the empty header, not null |
| YamlCheck.PaddedDelimiters | check-yaml-parsing-errors.js:28 | delimiter matching is exact: ` ---` and `--- ` do not count |
| YamlCheck.ReportOf | check-yaml-parsing-errors.js:53-58 | the error record carries the message, `hasLine` exactly when there is a mark, and the mark's line and column |
| YamlCheck.CheckYamlParsing | check-yaml-parsing-errors.js:43-60 | no header is no error; otherwise an error exactly when the loader rejects the header text, carrying its message and whether it has a position |
| YamlCheck.CheckDependsOnHeader | check-yaml-parsing-errors.js:46-50 | the outcome depends on the loader only through what it says about the header text |
| YamlCheck.ExtractorsAgree | fix-yaml-errors.js:24-47 | both scripts' extractors and the repair branch's own search find the same header |
| Tokenizer.WordRun | fix-yaml-errors.js:122 | the longest run of `\w` characters at the start |
| Tokenizer.MatchKey | fix-yaml-errors.js:122-126 | `^(\w+):\s*` matches exactly when some `\w+` prefix is followed by `:`; the key is that prefix and the rest starts after the colon and its whitespace |
| Tokenizer.MatchKeyIffKeyAt | fix-yaml-errors.js:122-123 | a key is matched exactly when the text starts with a key and a colon |
| Tokenizer.KeyThenColonMatches | fix-yaml-errors.js:156 | the character-by-character test is the regex `^\w+:` |
| Tokenizer.SpacedKeyAheadMatches | fix-yaml-errors.js:163 | the lookahead `^\s+\w+:` is a non-empty whitespace run followed by a key and a colon |
| Tokenizer.ScanValue | fix-yaml-errors.js:128-170 | the scan over `remaining` from index `i` breaks off, if at all, between `i` and the end of the line |
| Tokenizer.ScanValueMeaning | fix-yaml-errors.js:132-170 | the value scanned is the consumed text with every escaping backslash dropped and the character after it kept, inside or outside quotes |
| Tokenizer.ScanStopMeaning | fix-yaml-errors.js:146-167 | the scan breaks off only at the end of the line, at a space after a closing quote, or at the whitespace before the next `\w+:` |
| Tokenizer.Step | fix-yaml-errors.js:122-177 | one round happens exactly when `remaining` starts with `\w+:`; the key is a prefix, the remainder is shorter by at least two, and no line feed appears |
| Tokenizer.Tokenize | fix-yaml-errors.js:119-178 | the loop ends; it gives pairs exactly when the line starts with a key, the first pair's key is that key, and no value gains a line feed |
| Tokenizer.ScanQuoted | fix-yaml-errors.js:146-159 | a quoted value followed by a space or the end is scanned up to its closing quote, escapes removed |
| Tokenizer.ScanPlain | fix-yaml-errors.js:163-169 | a bare value is scanned up to the space before the next key, or to the end |
| Tokenizer.CleanQuoted | fix-yaml-errors.js:173-175 | the clean-up of a quoted single-spaced value gives back the value |
| Tokenizer.StepRendered | fix-yaml-errors.js:122-177 | one round on a written line emits its first field and continues on the rest |
| Tokenizer.TokenizeNoKey | fix-yaml-errors.js:122-123 | text that does not start with `\w+:` gives no pairs |
| Tokenizer.RoundTrip | fix-yaml-errors.js:119-178 | a line written from well-formed fields is tokenized back into exactly those keys and values, in order |
| Tokenizer.ExampleColonInQuotes | fix-yaml-errors.js:146-167 | `key1: "value with: colon" key2: value2 key3: "v3"` gives the three pairs, the quoted value keeping its `: ` |
| Tokenizer.ExampleEscapedQuote | fix-yaml-errors.js:135-144 | `title: "Say \"hi\"" tags: x` gives `Say "hi"` and `x` |
| Repair.CandidateIff | fix-yaml-errors.js:117 | a line is tokenized exactly when it holds two non-overlapping `: ` |
| Repair.Unmarked | fix-yaml-errors.js:107-114 | the lines kept once stray `---`/`...` lines are dropped: none of them is one |
| Repair.RepairLineClean | fix-yaml-errors.js:103-183 | no output line is a stray marker, and a line without a line feed gives lines without one |
| Repair.RepairHeaderClean | fix-yaml-errors.js:103-183 | the whole pass leaves no stray marker and introduces no line feed |
| Repair.RepairHeaderAppend | fix-yaml-errors.js:103-183 | the pass works line by line: repairing two blocks is repairing each |
| Repair.RepairHeaderKeeps | fix-yaml-errors.js:182 | lines with nothing to repair come out unchanged and in order |
| Repair.RepairHeaderFilters | fix-yaml-errors.js:107-114 | lines without two `: ` lose exactly their stray markers |
| Repair.RenderedLineRepaired | fix-yaml-errors.js:117-179 | a line of two or more well-formed fields becomes one `key: "value"` line per field, in order |
| Repair.RepairCandidate | fix-yaml-errors.js:117-179 | a candidate line is replaced by one emitted line per pair |
| Repair.ManualRepair | fix-yaml-errors.js:78-190 | no header means no write; a written text starts with `---` and a line feed |
| Repair.ManualRepairShape | fix-yaml-errors.js:185-190 | the file is written exactly when the repaired header differs, and the new text splits into `---`, the repaired lines, `---`, the body |
| Repair.RepairSettles | fix-yaml-errors.js:78-190 | a second repair writes nothing when every repaired line holds fewer than two `: ` and no trailing carriage return |
| Repair.RepairTwiceChanges | fix-yaml-errors.js:133-177 | a header `k: "p\\q: r" b: c`, with `q` no YAML escape letter, is repaired, and the repaired file is repaired again |
| Repair.ScanDoubleBackslash | fix-yaml-errors.js:135-159 | on `"p\\q: r" b: c` the first backslash escapes the second and the quote before the space ends the value |
| Repair.CleanKeepsBackslash | fix-yaml-errors.js:173-175 | the clean-up keeps a backslash not followed by `n` |
| Repair.TokenizeFirstPass | fix-yaml-errors.js:119-178 | the first pass reads the pairs `k` = `p\q: r` and `b` = `c` |
| Repair.TokenizeSecondPass | fix-yaml-errors.js:119-178 | the second pass reads the emitted `k: "p\q: r"` as `k` = `pq: r` |
| Repair.RepairFirstPass | fix-yaml-errors.js:117-179 | the first pass cuts the line into `k: "p\q: r"` and `b: "c"` |
| Repair.RepairSecondPass | fix-yaml-errors.js:117-179 | the second pass cuts the emitted line again and loses its backslash |
| Repair.EmitNotArtefact | fix-yaml-errors.js:177 | an emitted line starts with its key, so it is never a stray marker |
| FrontMatterFix.ItemRun | fix-yaml-frontmatter.js:61 | the item loop takes exactly the leading `  - ` lines |
| FrontMatterFix.ItemTags | fix-yaml-frontmatter.js:70 | each item gives the text after its dash |
| FrontMatterFix.FreshMembers | fix-yaml-frontmatter.js:61-65 | the reference filter for the merge holds exactly the block's items that the inline list lacks, each once |
| FrontMatterFix.FreshCons | fix-yaml-frontmatter.js:61-65 | the filter seen from the front: the first item is kept unless the list holds it, and is held from then on |
| FrontMatterFix.Merge | fix-yaml-frontmatter.js:61-65 | the result is the inline tags followed by `Fresh` of the items, in their order and each once; it holds exactly the tags of both and stays free of duplicates |
| FrontMatterFix.TagBlock | fix-yaml-frontmatter.js:76-80 | an empty list writes nothing; otherwise `tags:` and one `  - tag` line per tag |
| FrontMatterFix.TagBlockItems | fix-yaml-frontmatter.js:69-80 | written-out tags read back as the same tags |
| FrontMatterFix.UpTo | fix-yaml-frontmatter.js:54 | the text before the first `tags:` after the key, as `split('tags:')[1]` keeps it |
| FrontMatterFix.SingleToDouble | fix-yaml-frontmatter.js:55 | every `'` becomes `"` and nothing else changes |
| FrontMatterFix.CollectedTags | fix-yaml-frontmatter.js:50-74 | a bare key takes the items as they are, duplicates included; an inline array comes first, followed by the new items in order, each once |
| FrontMatterFix.TagsRewrite | fix-yaml-frontmatter.js:76-80 | the tag block is written, with the "standardized" change exactly when there are tags |
| FrontMatterFix.FullValue | fix-yaml-frontmatter.js:83-90 | the joined value is trimmed |
| FrontMatterFix.Shorten | fix-yaml-frontmatter.js:91-93 | a value of at most 160 characters is kept; a longer one becomes its first 157 characters and `...`, 160 in all |
| FrontMatterFix.ShortenTrimmed | fix-yaml-frontmatter.js:91-93 | a shortened trimmed value stays trimmed and within 160 characters |
| FrontMatterFix.FoldRewrite | fix-yaml-frontmatter.js:81-98 | a folded field becomes one `key: value` line, with a "shortened" change exactly when the value was over 160 characters |
| FrontMatterFix.FoldSettles | fix-yaml-frontmatter.js:81-98 | a written `key: value` line with a trimmed value of at most 160 characters folds to itself |
| FrontMatterFix.FoldSettlesLines | fix-yaml-frontmatter.js:81-98 | a written multi-line value is read again as its first line and continuation lines, which fold back to the same entry |
| FrontMatterFix.FoldedLineNoDelimiter | fix-yaml-frontmatter.js:81-98 | no physical line of a folded entry is `---`: every line feed in it is followed by whitespace, a `.` or the end |
| FrontMatterFix.TagsScalarStalls | fix-yaml-frontmatter.js:48-80 | on `tags: c` the loop does not advance |
| FrontMatterFix.TagsAdvanceAgrees | fix-yaml-frontmatter.js:46-80 | where the loop terminates it advances as `HeadLength` does, and it stalls exactly on a `tags:` line that is neither an inline array nor a bare key |
| FrontMatterFix.HeadLength | fix-yaml-frontmatter.js:46-102 | each turn of the loop takes at least one line and never passes the end |
| FrontMatterFix.NormalizePlainPrefix | fix-yaml-frontmatter.js:99-102 | plain lines ahead of the rest are copied unchanged, in order, with no change entry |
| FrontMatterFix.NormalizePlain | fix-yaml-frontmatter.js:99-102 | a header of plain lines comes out unchanged |
| FrontMatterFix.BlockTagsKept | fix-yaml-frontmatter.js:66-80 | block-style tags are written back as they stand, still with a "standardized" change |
| FrontMatterFix.EmptyTagsDropped | fix-yaml-frontmatter.js:66-80 | a bare `tags:` without items is dropped, without a change entry |
| FrontMatterFix.FixFrontmatter | fix-yaml-frontmatter.js:23-111 | nothing is written exactly when fewer than two `---` lines exist; a written text starts with `---` and a line feed |
| FrontMatterFix.FixFrontmatterReread | fix-yaml-frontmatter.js:105-108 | the written file reads back with the physical lines of the normalised header, multi-line summaries included, and the old body |
| FoldedBlocks.ContinuationNotFolded | fix-yaml-parsing.js:58 | a continuation line is never a folded start |
| FoldedBlocks.RunKept | fix-yaml-parsing.js:57-64 | the lines a folded start takes along are copied as they are |
| FoldedBlocks.FixLinesPointwise | fix-yaml-parsing.js:47-74 | the loop maps each header line to one output line: a folded start to `key: \|`, every other line to itself |
| FoldedBlocks.FixLinesChanged | fix-yaml-parsing.js:45-65 | `changed` is set exactly when the header holds a folded start |
| FoldedBlocks.ConvertedSettles | fix-yaml-parsing.js:55-63 | a converted line is no folded start |
| FoldedBlocks.FixLinesSettles | fix-yaml-parsing.js:47-74 | the loop over its own output changes nothing |
| FoldedBlocks.FixYaml | fix-yaml-parsing.js:22-84 | no header means no write; a written text starts with `---` and a line feed |
| FoldedBlocks.FixYamlWrites | fix-yaml-parsing.js:76-83 | the file is written exactly when its header holds a folded start |
| FoldedBlocks.ReassembledSettles | fix-yaml-parsing.js:76-83 | written-back text without a folded start is left alone |
| FoldedBlocks.FixYamlSettles | fix-yaml-parsing.js:22-84 | a second pass writes nothing, when no header line and no body line but the last ends in a carriage return |
| UpdateTags.NonEmpty | update-tags.js:41 | `filter(Boolean)` keeps exactly the non-empty strings, in order |
| UpdateTags.PathTags | update-tags.js:39-41 | the tags are exactly the non-empty path components |
| UpdateTags.PathTagsOfJoin | update-tags.js:39-41 | directories joined by the separator give back exactly those directories |
| UpdateTags.TopLevelPost | update-tags.js:40-41 | a post at the top has directory `.` and is tagged `.` |
| UpdateTags.TagsLine | update-tags.js:42 | the tags line starts with `tags:`, ends with `]` and is no delimiter |
| UpdateTags.TagsLineOneLine | update-tags.js:42 | newline-free tags give a one-line tags line |
| UpdateTags.FirstTagsFrom | update-tags.js:44-50 | the first header line starting with `tags:`, or none when no line does |
| UpdateTags.SetTags | update-tags.js:43-53 | the first `tags:` line is replaced and nothing else changes; a header without one gains the line at its end |
| UpdateTags.SetTagsTwice | update-tags.js:43-53 | setting the same tags line twice is setting it once |
| UpdateTags.UpdateTags | update-tags.js:26-56 | a post is skipped exactly when line 0 is not `---` or no closing `---` follows; otherwise the new header and the old body joined with `\n` |
| UpdateTags.SettledOnLines | update-tags.js:54-55 | the text written for a post is left as it is by the update |
| UpdateTags.UpdateTagsTwice | update-tags.js:26-56 | a second update with the same directory changes nothing |
| UpdateFrontmatter.Fields | update-frontmatter.js:47-60 | seven defaults, keyed `title:` … `excerpt:` in the order the script checks them |
| UpdateFrontmatter.FieldsWellFormed | update-frontmatter.js:50-60 | with one-line outside values, every default line starts with its key and is one plain line |
| UpdateFrontmatter.Additions | update-frontmatter.js:53-60 | nothing is added exactly when the header contains every key |
| UpdateFrontmatter.AdditionsMembers | update-frontmatter.js:53-60 | the additions are exactly the lines of the fields whose key the header lacks |
| UpdateFrontmatter.AdditionsAll | update-frontmatter.js:53-60 | a header mentioning no key gains every field, in order |
| UpdateFrontmatter.UpdateWith | update-frontmatter.js:39-65 | skipped posts and posts with every key are not written; otherwise the header with the additions before the closing `---`, then the body |
| UpdateFrontmatter.UpdateFrontmatter | update-frontmatter.js:27-65 | a post is written exactly when it has a first-line header that lacks one of the seven keys |
| UpdateFrontmatter.AddedKeysPresent | update-frontmatter.js:39-62 | after the additions the header text contains every key |
| UpdateFrontmatter.UpdateWithTwice | update-frontmatter.js:27-65 | a second update adds nothing |
| UpdateFrontmatter.UpdateTwice | update-frontmatter.js:27-65 | the script's second update adds nothing, when the outside values stay on one line |
| Refine.ParseFrontMatter | refine-frontmatter.js:68-92 | without a first-line header the whole content is the body; otherwise the header text and the body joined with `\n` |
| Refine.ReadWritten | refine-frontmatter.js:136-137 | the written post reads back with the dumped header and, byte for byte, the body |
| Refine.ParsedBodyPlain | refine-frontmatter.js:90 | a parsed body survives the write-back |
| Refine.TitleStartSpec | refine-frontmatter.js:28 | the capture of `^#+\s+(.+)` starts at the greatest possible start, and the line matches exactly when a start exists |
| Refine.HeadingMatches | refine-frontmatter.js:28-29 | a line yields a title exactly when the pattern can match it |
| Refine.FirstHeading | refine-frontmatter.js:27-31 | the first matching line, or none when no line matches |
| Refine.ExtractTitle | refine-frontmatter.js:25-34 | null exactly when no line matches; otherwise the title of a matching line |
| Refine.PlainHeading | refine-frontmatter.js:28-30 | `#`s, one space and text yield the trimmed text |
| Refine.SpacesOnlyHeading | refine-frontmatter.js:28-30 | `#`s and two or more spaces yield the empty title; one space does not match |
| Refine.GatherKept | refine-frontmatter.js:40-49 | the loop gathers exactly the kept lines, each followed by a space, tracking fence parity |
| Refine.GatherPastBlank | refine-frontmatter.js:45-47 | a blank line between two paragraph lines does not stop the gathering |
| Refine.DescriptionOfKept | refine-frontmatter.js:36-51 | the description is the kept text, trimmed and collapsed |
| Refine.DescriptionEmpty | refine-frontmatter.js:36-51 | the description is empty exactly when no line is kept |
| Refine.StopPiecesShape | refine-frontmatter.js:54 | `split(/[.!?]+/)` gives stop-free pieces, every inner one non-empty |
| Refine.StopPiecesJoin | refine-frontmatter.js:54 | stop-free pieces joined by a run of stops split back into themselves |
| Refine.NonBlankMembers | refine-frontmatter.js:54 | the filter keeps exactly the pieces with text |
| Refine.SentencesShape | refine-frontmatter.js:54 | every sentence is stop-free and has text |
| Refine.SentencesOfJoin | refine-frontmatter.js:54-55 | sentences joined with `. ` are read back as the same sentences, each up to surrounding whitespace |
| Refine.SentencesTrim | refine-frontmatter.js:55 | trimming keeps the sentences, each up to surrounding whitespace |
| Refine.SentencesSnocStop | refine-frontmatter.js:54-56 | a closing stop leaves the sentences exactly as they are |
| Refine.ShortenSentences | refine-frontmatter.js:53-56 | a shortened text reads back as min(`max`, n) sentences, the k-th equal to the text's k-th once both are trimmed |
| Refine.DecimalValue | refine-frontmatter.js:60-61 | zero-padded digits read back as the number |
| Refine.StampOfTime | refine-frontmatter.js:58-64 | every timestamp below 10^13 has a 13-digit name that reads back as itself |
| Refine.WeakTitleWords | refine-frontmatter.js:100 | a title is one word exactly when it has no space |
| Refine.ChooseTitleSource | refine-frontmatter.js:99-104 | the title is the old one, the heading or the base name, is empty only when all three are, and a strong title is kept |
| Refine.ChooseTitleTwice | refine-frontmatter.js:99-104 | choosing again with the chosen title keeps it |
| Refine.Category | refine-frontmatter.js:107-108 | the category holds no separator |
| Refine.CategoryOfPath | refine-frontmatter.js:107-109 | a post in a directory is filed under its top directory |
| Refine.CategoryTopLevel | refine-frontmatter.js:107-109 | a post at the top is filed under its own file name |
| Refine.ChooseDescription | refine-frontmatter.js:116-122 | the body's text cut to two sentences, else the given description, else `A post about` and the title |
| Refine.RefineData | refine-frontmatter.js:98-133 | other fields kept; category from the path; tags default to `[]`; draft false; excerpt equals description; the date kept or supplied |
| Refine.RefinedDescriptionShort | refine-frontmatter.js:117-119 | a description taken from the body has at most two sentences |
| Refine.RefineDataTwice | refine-frontmatter.js:98-133 | refining refined data again changes nothing, whatever the second date, when the first was not empty |
| Refine.RefineFileBody | refine-frontmatter.js:94-138 | the refined post reads back with a header and exactly its old body |
| Refine.RefineFileTwice | refine-frontmatter.js:94-138 | refining a refined post again leaves it as it is |
| Markdown.Hashes | validate-markdown.js:43 | the length of the leading `#` run |
| Markdown.StripHashes | validate-markdown.js:43 | without a leading `#` the pattern `^#+\s*` removes nothing |
| Markdown.HeadingTextAfterHashes | validate-markdown.js:43 | the heading text is the trimmed rest after the `#` run |
| Validate.FirstHeadingFrom | validate-markdown.js:38-47 | the first line whose trim starts with `#`, or none |
| Validate.DuplicateMembers | validate-markdown.js:49-51 | `duplicate_title` is reported at the first heading exactly when its text is not empty and equals the trimmed title up to case |
| Validate.Digits | validate-markdown.js:78 | a run of digits at the start of the line |
| Validate.FindChar | validate-markdown.js:87 | the first index holding a character, or none |
| Validate.LinkAt | validate-markdown.js:87-89 | a match starting at `i` leaves room for `[`, a non-empty text, `](` and a URL that ends before the closing `)` |
| Validate.Links | validate-markdown.js:87-94 | every URL found is non-empty and holds no `)` |
| Validate.LinkOfMarkup | validate-markdown.js:87-90 | `[text](url)` is found with exactly that URL |
| Validate.BlankLinks | validate-markdown.js:89-93 | one `malformed_link` per URL that is all whitespace |
| Validate.NeverBadIndent | validate-markdown.js:78-84 | the indent captured on a trimmed line is empty, so `list_indentation` never fires |
| Validate.LineIssuesMembers | validate-markdown.js:70-94 | a line reports `heading_format` exactly when it is a badly indented heading and `malformed_link` exactly when a link URL is blank |
| Validate.OpenAfterOdd | validate-markdown.js:61-62 | a code block is open exactly after an odd number of fence lines |
| Validate.LastFence | validate-markdown.js:61-65 | the last fence line seen, none when no fence was seen |
| Validate.StepAgrees | validate-markdown.js:56-95 | one turn of the loop keeps the state equal to the reference |
| Validate.ScanMatches | validate-markdown.js:56-95 | the loop ends with the reference issues, fence parity and block start |
| Validate.BodyIssuesMembers | validate-markdown.js:56-95 | each body issue is one reported for the line its number names |
| Validate.BodyIssueKind | validate-markdown.js:70-94 | the body's issues are heading and link issues |
| Validate.ValidateParts | validate-markdown.js:23-102 | the report is the title issues, then the body issues, then the unclosed block |
| Validate.ValidateTitleIssues | validate-markdown.js:31-51 | `missing_title` at line 1 exactly when the title is falsy; `duplicate_title` exactly as the first heading calls for |
| Validate.ValidateLineIssues | validate-markdown.js:54-95 | `heading_format` and `malformed_link` at exactly the lines outside code that call for them |
| Validate.ValidateUnclosed | validate-markdown.js:97-99 | `unclosed_code_block` exactly after an odd number of fences, at the 1-based line of the last fence, the one that opened the block |
| Validate.CarriageReturnHeading | validate-markdown.js:71-74 | a heading line ending in a carriage return is always reported |
| FixMarkdown.TidyFacts | fix-markdown.js:57-62 | a kept line is no badly indented heading, and differs from the line only when that was one |
| FixMarkdown.Matching | fix-markdown.js:47-49 | for every line, whether its heading text equals the title up to case |
| FixMarkdown.FirstMatchFacts | fix-markdown.js:46-53 | the heading dropped is the first that matches, and none is dropped when none matches |
| FixMarkdown.Tidied | fix-markdown.js:57-62 | every line tidied, in place |
| FixMarkdown.WithoutShape | fix-markdown.js:50-52 | lines before the dropped one keep their place, lines after it move one place down |
| FixMarkdown.LogRemovedOnce | fix-markdown.js:47-53 | the removal is recorded once exactly when a line was dropped |
| FixMarkdown.LogEmpty | fix-markdown.js:46-62 | nothing is recorded exactly when nothing is dropped and nothing needs trimming |
| FixMarkdown.StepAgrees | fix-markdown.js:42-63 | one turn of the loop keeps its state equal to the reference |
| FixMarkdown.FixLines | fix-markdown.js:42-63 | the loop keeps the tidied lines without the first match and records the reference changes |
| FixMarkdown.MatchAt | fix-markdown.js:47-53 | line `i` is dropped exactly when it matches and no earlier line was dropped |
| FixMarkdown.FixFile | fix-markdown.js:23-72 | the title defaults to the file name with an `added title` change; the body is the kept lines joined with `\n` |
| FixMarkdown.KeptShape | fix-markdown.js:42-65 | the kept lines are the tidied lines with the first matching heading taken out |
| FixMarkdown.KeptTrimmed | fix-markdown.js:57-62 | no kept line is a badly indented heading |
| FixMarkdown.KeptNoNewline | fix-markdown.js:57-65 | kept lines gain no line feed |
| FixMarkdown.RemovedOnce | fix-markdown.js:46-53 | `removed duplicate title heading` is recorded at most once, and exactly when a heading matches |
| FixMarkdown.NoChanges | fix-markdown.js:46-62 | no change is recorded exactly when no heading matches and none needs trimming |
| FixMarkdown.UnchangedKept | fix-markdown.js:42-65 | a body with nothing to do is kept line for line |
| FixMarkdown.FixFileQuiet | fix-markdown.js:23-72 | a post with no recorded change keeps its title and body |
| FixMarkdown.FixThenValidate | fix-markdown.js:23-72 | validate-markdown.js finds no `heading_format` in the fixed post, and no `missing_title` when there was a title or a file name |
| FixMarkdown.FixedLinesTrimmed | fix-markdown.js:57-65 | the body written back splits into lines none of which is a badly indented heading |
| FixMarkdown.NoHeadingFormat | validate-markdown.js:70-75 | a body without badly indented headings draws no `heading_format` |
| FixMarkdown.KeptNoMatch | fix-markdown.js:46-62 | when at most one heading matches the title, no kept line matches it |
| FixMarkdown.KeptTwiceRemovesAgain | fix-markdown.js:46-53 | with two matching headings the first run keeps the second, and the next run drops it too |
| FixMarkdown.SecondPass | fix-markdown.js:38-65 | when at most one heading matched, a second pass over the written body keeps every line, joins back to the same body and records nothing |
| FixMarkdown.FixFileTwice | fix-markdown.js:23-72 | running `fixFile` on its own output keeps title and body, and records no change when the title is not empty, provided at most one heading matched |

## Left out

- Directory walking (`getAllMarkdownFiles`, `getFiles`), reading and writing files, and console
  output are left out. Each model works on one file's text and returns the text written, or None
  for "not written".
- js-yaml, gray-matter and `JSON.parse` are foreign code. They appear as function parameters:
  `load` in YamlCheck.CheckYamlParsing, `parse` in FrontMatterFix, `load`/`dump` in
  Refine.RefineFile. The title and body gray-matter separates are parameters of
  Validate.ValidateBody and FixMarkdown.FixFile. `matter.stringify` is not modelled.
- The clock (`new Date().toISOString()`) and `path.basename`/`path.dirname`/`path.relative` are
  left out. The values they give are parameters: Refine.PubDate takes `iso` and `now`;
  UpdateFrontmatter.Context carries the stem, category and date; UpdateTags takes the directory
  and separator.
- The gray-matter branch of `fixYamlFrontMatter` (fix-yaml-errors.js:52-75) is not modelled. It
  needs gray-matter's parsed object and `matter.stringify`, both foreign. Repair.ManualRepair models
  the `catch` branch, the one taken when gray-matter throws.
- `checkYamlParsing` of fix-yaml-errors.js (lines 196-213) reads `extractFrontMatter(...)?.frontMatter`.
  That is `undefined` rather than `null` when no header exists, so its `=== null` test never fires.
  The loader is then handed `undefined`. YamlCheck.CheckYamlParsing models the other script, whose
  test works. For the first script the outcome depends on how js-yaml treats `undefined`, which is
  foreign.
- `main` of every script, and the counts and messages it prints, are left out.
- src/utils/algolia.ts, src/utils/codeBlockPlugin.ts, scripts/add-frontmatter.js and
  check-and-fix-yaml.js are not part of this model.
- FrontMatterFix.Shorten and FrontMatterFix.FoldRewrite count Unicode scalar values. JavaScript's
  `length` and `substring` (fix-yaml-frontmatter.js:92-93) count UTF-16 code units. A value with
  characters outside the Basic Multilingual Plane (emoji, say) is cut at a different place, and
  JavaScript may split a surrogate pair there.
- Refine.WeakTitle counts Unicode scalar values for `data.title.length < 5`
  (refine-frontmatter.js:100). A short title of astral characters can be weak in JavaScript and
  not in the model.
- Text.Lower lower-cases ASCII letters only; `toLowerCase` follows full Unicode case mapping. It
  decides the duplicate-title test in Validate.DuplicateIssue (validate-markdown.js:49) and
  FixMarkdown.Matches (fix-markdown.js:49), and the `introduction` test in Refine.WeakTitle. A
  heading `# Étude` under the title `étude` is a duplicate in JavaScript but not in the model.
- FrontMatterFix.InlineTags takes a `parse` parameter that gives a list of strings or nothing. So
  the model cannot say that `JSON.parse` returned a non-array. On `tags: "[x]"` it returns a
  string, and `tags.includes`/`push`/`forEach` (fix-yaml-frontmatter.js:55-78) then misbehave or
  throw. Non-string array elements are not modelled either.
- Refine.RefineFile receives loaded data (`Refine.Data`) whose known fields are strings or absent.
  A YAML value of another type (`title: 2024`, a date for `pubDate`) is not modelled. Neither is
  `yaml.dump` of such values.
- Refine.Data keeps the other keys in a map, so it has no key order. `yaml.dump`
  (refine-frontmatter.js:136) writes keys in insertion order; since the dumper is a parameter, the
  model says nothing about the order of the written keys.
- Validate.ValidateBody and FixMarkdown.FixFile take the title as an optional string. A truthy
  non-string title such as `title: 2024` has no `trim`/`toLowerCase`, so the scripts throw at
  validate-markdown.js:49 and fix-markdown.js:49. The model has no such case.
- FrontMatterFix.FixFrontmatter requires its header to be one on which the script terminates. On a
  `tags:` line that is neither an inline array nor a bare key, the script never advances (see
  Findings), so it writes nothing and has no result to model.
- Repair.RepairSettles: idempotence is proved only when every repaired header line is `Settled`:
  it holds fewer than two `: ` and does not end in a carriage return. In general the repair is not
  idempotent (see Findings, Repair.RepairTwiceChanges).
- FoldedBlocks.FixYamlSettles: the second pass is a no-op only when no header line and no body line
  but the last ends in a carriage return. The `\r?\n` split removes only one of two such characters,
  so a line ending in `\r\r` changes again.
- FrontMatterFix.FixFrontmatterReread: the re-read is stated under the same carriage-return
  condition, and for headers none of whose physical lines is `---`. A folded description or
  excerpt never holds such a line (FrontMatterFix.FoldedLineNoDelimiter). A tag that the foreign
  `JSON.parse` returns with a line feed can hold one, and is then read back differently.
- FixMarkdown.FixFileTwice: stated only when at most one heading of the body matches the title.
  fix-markdown.js drops the first matching heading on every run, so a post with two title headings
  loses one per run (FixMarkdown.KeptTwiceRemovesAgain). When both the title and the stem are empty,
  the second run records `added title` again.
- FrontMatterFix.FixFrontmatter: no lemma states a whole second run of fix-yaml-frontmatter.js. The
  script writes every file it parses, and block-style tags draw a "standardized" change on every
  run (FrontMatterFix.BlockTagsKept). Only the folded fields, the tag block and plain lines are
  shown to come out of a second pass as they went in.
- UpdateTags.UpdateTagsTwice: stated for posts none of whose lines ends in two carriage returns, and
  for directory names without line feeds.
- UpdateFrontmatter.UpdateTwice: stated for posts none of whose lines ends in two carriage returns,
  and for stems, categories and dates on one line. A line feed in a file name would split a default
  over two lines.
- Refine.RefineFileTwice: stated for a loader that reads back what the dumper writes and a dumper
  that writes no `---` line. The body must have no line but the last ending in a carriage return,
  and the first date must not be empty. js-yaml's own round trip is foreign.
- The message text of each `issues.push`/`changes.push` is represented by a constructor of an
  enumeration rather than the string.
- fix-markdown.js compares the untrimmed title (line 49) where validate-markdown.js trims it
  (line 49). The model keeps both as written. fix-markdown.js also trims indented headings inside
  code blocks (lines 57-62), since it does not track fences, and the model does the same.

## Findings

| source | as written | input that shows it | evidently intended | confidence | as-written member | corrected member |
|---|---|---|---|---|---|---|
| fix-yaml-errors.js:133-177 | the scan drops every escaping backslash, and the emitted `key: "value"` line does not escape the value again; a value that still holds `: ` is cut into pairs again on the next pass | header line `a: "p\\q: r" b: c` becomes `a: "p\q: r"` and `b: "c"`; js-yaml rejects the unknown escape `\q` (any `q` that starts no YAML escape), so the repair branch runs again and gives `a: "pq: r"` | repairing an already repaired header changes nothing | not executed | Repair.RepairTwiceChanges | Repair.RepairSettles |
| fix-yaml-frontmatter.js:48-81 | a `tags:` line that holds neither `[` and `]` nor only `tags:` goes through neither branch, and `i` is never advanced | header line `tags: foo`: the `while` loop at line 46 repeats on the same line for ever | every line is consumed: the loop moves on past any `tags:` line | not executed | FrontMatterFix.TagsScalarStalls | FrontMatterFix.HeadLength |
