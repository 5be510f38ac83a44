# DiffParser, modelled in Dafny

This project models the unified-diff parser of `src/utils/diff_parser.py`. The parser takes the raw text of `git diff`, cuts it into one section per file at every `"\ndiff --git"`, and finds each section's path with two regular expressions:

- `a/(.*?)\s+b/`;
- failing that, `\+\+\+ b/(.*)`.

It then collects the section's added and deleted lines and emits one record per file. It also renders a one-line total summary.

The project has three files:

- `strings.dfy` (module `Strings`) holds the pieces of Python's `str` that the parser relies on:
  - the whitespace table shared by `str.strip()` and the regex class `\s`;
  - `startswith`, `find`, and `split` on a literal separator, together with its inverse `join`;
  - the decimal rendering of a non-negative `int`.
- `diff_parser.dfy` (module `DiffParser`) holds the rest:
  - the record datatype `FileChange`;
  - the two path patterns, as hand-written scanners with declarative specifications of what `re.search` reports;
  - `_extract_changes` and `parse_diff`, as methods with loops, each proved equal to a specification function (`AdditionsOf`/`DeletionsOf`, `Parse`);
  - `get_summary`, as a function.
- `diff_parser_examples.dfy` (module `DiffParserExamples`) works the sample diff of the module's demo block through the model. It proves the result for every diff of that shape, then applies it to the demo's own texts: one record for `src/main.py` with `"+2, -1"`.

Three behaviours of the code are easy to miss, and the model follows the code in all three:

- The first pattern's group may be empty. When the leftmost match of `a/(.*?)\s+b/` has an empty group, the path is `""` and the section is dropped; the `+++ b/` fallback is never tried (`EmptyHeaderGroupDropsSection`).
- The fallback can give the empty path as well. When the first pattern does not match and the leftmost `+++ b/` has only whitespace after it on its line, the stripped rest is empty, and the section is dropped (`BlankMarkerLineDropsSection`).
- Both patterns are searched anywhere in the section, not only at the start of a line. For example, `+++ b/` is found in the middle of a line too.

## Model

| member | source | states |
|---|---|---|
| Strings.IsSpace | src/utils/diff_parser.py:125 | definition: the characters `str.isspace()` accepts (tab, line feed, vertical tab, form feed, carriage return, the separators 0x1C-0x1F, space, 0x85, no-break space the Unicode space separators, and the line and paragraph separators U+2028 and U+2029), which are also what `strip()` removes and what `\s` matches |
| Strings.AllSpace | src/utils/diff_parser.py:44 | definition: every character of the text is whitespace, which is when `not text.strip()` holds |
| Strings.StartsWith | src/utils/diff_parser.py:118-128 | definition: `line.startswith(prefix)`, the prefix being no longer than the line and equal to its first characters |
| Strings.Strip | src/utils/diff_parser.py:125 | `str.strip()` gives the empty text exactly when the input is all whitespace; otherwise the result neither starts nor ends with whitespace |
| Strings.StripIsSlice | src/utils/diff_parser.py:125 | what `strip()` keeps is a contiguous slice of the input, with only whitespace removed on either side |
| Strings.StripUnique | src/utils/diff_parser.py:95 | stripping whitespace + trimmed text + whitespace gives back exactly that text |
| Strings.IndexOf | src/utils/diff_parser.py:93 | the search finds the leftmost occurrence at or after the start, or reports that there is none |
| Strings.LineEnd | src/utils/diff_parser.py:93 | `.*` stops at the first line break, or at the end of the text |
| Strings.Split | src/utils/diff_parser.py:48 | splitting on a literal separator gives a non-empty list of separator-free parts that join back to the input |
| Strings.SplitJoin | src/utils/diff_parser.py:114 | joining separator-free parts and splitting them again gives the same parts |
| Strings.NatToString | src/utils/diff_parser.py:71 | the decimal rendering is a non-empty string of digits that starts with `0` only when it is `0` |
| Strings.NatToStringRoundTrip | src/utils/diff_parser.py:71 | the decimal rendering reads back to the number it renders |
| DiffParser.ChangeSummary | src/utils/diff_parser.py:71 | definition: the f-string `+A, -D`, a plus sign, the decimal addition count, a comma, a space, a minus sign and the decimal deletion count |
| DiffParser.WellFormed | src/utils/diff_parser.py:65-72 | definition: what every record of the list satisfies, a `FileChange` with a non-empty path, counts equal to the lengths of its two lists, and the summary built from those lengths |
| DiffParser.ChangeSummaryInjective | src/utils/diff_parser.py:71 | the text `+A, -D` determines both counts |
| DiffParser.SpaceRunThenNewSide | src/utils/diff_parser.py:88 | definition: `\s+b/` matches at a position, one or more whitespace characters from there being followed by `b/` |
| DiffParser.IsHeaderMatch | src/utils/diff_parser.py:88 | definition: `a/(.*?)\s+b/` matches with `a/` at one position and the group ending at another, the group holding no line break |
| DiffParser.LeftmostHeaderMatch | src/utils/diff_parser.py:88-90 | definition: the match `re.search` reports, the leftmost start and, at that start, the shortest group |
| DiffParser.SpaceRunThenNewSideAtCorrect | src/utils/diff_parser.py:88 | the greedy scanner for `\s+b/` accepts at a position exactly when some whitespace run from there is followed by `b/` |
| DiffParser.LazyGroupEnd | src/utils/diff_parser.py:88 | the lazy group `(.*?)` ends at the first position, without crossing a line break, where `\s+b/` matches; if there is none, no position on that line matches |
| DiffParser.FindHeaderMatch | src/utils/diff_parser.py:88-89 | finds the leftmost start of `a/(.*?)\s+b/` and, at that start, the shortest group; if it finds none, no match exists anywhere |
| DiffParser.ExtractFilePath | src/utils/diff_parser.py:87-97 | the extracted path never contains a line break |
| DiffParser.HeaderPatternFirst | src/utils/diff_parser.py:88-90 | whenever the first pattern matches, the path is the group of its leftmost, shortest match, returned unstripped, even when it is empty |
| DiffParser.NewFileMarkerFallback | src/utils/diff_parser.py:92-95 | when the first pattern does not match, the path is the rest of the line after the leftmost `+++ b/`, stripped |
| DiffParser.NoPatternNoPath | src/utils/diff_parser.py:97 | when neither pattern matches, the path is `""` |
| DiffParser.FirstHeaderMatch | src/utils/diff_parser.py:88-90 | a match with no earlier `a/` and no shorter group is the one reported |
| DiffParser.HeaderPath | src/utils/diff_parser.py:88-90 | a header `a/PATH<whitespace>b/` with a whitespace-free PATH, and no earlier `a`, yields exactly PATH |
| DiffParser.NoHeaderWithoutA | src/utils/diff_parser.py:88 | a text without the letter `a` never matches the first pattern |
| DiffParser.MarkerPath | src/utils/diff_parser.py:92-95 | in a section where the first pattern does not match, a line `+++ b/LINE` with no `+++ b/` before it yields LINE stripped |
| DiffParser.EmptyHeaderGroupDropsSection | src/utils/diff_parser.py:57-59 | a section whose leftmost match of the first pattern has an empty group gives the path `""` and produces no record, whatever follows it |
| DiffParser.EmptyHeaderLine | src/utils/diff_parser.py:57-59 | a section holding `a/`, whitespace, `b/`, with no `a` before them, produces no record |
| DiffParser.BlankMarkerLineDropsSection | src/utils/diff_parser.py:92-95 | in a section where the first pattern does not match, a first `+++ b/` line with only whitespace after the marker yields the empty path, and the section produces no record |
| DiffParser.PathImpliesNotBlank | src/utils/diff_parser.py:53-59 | a section from which a path is extracted is never blank, so the blank test drops only sections that have no path anyway |
| DiffParser.IsFileMarker | src/utils/diff_parser.py:118 | definition: the line starts with `+++` or with `---` |
| DiffParser.IsHunkHeader | src/utils/diff_parser.py:120 | definition: the line starts with `@@` |
| DiffParser.Classify | src/utils/diff_parser.py:117-129 | definition: the if/elif chain for one line, in its order: file markers and hunk headers are ignored, then a `+` line is an addition and a `-` line a deletion of the rest of the line stripped, and anything else is ignored |
| DiffParser.Lines | src/utils/diff_parser.py:114 | `split('\n')` gives a non-empty list of lines without line breaks that, joined with line breaks, give back the section |
| DiffParser.LineAdditions | src/utils/diff_parser.py:124-125 | definition: what one line appends to the additions list, its classified text when it is an addition and nothing otherwise |
| DiffParser.LineDeletions | src/utils/diff_parser.py:128-129 | definition: what one line appends to the deletions list, its classified text when it is a deletion and nothing otherwise |
| DiffParser.AdditionsOf | src/utils/diff_parser.py:111-131 | definition: the additions list after the loop over the given lines, each line appending its own addition after those of the lines before it |
| DiffParser.DeletionsOf | src/utils/diff_parser.py:111-131 | definition: the deletions list after the loop over the given lines, each line appending its own deletion after those of the lines before it |
| DiffParser.ExtractChanges | src/utils/diff_parser.py:111-131 | the loop returns exactly the additions and deletions that the line-by-line specification records, in line order |
| DiffParser.ChangesStep | src/utils/diff_parser.py:116-129 | each line appends its own contribution after that of the lines before it |
| DiffParser.ChangesOfAppend | src/utils/diff_parser.py:114-131 | order is kept: the changes of two runs of lines are the changes of the first run, then those of the second |
| DiffParser.LineContribution | src/utils/diff_parser.py:116-129 | a line contributes its own addition or deletion, and nothing else, at its place in the order |
| DiffParser.LineRules | src/utils/diff_parser.py:117-129 | `+++`, `---` and `@@` lines are never recorded; any other `+` line adds its remainder stripped and deletes nothing; any other `-` line deletes its remainder stripped and adds nothing; other lines are ignored |
| DiffParser.ChangesBound | src/utils/diff_parser.py:116-129 | the additions and deletions together are never more than the lines of the section |
| DiffParser.ParseSection | src/utils/diff_parser.py:53-72 | definition: the body of the loop over sections, which skips a blank section and one without a path, and otherwise yields the record of the path, the section's additions and deletions, their counts and `+A, -D` |
| DiffParser.ParseSections | src/utils/diff_parser.py:50-74 | definition: the list the loop builds, the records of the sections in section order |
| DiffParser.Parse | src/utils/diff_parser.py:44-74 | definition: `parse_diff`'s result, `[]` for blank input and otherwise the records of the sections that `re.split` cuts at `"\ndiff --git"` |
| DiffParser.ParseSectionIff | src/utils/diff_parser.py:53-72 | a section yields a record exactly when a non-empty path can be extracted from it; that record carries the path, counts equal to the list lengths, and the summary `+A, -D` |
| DiffParser.ParseSectionsStep | src/utils/diff_parser.py:52-72 | each section appends its own record, if it has one, after the records of the sections before it |
| DiffParser.ParseSectionsAppend | src/utils/diff_parser.py:52-74 | section order is kept in the result list |
| DiffParser.ParseSectionsSound | src/utils/diff_parser.py:52-72 | there are at most as many records as sections, and every record is well formed |
| DiffParser.ParseSound | src/utils/diff_parser.py:44-74 | blank input gives `[]`; there are at most as many records as split sections; every record has a non-empty path, counts equal to its list lengths, and the summary built from them |
| DiffParser.BlankTextHasNoRecords | src/utils/diff_parser.py:44-59 | a whitespace-only text yields no record even if its blankness were not tested first |
| DiffParser.SeparatorStartsOnce | src/utils/diff_parser.py:48 | the separator's first character does not recur in it, so separator occurrences cannot overlap |
| DiffParser.SectionsSplitBack | src/utils/diff_parser.py:48 | sections free of the separator, joined by it, are split back into the same sections |
| DiffParser.ParseJoinedSections | src/utils/diff_parser.py:48-74 | parsing sections joined by the separator gives the records of those sections, section by section, in order |
| DiffParser.ParseDiff | src/utils/diff_parser.py:44-74 | the loop returns exactly the specification's list of records, and every record is well formed |
| DiffParser.TotalAdditions | src/utils/diff_parser.py:149 | definition: the sum of the records' addition counts |
| DiffParser.TotalDeletions | src/utils/diff_parser.py:150 | definition: the sum of the records' deletion counts |
| DiffParser.SummaryLine | src/utils/diff_parser.py:153-156 | definition: the f-string `N file(s) changed: A addition(s), D deletion(s)` with the three numbers in decimal |
| DiffParser.GetSummary | src/utils/diff_parser.py:144-147 | the result is "No changes detected" exactly when `parse_diff` returns no record |
| DiffParser.SummaryLineInjective | src/utils/diff_parser.py:153-156 | the summary line determines the file count and both totals |
| DiffParser.TotalsAppend | src/utils/diff_parser.py:149-150 | the totals over two record lists are the sums of their totals |
| DiffParser.TotalsCountLines | src/utils/diff_parser.py:149-150 | for well-formed records, the summed counts equal the numbers of recorded lines |
| DiffParser.SummaryReportsRecordedLines | src/utils/diff_parser.py:144-156 | when there are records, the summary reports their number and the numbers of added and deleted lines they hold |
| DiffParserExamples.LinesOfJoin | src/utils/diff_parser.py:114 | lines without a line break, joined with line breaks, are split back into themselves |
| DiffParserExamples.NoSeparatorInJoin | src/utils/diff_parser.py:48 | lines without a line break, none after the first starting with `d`, contain no `"\ndiff --git"`, so they form one section |
| DiffParserExamples.DemoPath | src/utils/diff_parser.py:162 | the sample's header line `diff --git a/P b/P` supplies the path P |
| DiffParserExamples.PreambleUnrecorded | src/utils/diff_parser.py:162-167 | the sample's header, index, `---`, `+++`, hunk-header and context lines are not recorded |
| DiffParserExamples.RecordedLine | src/utils/diff_parser.py:168-170 | a body line `+    TEXT` or `-    TEXT` is recorded as TEXT, on the side its marker names |
| DiffParserExamples.DemoChanges | src/utils/diff_parser.py:162-171 | the sample's section records the two added texts in order and the one deleted text |
| DiffParserExamples.DemoChangeSummary | src/utils/diff_parser.py:71 | two additions and one deletion render as `+2, -1` |
| DiffParserExamples.DemoParsed | src/utils/diff_parser.py:162-176 | a diff shaped like the sample parses to exactly one record: its path, the two additions, the deletion, counts 2 and 1, and `+2, -1` |
| DiffParserExamples.SummaryOfOne | src/utils/diff_parser.py:144-156 | a diff that yields one record is summarised with file count 1 and that record's counts |
| DiffParserExamples.DemoSummary | src/utils/diff_parser.py:185 | the summary of a sample-shaped diff reports one file, two additions and one deletion |
| DiffParserExamples.SampleParsed | src/utils/diff_parser.py:162-176 | the sample itself parses to the record for `src/main.py` with additions `print("new")`, `return True`, deletion `print("old")`, and `+2, -1` |
| DiffParserExamples.SampleSummary | src/utils/diff_parser.py:185 | the sample itself is summarised as one file with two additions and one deletion |

## Left out

- `src/core/git_handler.py` is not part of this model. It only passes calls through to git and to the file system.
- The printing in the `__main__` demo block is left out. Its sample diff appears only as the test vector in `diff_parser_examples.dfy`.
- `parse_diff` also accepts `None`: `not diff_text` is true for it, and the result is `[]`. The model's input is always a string, so that case is covered only as the empty string.
- Records are a datatype, not a dictionary. The field names follow the dictionary keys.
- The general regular-expression engine is not modelled. The model has only the three fixed patterns: the literal split separator, `a/(.*?)\s+b/` and `\+\+\+ b/(.*)`.
- Characters are Unicode scalar values. A Python `str` may also hold lone surrogates, which the model cannot represent. None of them is whitespace, so no result would change.
- DiffParser.ExtractFilePath: its own contract states only that the path holds no line break. What the path is, pattern by pattern, is stated by `HeaderPatternFirst`, `NewFileMarkerFallback` and `NoPatternNoPath`.
- DiffParserExamples.SampleSummary: it states the summary as `SummaryLine(1, 2, 1)`, the rendering of the source's f-string, rather than as the literal text "1 file(s) changed: 2 addition(s), 1 deletion(s)".
