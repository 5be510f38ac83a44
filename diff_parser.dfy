/** The unified-diff parser: `git diff` text in, one record per file
    section out, plus a one-line total summary. */
module DiffParser {
  import opened Strings

  /** One entry of `parse_diff`'s result list. */
  datatype FileChange = FileChange(
    filePath: string,
    additions: seq<string>,
    deletions: seq<string>,
    additionCount: nat,
    deletionCount: nat,
    changeSummary: string)

  /** The text `re.split` cuts the diff at, dropped from the sections. */
  const FileSeparator: string := "\ndiff --git"
  /** The literal parts of the header pattern `a/(.*?)\s+b/`. */
  const OldSidePrefix: string := "a/"
  const NewSidePrefix: string := "b/"
  /** The literal part of the marker pattern `\+\+\+ b/(.*)`. */
  const NewFileMarker: string := "+++ b/"
  const NoChangesMessage: string := "No changes detected"

  /** `f"+{additions}, -{deletions}"` */
  function ChangeSummary(additions: nat, deletions: nat): string {
    "+" + (NatToString(additions) + (", -" + NatToString(deletions)))
  }

  /** What every emitted record satisfies: a path, counts that are the
      lengths of the lists, and the summary built from those lengths. */
  predicate WellFormed(fc: FileChange) {
    && fc.filePath != []
    && fc.additionCount == |fc.additions|
    && fc.deletionCount == |fc.deletions|
    && fc.changeSummary == ChangeSummary(|fc.additions|, |fc.deletions|)
  }

  /** The summary text determines both counts. */
  lemma ChangeSummaryInjective(a: nat, d: nat, a': nat, d': nat)
    requires ChangeSummary(a, d) == ChangeSummary(a', d')
    ensures a == a' && d == d'
  {
    var td, td' := ", -" + NatToString(d), ", -" + NatToString(d');
    PrefixCancel("+", NatToString(a) + td, NatToString(a') + td');
    NatToStringPrefixUnique(a, a', td, td');
    PrefixCancel(", -", NatToString(d), NatToString(d'));
    NatToStringRoundTrip(d);
    NatToStringRoundTrip(d');
  }

  // ---------------------------------------------------------------------
  // Path extraction: `a/(.*?)\s+b/`, then `\+\+\+ b/(.*)`

  /** `\s+b/` matches at `q`: one or more whitespace characters, then "b/". */
  ghost predicate SpaceRunThenNewSide(s: string, q: int) {
    exists e :: 0 <= q < e && OccursAt(s, NewSidePrefix, e) && AllSpace(s[q..e])
  }

  /** `a/(.*?)\s+b/` matches with "a/" at `p` and the group ending at `c`:
      the group `s[p + |OldSidePrefix|..c]` is free of line breaks (`.` stops at them). */
  ghost predicate IsHeaderMatch(s: string, p: int, c: int) {
    && OccursAt(s, OldSidePrefix, p)
    && p + |OldSidePrefix| <= c <= |s|
    && '\n' !in s[p + |OldSidePrefix|..c]
    && SpaceRunThenNewSide(s, c)
  }

  ghost predicate HasHeaderMatch(s: string) {
    exists p, c :: IsHeaderMatch(s, p, c)
  }

  /** The match `re.search` reports: leftmost start, then (the group being
      lazy) the shortest group. */
  ghost predicate LeftmostHeaderMatch(s: string, p: int, c: int) {
    && IsHeaderMatch(s, p, c)
    && (forall q, c' :: q < p ==> !IsHeaderMatch(s, q, c'))
    && (forall c' :: c' < c ==> !IsHeaderMatch(s, p, c'))
  }

  /** Computable form of SpaceRunThenNewSide: since 'b' is not whitespace,
      the greedy `\s+` can only succeed by taking the whole run. */
  predicate SpaceRunThenNewSideAt(s: string, q: nat) {
    q < |s| && IsSpace(s[q]) && OccursAt(s, NewSidePrefix, SpaceRunEnd(s, q))
  }

  lemma SpaceRunThenNewSideAtCorrect(s: string, q: nat)
    requires q <= |s|
    ensures SpaceRunThenNewSideAt(s, q) <==> SpaceRunThenNewSide(s, q)
  {
    if SpaceRunThenNewSideAt(s, q) {
      var e := SpaceRunEnd(s, q);
      assert 0 <= q < e && OccursAt(s, NewSidePrefix, e) && AllSpace(s[q..e]);
    }
    if SpaceRunThenNewSide(s, q) {
      var e :| 0 <= q < e && OccursAt(s, NewSidePrefix, e) && AllSpace(s[q..e]);
      assert s[q] == s[q..e][0];
      assert s[e] == s[e..e + |NewSidePrefix|][0] == 'b';
      SpaceRunEndUnique(s, q, e);
    }
  }

  /** The lazy group: the smallest end `>= c` at which `\s+b/` matches,
      extending the group one character at a time until a line break. */
  function LazyGroupEnd(s: string, start: nat, c: nat): (r: Option<nat>)
    requires start <= c <= |s| && '\n' !in s[start..c]
    ensures r.Some? ==> c <= r.value <= |s| && '\n' !in s[start..r.value]
    ensures r.Some? ==> SpaceRunThenNewSide(s, r.value)
    ensures r.Some? ==> forall c' :: c <= c' < r.value ==> !SpaceRunThenNewSide(s, c')
    ensures r.None? ==> forall c' :: c <= c' <= |s| && '\n' !in s[start..c'] ==> !SpaceRunThenNewSide(s, c')
    decreases |s| - c
  {
    SpaceRunThenNewSideAtCorrect(s, c);
    if SpaceRunThenNewSideAt(s, c) then Some(c)
    else if c < |s| && s[c] != '\n' then
      assert s[start..c + 1] == s[start..c] + [s[c]];
      LazyGroupEnd(s, start, c + 1)
    else
      assert forall c' :: c < c' <= |s| ==> s[start..c'][c - start] == s[c];
      None
  }

  /** `re.search(r'a/(.*?)\s+b/', s)` from position `p` on: the start of
      "a/" and the end of the group. */
  function FindHeaderMatch(s: string, p: nat): (r: Option<(nat, nat)>)
    requires p <= |s|
    ensures r.Some? ==> p <= r.value.0 && IsHeaderMatch(s, r.value.0, r.value.1)
    ensures r.Some? ==> forall q, c :: p <= q < r.value.0 ==> !IsHeaderMatch(s, q, c)
    ensures r.Some? ==> forall c :: c < r.value.1 ==> !IsHeaderMatch(s, r.value.0, c)
    ensures r.None? ==> forall q, c :: p <= q ==> !IsHeaderMatch(s, q, c)
    decreases |s| - p
  {
    var here := if OccursAt(s, OldSidePrefix, p) then LazyGroupEnd(s, p + |OldSidePrefix|, p + |OldSidePrefix|) else None;
    if here.Some? then Some((p, here.value))
    else if p == |s| then None
    else FindHeaderMatch(s, p + 1)
  }

  /** `_extract_file_path`: the group of the leftmost `a/(.*?)\s+b/` match,
      returned as is (even when it is empty); failing that, the rest of the
      line after the leftmost "+++ b/", stripped; failing both, "". */
  function ExtractFilePath(s: string): (path: string)
    ensures '\n' !in path
  {
    match FindHeaderMatch(s, 0)
    case Some((p, c)) => s[p + |OldSidePrefix|..c]
    case None =>
      match IndexOf(s, NewFileMarker, 0)
      case Some(i) =>
        var line := s[i + |NewFileMarker|..LineEnd(s, i + |NewFileMarker|)];
        assert '\n' !in Strip(line) by {
          var k := StripIsSlice(line);
          assert forall j :: 0 <= j < |Strip(line)| ==> Strip(line)[j] == line[k + j];
        }
        Strip(line)
      case None => []
  }

  /** ExtractFilePath follows the two patterns in order. First: whenever
      `a/(.*?)\s+b/` matches, the path is the group of the leftmost,
      shortest match, returned as is, even when it is empty. */
  lemma HeaderPatternFirst(s: string)
    requires HasHeaderMatch(s)
    ensures exists p, c :: LeftmostHeaderMatch(s, p, c) && ExtractFilePath(s) == s[p + |OldSidePrefix|..c]
  {
    var p, c := FindHeaderMatch(s, 0).value.0, FindHeaderMatch(s, 0).value.1;
    assert LeftmostHeaderMatch(s, p, c);
  }

  /** Second: with no header match, the path is the rest of the line after
      the leftmost "+++ b/", stripped. */
  lemma NewFileMarkerFallback(s: string, i: nat)
    requires !HasHeaderMatch(s) && LeftmostOccurrence(s, NewFileMarker, i)
    ensures ExtractFilePath(s) == Strip(s[i + |NewFileMarker|..LineEnd(s, i + |NewFileMarker|)])
  {
    assert FindHeaderMatch(s, 0).None?;
    match IndexOf(s, NewFileMarker, 0)
    case Some(j) =>
      assert j == i;
    case None =>
  }

  /** Last: with neither pattern present, the path is "". */
  lemma NoPatternNoPath(s: string)
    requires !HasHeaderMatch(s) && forall i :: !OccursAt(s, NewFileMarker, i)
    ensures ExtractFilePath(s) == []
  {
    assert FindHeaderMatch(s, 0).None?;
    assert IndexOf(s, NewFileMarker, 0).None?;
  }

  /** `\s+b/` can only match at a whitespace character. */
  lemma SpaceRunStartsWithSpace(s: string, q: int)
    requires SpaceRunThenNewSide(s, q)
    ensures 0 <= q < |s| && IsSpace(s[q])
  {
    var e :| 0 <= q < e && OccursAt(s, NewSidePrefix, e) && AllSpace(s[q..e]);
    assert s[q..e][0] == s[q];
  }

  /** A header match with no "a/" before it and no earlier place where
      `\s+b/` could match is the one `re.search` reports. */
  lemma FirstHeaderMatch(s: string, p: nat, c: nat)
    requires IsHeaderMatch(s, p, c)
    requires forall q :: 0 <= q < p ==> !OccursAt(s, OldSidePrefix, q)
    requires forall c' :: p + |OldSidePrefix| <= c' < c ==> !SpaceRunThenNewSide(s, c')
    ensures ExtractFilePath(s) == s[p + |OldSidePrefix|..c]
  {
    assert FindHeaderMatch(s, 0) == Some((p, c));
  }

  /** The usual header line: in `pre + "a/" + path + gap + "b/" + rest`, with
      no 'a' before the header, no whitespace in `path` and a whitespace
      gap, the extracted path is `path` itself. */
  lemma HeaderPath(pre: string, path: string, gap: string, rest: string)
    requires 'a' !in pre
    requires forall k :: 0 <= k < |path| ==> !IsSpace(path[k])
    requires gap != [] && AllSpace(gap)
    ensures ExtractFilePath(pre + OldSidePrefix + path + gap + NewSidePrefix + rest) == path
  {
    var s := pre + OldSidePrefix + path + gap + NewSidePrefix + rest;
    var p, c := |pre|, |pre| + |OldSidePrefix| + |path|;
    assert s[p..p + |OldSidePrefix|] == OldSidePrefix;
    assert s[c + |gap|..c + |gap| + |NewSidePrefix|] == NewSidePrefix;
    assert s[c..c + |gap|] == gap;
    assert s[p + |OldSidePrefix|..c] == path;
    assert IsHeaderMatch(s, p, c);
    forall q | 0 <= q < p ensures !OccursAt(s, OldSidePrefix, q) {
      assert s[q] == pre[q];
    }
    forall c' | p + |OldSidePrefix| <= c' < c ensures !SpaceRunThenNewSide(s, c') {
      assert s[c'] == path[c' - p - |OldSidePrefix|];
      if SpaceRunThenNewSide(s, c') {
        SpaceRunStartsWithSpace(s, c');
      }
    }
    FirstHeaderMatch(s, p, c);
  }

  /** Without an 'a' there is no "a/" to start a header match. */
  lemma NoHeaderWithoutA(s: string)
    requires 'a' !in s
    ensures !HasHeaderMatch(s)
  {
    forall p | 0 <= p < |s| ensures !OccursAt(s, OldSidePrefix, p) {
      assert s[p] in s;
    }
  }

  /** A "+++ b/" that starts a line, with none before it, is the leftmost. */
  lemma MarkerFirstAt(pre: string, rest: string)
    requires forall j :: !OccursAt(pre, NewFileMarker, j)
    requires pre == [] || pre[|pre| - 1] == '\n'
    ensures LeftmostOccurrence(pre + NewFileMarker + rest, NewFileMarker, |pre|)
  {
    var s, i := pre + NewFileMarker + rest, |pre|;
    assert s[i..i + |NewFileMarker|] == NewFileMarker;
    assert '\n' !in NewFileMarker;
    forall q | 0 <= q < i && OccursAt(s, NewFileMarker, q) ensures false {
      if q + |NewFileMarker| <= i {
        assert s[q..q + |NewFileMarker|] == pre[q..q + |NewFileMarker|];
        assert OccursAt(pre, NewFileMarker, q);
      }
    }
  }

  /** A section without an "a/ ... b/" header whose first "+++ b/" starts
      a line: the path is the rest of that line, stripped. */
  lemma MarkerPath(pre: string, line: string, tail: string)
    requires !HasHeaderMatch(pre + NewFileMarker + line + tail)
    requires forall j :: !OccursAt(pre, NewFileMarker, j)
    requires pre == [] || pre[|pre| - 1] == '\n'
    requires '\n' !in line
    requires tail == [] || tail[0] == '\n'
    ensures ExtractFilePath(pre + NewFileMarker + line + tail) == Strip(line)
  {
    var s := pre + NewFileMarker + line + tail;
    var i, e := |pre|, |pre| + |NewFileMarker| + |line|;
    assert s == pre + NewFileMarker + (line + tail);
    MarkerFirstAt(pre, line + tail);
    assert s[i + |NewFileMarker|..e] == line;
    assert e == |s| || s[e] == tail[0];
    LineEndUnique(s, i + |NewFileMarker|, e);
    NewFileMarkerFallback(s, i);
  }

  /** The first pattern wins even when its group is empty: when the match
      `re.search` reports has an empty group, the path is "" and the section
      is dropped, whatever "+++ b/" line follows. */
  lemma EmptyHeaderGroupDropsSection(s: string, p: nat)
    requires LeftmostHeaderMatch(s, p, p + |OldSidePrefix|)
    ensures ExtractFilePath(s) == []
    ensures ParseSection(s).None?
  {
    HeaderPatternFirst(s);
    var p', c' :| LeftmostHeaderMatch(s, p', c') && ExtractFilePath(s) == s[p' + |OldSidePrefix|..c'];
    assert p' == p && c' == p + |OldSidePrefix|;
    ParseSectionIff(s);
  }

  /** The usual shape of an empty group: "a/", whitespace, "b/", with no 'a'
      before them. */
  lemma EmptyHeaderLine(pre: string, gap: string, rest: string)
    requires 'a' !in pre
    requires gap != [] && AllSpace(gap)
    ensures ParseSection(pre + OldSidePrefix + gap + NewSidePrefix + rest).None?
  {
    HeaderPath(pre, [], gap, rest);
    assert pre + OldSidePrefix + [] + gap == pre + OldSidePrefix + gap;
    ParseSectionIff(pre + OldSidePrefix + gap + NewSidePrefix + rest);
  }

  /** A "+++ b/" line holding only whitespace after the marker gives the
      empty path too, so such a section is dropped. */
  lemma BlankMarkerLineDropsSection(pre: string, line: string, tail: string)
    requires !HasHeaderMatch(pre + NewFileMarker + line + tail)
    requires forall j :: !OccursAt(pre, NewFileMarker, j)
    requires pre == [] || pre[|pre| - 1] == '\n'
    requires '\n' !in line && AllSpace(line)
    requires tail == [] || tail[0] == '\n'
    ensures ExtractFilePath(pre + NewFileMarker + line + tail) == []
    ensures ParseSection(pre + NewFileMarker + line + tail).None?
  {
    MarkerPath(pre, line, tail);
    ParseSectionIff(pre + NewFileMarker + line + tail);
  }

  /** A path is only ever found in a section with a non-blank character
      ('a' or '+'), so the blank-section test never drops a section that
      has a path. */
  lemma PathImpliesNotBlank(s: string)
    requires ExtractFilePath(s) != []
    ensures Strip(s) != []
  {
    match FindHeaderMatch(s, 0)
    case Some((p, c)) =>
      assert s[p] == s[p..p + |OldSidePrefix|][0] == 'a';
    case None =>
      var i := IndexOf(s, NewFileMarker, 0).value;
      assert s[i] == s[i..i + |NewFileMarker|][0] == '+';
  }

  // ---------------------------------------------------------------------
  // Line classification

  /** What one line of a section contributes. */
  datatype LineKind = Ignored | Added(text: string) | Deleted(text: string)

  predicate IsFileMarker(line: string) {
    StartsWith(line, "+++") || StartsWith(line, "---")
  }

  predicate IsHunkHeader(line: string) {
    StartsWith(line, "@@")
  }

  /** The if/elif chain of `_extract_changes`, for one line. */
  function Classify(line: string): LineKind {
    if IsFileMarker(line) || IsHunkHeader(line) then Ignored
    else if StartsWith(line, "+") then Added(Strip(line[1..]))
    else if StartsWith(line, "-") then Deleted(Strip(line[1..]))
    else Ignored
  }

  /** `file_diff.split('\n')` */
  function Lines(s: string): (lines: seq<string>)
    ensures lines != [] && Join(lines, "\n") == s
    ensures forall i :: 0 <= i < |lines| ==> '\n' !in lines[i]
  {
    var lines := Split(s, "\n");
    forall i, k | 0 <= i < |lines| && 0 <= k < |lines[i]| ensures lines[i][k] != '\n' {
      assert !OccursAt(lines[i], "\n", k);
    }
    lines
  }

  /** What one line adds to the additions list: its text if it is an addition. */
  function LineAdditions(line: string): seq<string> {
    match Classify(line)
    case Added(text) => [text]
    case _ => []
  }

  /** What one line adds to the deletions list: its text if it is a deletion. */
  function LineDeletions(line: string): seq<string> {
    match Classify(line)
    case Deleted(text) => [text]
    case _ => []
  }

  /** The additions recorded for `lines`, in order. */
  function AdditionsOf(lines: seq<string>): seq<string> {
    if lines == [] then [] else AdditionsOf(lines[..|lines| - 1]) + LineAdditions(lines[|lines| - 1])
  }

  /** The deletions recorded for `lines`, in order. */
  function DeletionsOf(lines: seq<string>): seq<string> {
    if lines == [] then [] else DeletionsOf(lines[..|lines| - 1]) + LineDeletions(lines[|lines| - 1])
  }

  /** `_extract_changes`: one pass over the lines, appending to two lists. */
  method ExtractChanges(fileDiff: string) returns (additions: seq<string>, deletions: seq<string>)
    ensures additions == AdditionsOf(Lines(fileDiff))
    ensures deletions == DeletionsOf(Lines(fileDiff))
  {
    additions, deletions := [], [];
    var lines := Split(fileDiff, "\n");
    for i := 0 to |lines|
      invariant additions == AdditionsOf(lines[..i])
      invariant deletions == DeletionsOf(lines[..i])
    {
      var line := lines[i];
      ChangesStep(lines, i);
      LineRules(line);
      if StartsWith(line, "+++") || StartsWith(line, "---") {
        continue;
      }
      if StartsWith(line, "@@") {
        continue;
      }
      if StartsWith(line, "+") {
        additions := additions + [Strip(line[1..])];
      } else if StartsWith(line, "-") {
        deletions := deletions + [Strip(line[1..])];
      }
    }
    assert lines[..|lines|] == lines;
  }

  /** The lines up to and including line `i` contribute what the lines
      before it do, then what line `i` does. */
  lemma ChangesStep(lines: seq<string>, i: nat)
    requires i < |lines|
    ensures AdditionsOf(lines[..i + 1]) == AdditionsOf(lines[..i]) + LineAdditions(lines[i])
    ensures DeletionsOf(lines[..i + 1]) == DeletionsOf(lines[..i]) + LineDeletions(lines[i])
  {
    assert lines[..i + 1][..i] == lines[..i];
  }

  /** Order is kept: the lines of a concatenation contribute the additions
      and deletions of the first part, then those of the second. */
  lemma {:induction false} ChangesOfAppend(a: seq<string>, b: seq<string>)
    ensures AdditionsOf(a + b) == AdditionsOf(a) + AdditionsOf(b)
    ensures DeletionsOf(a + b) == DeletionsOf(a) + DeletionsOf(b)
    decreases |b|
  {
    if b != [] {
      var b' := b[..|b| - 1];
      ChangesOfAppend(a, b');
      assert (a + b)[..|a + b| - 1] == a + b';
      assert (a + b)[|a + b| - 1] == b[|b| - 1];
      assert AdditionsOf(a + b) == AdditionsOf(a) + AdditionsOf(b') + LineAdditions(b[|b| - 1]);
      assert DeletionsOf(a + b) == DeletionsOf(a) + DeletionsOf(b') + LineDeletions(b[|b| - 1]);
    } else {
      assert a + b == a;
    }
  }

  /** Wherever a line sits, it contributes its own additions and deletions
      between those of the lines before it and those of the lines after it,
      and nothing else. */
  lemma LineContribution(before: seq<string>, line: string, after: seq<string>)
    ensures AdditionsOf(before + [line] + after) == AdditionsOf(before) + LineAdditions(line) + AdditionsOf(after)
    ensures DeletionsOf(before + [line] + after) == DeletionsOf(before) + LineDeletions(line) + DeletionsOf(after)
  {
    ChangesOfAppend(before, [line]);
    ChangesOfAppend(before + [line], after);
    assert [line][..0] == [];
  }

  /** The if/elif chain for one line: file markers ("+++", "---") and hunk
      headers ("@@") are never recorded, even though "+++" starts with "+"
      and "---" with "-"; any other "+" line is an addition of its stripped
      remainder, any other "-" line a deletion; every other line is ignored. */
  lemma LineRules(line: string)
    ensures IsFileMarker(line) || IsHunkHeader(line) ==> LineAdditions(line) == [] && LineDeletions(line) == []
    ensures !IsFileMarker(line) && StartsWith(line, "+") ==>
      LineAdditions(line) == [Strip(line[1..])] && LineDeletions(line) == []
    ensures !IsFileMarker(line) && StartsWith(line, "-") ==>
      LineAdditions(line) == [] && LineDeletions(line) == [Strip(line[1..])]
    ensures !StartsWith(line, "+") && !StartsWith(line, "-") ==> LineAdditions(line) == [] && LineDeletions(line) == []
  {
    assert |line| >= 2 ==> line[..2][0] == line[0];
    assert |line| >= 3 ==> line[..3][0] == line[0];
    assert |line| >= 1 ==> line[..1][0] == line[0];
  }

  /** The additions and deletions together are never more than the lines. */
  lemma {:induction false} ChangesBound(lines: seq<string>)
    ensures |AdditionsOf(lines)| + |DeletionsOf(lines)| <= |lines|
    decreases |lines|
  {
    if lines != [] {
      ChangesBound(lines[..|lines| - 1]);
    }
  }

  // ---------------------------------------------------------------------
  // Sections and the whole diff

  /** The body of the `for file_diff in file_diffs` loop: the record a
      section yields, if any. */
  function ParseSection(section: string): Option<FileChange> {
    if Strip(section) == [] then None
    else
      var path := ExtractFilePath(section);
      if path == [] then None
      else
        var lines := Lines(section);
        var additions, deletions := AdditionsOf(lines), DeletionsOf(lines);
        Some(FileChange(path, additions, deletions, |additions|, |deletions|,
                        ChangeSummary(|additions|, |deletions|)))
  }

  /** The records of `sections`, in section order. */
  function ParseSections(sections: seq<string>): seq<FileChange> {
    if sections == [] then []
    else
      var last := ParseSection(sections[|sections| - 1]);
      ParseSections(sections[..|sections| - 1]) + (if last.Some? then [last.value] else [])
  }

  /** `parse_diff`, as a value. */
  function Parse(diffText: string): seq<FileChange> {
    if Strip(diffText) == [] then [] else ParseSections(Split(diffText, FileSeparator))
  }

  /** A section yields a record exactly when a non-empty path can be
      extracted from it, and that record is well formed. */
  lemma ParseSectionIff(section: string)
    ensures ParseSection(section).Some? <==> ExtractFilePath(section) != []
    ensures ParseSection(section).Some? ==> WellFormed(ParseSection(section).value)
    ensures ParseSection(section).Some? ==> ParseSection(section).value.filePath == ExtractFilePath(section)
  {
    if ExtractFilePath(section) != [] {
      PathImpliesNotBlank(section);
    }
  }

  /** One more section adds its record, if any, at the end. */
  lemma ParseSectionsStep(sections: seq<string>, i: nat)
    requires i < |sections|
    ensures ParseSections(sections[..i + 1]) == ParseSections(sections[..i])
      + (if ParseSection(sections[i]).Some? then [ParseSection(sections[i]).value] else [])
  {
    assert sections[..i + 1][..i] == sections[..i];
  }

  /** Section order is result order. */
  lemma {:induction false} ParseSectionsAppend(a: seq<string>, b: seq<string>)
    ensures ParseSections(a + b) == ParseSections(a) + ParseSections(b)
    decreases |b|
  {
    if b != [] {
      var b' := b[..|b| - 1];
      ParseSectionsAppend(a, b');
      assert (a + b)[..|a + b| - 1] == a + b';
    } else {
      assert a + b == a;
    }
  }

  /** At most one record per section, and every record well formed. */
  lemma {:induction false} ParseSectionsSound(sections: seq<string>)
    ensures |ParseSections(sections)| <= |sections|
    ensures forall i :: 0 <= i < |ParseSections(sections)| ==> WellFormed(ParseSections(sections)[i])
    decreases |sections|
  {
    if sections != [] {
      ParseSectionsSound(sections[..|sections| - 1]);
      ParseSectionIff(sections[|sections| - 1]);
    }
  }

  /** What `parse_diff` promises of every result. */
  lemma ParseSound(diffText: string)
    ensures AllSpace(diffText) ==> Parse(diffText) == []
    ensures |Parse(diffText)| <= |Split(diffText, FileSeparator)|
    ensures forall i :: 0 <= i < |Parse(diffText)| ==> WellFormed(Parse(diffText)[i])
  {
    ParseSectionsSound(Split(diffText, FileSeparator));
  }

  /** The early return for blank input changes nothing: a blank text is a
      single blank section, which the loop would skip anyway. */
  lemma BlankTextHasNoRecords(diffText: string)
    requires AllSpace(diffText)
    ensures ParseSections(Split(diffText, FileSeparator)) == []
  {
    forall j | 0 <= j && j + |FileSeparator| <= |diffText| ensures !OccursAt(diffText, FileSeparator, j) {
      assert diffText[j..j + |FileSeparator|][1] == diffText[j + 1];
      assert IsSpace(diffText[j + 1]);
    }
    assert IndexOf(diffText, FileSeparator, 0).None?;
    assert Split(diffText, FileSeparator) == [diffText];
    assert [diffText][..0] == [];
  }

  /** The separator's line break does not recur in it, so occurrences of
      the separator cannot overlap. */
  lemma SeparatorStartsOnce()
    ensures FileSeparator[0] !in FileSeparator[1..]
  {
    assert FileSeparator[1..] == "diff --git";
  }

  /** `re.split(r'\ndiff --git', ...)` gives back sections that were joined
      by the separator, provided none of them contains it. */
  lemma SectionsSplitBack(sections: seq<string>)
    requires sections != []
    requires forall i, j :: 0 <= i < |sections| ==> !OccursAt(sections[i], FileSeparator, j)
    ensures Split(Join(sections, FileSeparator), FileSeparator) == sections
  {
    SeparatorStartsOnce();
    SplitJoin(sections, FileSeparator);
  }

  /** Sections free of the separator, joined by it, are parsed back section
      by section, in order. */
  lemma ParseJoinedSections(sections: seq<string>)
    requires sections != []
    requires forall i, j :: 0 <= i < |sections| ==> !OccursAt(sections[i], FileSeparator, j)
    ensures Parse(Join(sections, FileSeparator)) == ParseSections(sections)
  {
    var text := Join(sections, FileSeparator);
    SectionsSplitBack(sections);
    if AllSpace(text) {
      BlankTextHasNoRecords(text);
    }
  }

  /** `parse_diff` */
  method ParseDiff(diffText: string) returns (parsedFiles: seq<FileChange>)
    ensures parsedFiles == Parse(diffText)
    ensures forall i :: 0 <= i < |parsedFiles| ==> WellFormed(parsedFiles[i])
  {
    if Strip(diffText) == [] {
      return [];
    }
    var fileDiffs := Split(diffText, FileSeparator);
    parsedFiles := [];
    for i := 0 to |fileDiffs|
      invariant parsedFiles == ParseSections(fileDiffs[..i])
    {
      var fileDiff := fileDiffs[i];
      ParseSectionsStep(fileDiffs, i);
      if Strip(fileDiff) == [] {
        continue;
      }
      var filePath := ExtractFilePath(fileDiff);
      if filePath == [] {
        continue;
      }
      var additions, deletions := ExtractChanges(fileDiff);
      parsedFiles := parsedFiles + [FileChange(filePath, additions, deletions, |additions|, |deletions|,
                                               ChangeSummary(|additions|, |deletions|))];
    }
    assert fileDiffs[..|fileDiffs|] == fileDiffs;
    ParseSound(diffText);
  }

  // ---------------------------------------------------------------------
  // Summary

  /** `sum(f['addition_count'] for f in files)` */
  function TotalAdditions(files: seq<FileChange>): nat {
    if files == [] then 0 else TotalAdditions(files[..|files| - 1]) + files[|files| - 1].additionCount
  }

  /** `sum(f['deletion_count'] for f in files)` */
  function TotalDeletions(files: seq<FileChange>): nat {
    if files == [] then 0 else TotalDeletions(files[..|files| - 1]) + files[|files| - 1].deletionCount
  }

  /** `f"{n} file(s) changed: {a} addition(s), {d} deletion(s)"` */
  function SummaryLine(files: nat, additions: nat, deletions: nat): string {
    NatToString(files) + (" file(s) changed: " + (NatToString(additions) + (" addition(s), "
    + (NatToString(deletions) + " deletion(s)"))))
  }

  /** `get_summary` */
  function GetSummary(diffText: string): (r: string)
    ensures r == NoChangesMessage <==> Parse(diffText) == []
  {
    var parsed := Parse(diffText);
    if parsed == [] then NoChangesMessage
    else
      var r := SummaryLine(|parsed|, TotalAdditions(parsed), TotalDeletions(parsed));
      assert r[0] == NatToString(|parsed|)[0];
      r
  }

  /** The summary line determines the file count and both totals. */
  lemma SummaryLineInjective(n: nat, a: nat, d: nat, n': nat, a': nat, d': nat)
    requires SummaryLine(n, a, d) == SummaryLine(n', a', d')
    ensures n == n' && a == a' && d == d'
  {
    var rest, rest' := NatToString(d) + " deletion(s)", NatToString(d') + " deletion(s)";
    var mid, mid' := NatToString(a) + (" addition(s), " + rest), NatToString(a') + (" addition(s), " + rest');
    NatToStringPrefixUnique(n, n', " file(s) changed: " + mid, " file(s) changed: " + mid');
    PrefixCancel(" file(s) changed: ", mid, mid');
    NatToStringPrefixUnique(a, a', " addition(s), " + rest, " addition(s), " + rest');
    PrefixCancel(" addition(s), ", rest, rest');
    NatToStringPrefixUnique(d, d', " deletion(s)", " deletion(s)");
  }

  /** Totals add up over concatenated results. */
  lemma {:induction false} TotalsAppend(a: seq<FileChange>, b: seq<FileChange>)
    ensures TotalAdditions(a + b) == TotalAdditions(a) + TotalAdditions(b)
    ensures TotalDeletions(a + b) == TotalDeletions(a) + TotalDeletions(b)
    decreases |b|
  {
    if b != [] {
      var b' := b[..|b| - 1];
      TotalsAppend(a, b');
      assert (a + b)[..|a + b| - 1] == a + b';
    } else {
      assert a + b == a;
    }
  }

  /** The number of recorded addition lines, over the lists themselves. */
  function AdditionLines(files: seq<FileChange>): nat {
    if files == [] then 0 else AdditionLines(files[..|files| - 1]) + |files[|files| - 1].additions|
  }

  /** The number of recorded deletion lines, over the lists themselves. */
  function DeletionLines(files: seq<FileChange>): nat {
    if files == [] then 0 else DeletionLines(files[..|files| - 1]) + |files[|files| - 1].deletions|
  }

  /** Over a parse result, the summed count fields are the numbers of
      recorded lines: the totals never drift from the lists. */
  lemma {:induction false} TotalsCountLines(files: seq<FileChange>)
    requires forall i :: 0 <= i < |files| ==> WellFormed(files[i])
    ensures TotalAdditions(files) == AdditionLines(files)
    ensures TotalDeletions(files) == DeletionLines(files)
    decreases |files|
  {
    if files != [] {
      TotalsCountLines(files[..|files| - 1]);
      assert WellFormed(files[|files| - 1]);
    }
  }

  /** What `get_summary` reports for a non-empty result: its file count and
      the numbers of recorded addition and deletion lines. */
  lemma SummaryReportsRecordedLines(diffText: string)
    requires Parse(diffText) != []
    ensures GetSummary(diffText) ==
      SummaryLine(|Parse(diffText)|, AdditionLines(Parse(diffText)), DeletionLines(Parse(diffText)))
  {
    ParseSound(diffText);
    TotalsCountLines(Parse(diffText));
  }
}
