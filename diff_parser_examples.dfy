/** The sample diff of the parser module's demo block, worked through the
    model. The sample has one section: a `diff --git` header, an index
    line, the `---`/`+++` markers, a hunk header, a context line, one
    deletion, two additions and the empty line after the final line break.
    The lemmas are stated for every diff of that shape (any path without
    whitespace, any trimmed line texts) and then applied to the demo's own
    texts, which give `src/main.py` with "+2, -1". */
module DiffParserExamples {
  import opened Strings
  import opened DiffParser

  const Indent: string := "    "

  /** A path with no whitespace, as `a/(.*?)\s+b/` captures it whole. */
  predicate NoSpace(text: string) {
    forall k :: 0 <= k < |text| ==> !IsSpace(text[k])
  }

  /** One line of text that neither starts nor ends with whitespace. */
  predicate Trimmed(text: string) {
    text != [] && !IsSpace(text[0]) && !IsSpace(text[|text| - 1]) && '\n' !in text
  }

  function HeaderLine(path: string): string {
    "diff --git " + OldSidePrefix + path + " " + NewSidePrefix + path
  }

  /** The lines of the section before its first body change. */
  function Preamble(path: string): seq<string> {
    [HeaderLine(path), "index 1234567..abcdefg 100644", "--- " + OldSidePrefix + path,
     NewFileMarker + path, "@@ -1,3 +1,4 @@", " def hello():"]
  }

  /** The body lines: a deletion, two additions, and the empty line after
      the final line break. */
  function Body(gone: string, first: string, second: string): seq<string> {
    ["-" + Indent + gone, "+" + Indent + first, "+" + Indent + second, ""]
  }

  function DemoLines(path: string, gone: string, first: string, second: string): seq<string> {
    Preamble(path) + Body(gone, first, second)
  }

  /** A diff shaped like the demo's `sample_diff`. */
  function DemoDiff(path: string, gone: string, first: string, second: string): string {
    Join(DemoLines(path, gone, first, second), "\n")
  }

  // ---------------------------------------------------------------------
  // Splitting

  /** Lines that hold no line break are what Split cuts a joined text into. */
  lemma LinesOfJoin(lines: seq<string>)
    requires lines != []
    requires forall i :: 0 <= i < |lines| ==> '\n' !in lines[i]
    ensures Lines(Join(lines, "\n")) == lines
  {
    assert forall i, j :: 0 <= i < |lines| ==> !OccursAt(lines[i], "\n", j);
    SplitJoin(lines, "\n");
  }

  /** An occurrence of the separator past the first line break is one in
      the text after it. */
  lemma TailOccurrences(first: string, rest: string)
    ensures forall j :: j > |first| && OccursAt(first + "\n" + rest, FileSeparator, j) ==>
      OccursAt(rest, FileSeparator, j - |first| - 1)
  {
    var s := first + "\n" + rest;
    forall j | j > |first| && OccursAt(s, FileSeparator, j)
      ensures OccursAt(rest, FileSeparator, j - |first| - 1)
    {
      var k := j - |first| - 1;
      assert s[j..j + |FileSeparator|] == rest[k..k + |FileSeparator|];
    }
  }

  /** Joined lines, none of which holds a line break and none after the
      first of which starts with 'd', hold no "\ndiff --git": the text is a
      single section. */
  lemma {:induction false} NoSeparatorInJoin(lines: seq<string>)
    requires lines != []
    requires forall i :: 0 <= i < |lines| ==> '\n' !in lines[i]
    requires forall i :: 1 <= i < |lines| ==> lines[i] == [] || lines[i][0] != 'd'
    ensures forall j :: !OccursAt(Join(lines, "\n"), FileSeparator, j)
    decreases |lines|
  {
    var s := Join(lines, "\n");
    var first := lines[0];
    forall j | OccursAt(s, FileSeparator, j) ensures s[j] == '\n' && s[j + 1] == 'd' {
      assert s[j..j + |FileSeparator|][0] == s[j] && s[j..j + |FileSeparator|][1] == s[j + 1];
    }
    if |lines| == 1 {
      assert s == first;
    } else {
      var rest := Join(lines[1..], "\n");
      NoSeparatorInJoin(lines[1..]);
      assert s == first + "\n" + rest;
      if |lines| == 2 {
        assert rest == lines[1];
      } else {
        assert rest == lines[1] + "\n" + Join(lines[2..], "\n");
      }
      assert forall k :: 0 <= k < |first| ==> s[k] == first[k];
      assert |first| + 1 < |s| ==> s[|first| + 1] == rest[0];
      TailOccurrences(first, rest);
    }
  }

  /** No preamble line holds a line break, and none after the header
      starts with 'd'. */
  lemma PreambleShape(path: string)
    requires NoSpace(path)
    ensures forall i :: 0 <= i < |Preamble(path)| ==> '\n' !in Preamble(path)[i]
    ensures forall i :: 1 <= i < |Preamble(path)| ==> Preamble(path)[i][0] != 'd'
  {
    assert '\n' !in path;
  }

  /** No body line holds a line break or starts with 'd'. */
  lemma BodyShape(gone: string, first: string, second: string)
    requires Trimmed(gone) && Trimmed(first) && Trimmed(second)
    ensures forall i :: 0 <= i < |Body(gone, first, second)| ==> '\n' !in Body(gone, first, second)[i]
    ensures forall i :: 0 <= i < |Body(gone, first, second)| ==>
      Body(gone, first, second)[i] == [] || Body(gone, first, second)[i][0] != 'd'
  {
  }

  /** The demo's lines hold no line break, and none after the header starts
      with 'd'. */
  lemma DemoLinesShape(path: string, gone: string, first: string, second: string)
    requires NoSpace(path) && Trimmed(gone) && Trimmed(first) && Trimmed(second)
    ensures forall i :: 0 <= i < |DemoLines(path, gone, first, second)| ==> '\n' !in DemoLines(path, gone, first, second)[i]
    ensures forall i :: 1 <= i < |DemoLines(path, gone, first, second)| ==>
      DemoLines(path, gone, first, second)[i] == [] || DemoLines(path, gone, first, second)[i][0] != 'd'
  {
    var pre, body := Preamble(path), Body(gone, first, second);
    PreambleShape(path);
    BodyShape(gone, first, second);
    assert forall i :: 0 <= i < |pre| ==> (pre + body)[i] == pre[i];
    assert forall i :: |pre| <= i < |pre + body| ==> (pre + body)[i] == body[i - |pre|];
  }

  // ---------------------------------------------------------------------
  // The path

  lemma Regroup(x: string, y: string, z: string, w: string)
    ensures x + y + z + w == x + (y + z + w)
  {
  }

  /** The header line supplies the path. */
  lemma DemoPath(path: string, gone: string, first: string, second: string)
    requires NoSpace(path)
    ensures ExtractFilePath(DemoDiff(path, gone, first, second)) == path
  {
    var lines := DemoLines(path, gone, first, second);
    var rest := Join(lines[1..], "\n");
    assert lines[0] == HeaderLine(path);
    assert DemoDiff(path, gone, first, second) == HeaderLine(path) + "\n" + rest;
    var pre := "diff --git ";
    Regroup(pre + OldSidePrefix + path + " " + NewSidePrefix, path, "\n", rest);
    HeaderPath(pre, path, " ", path + "\n" + rest);
  }

  // ---------------------------------------------------------------------
  // The changes

  /** A line contributes nothing when it is recorded on neither side. */
  predicate Unrecorded(line: string) {
    LineAdditions(line) == [] && LineDeletions(line) == []
  }

  /** Lines that are each recorded on neither side record nothing together. */
  lemma {:induction false} NothingRecorded(lines: seq<string>)
    requires forall i :: 0 <= i < |lines| ==> Unrecorded(lines[i])
    ensures AdditionsOf(lines) == [] && DeletionsOf(lines) == []
    decreases |lines|
  {
    if lines != [] {
      NothingRecorded(lines[..|lines| - 1]);
    }
  }

  /** The header, index, marker, hunk-header and context lines are ignored. */
  lemma PreambleUnrecorded(path: string)
    ensures forall i :: 0 <= i < |Preamble(path)| ==> Unrecorded(Preamble(path)[i])
  {
    forall i | 0 <= i < |Preamble(path)| ensures Unrecorded(Preamble(path)[i]) {
      var line := Preamble(path)[i];
      LineRules(line);
      if i == 2 {
        assert line[..3] == "---";
      } else if i == 3 {
        assert line[..3] == "+++";
      } else if i == 4 {
        assert line[..2] == "@@";
      } else {
        assert line[0] != '+' && line[0] != '-';
      }
    }
  }

  /** A body line: its marker, the indentation, then trimmed text; it is
      recorded as that text, on the side its marker names. */
  lemma RecordedLine(marker: string, text: string)
    requires marker == "+" || marker == "-"
    requires Trimmed(text)
    ensures marker == "+" ==> LineAdditions(marker + Indent + text) == [text] && LineDeletions(marker + Indent + text) == []
    ensures marker == "-" ==> LineAdditions(marker + Indent + text) == [] && LineDeletions(marker + Indent + text) == [text]
  {
    var line := marker + Indent + text;
    assert line[1..] == Indent + text + [];
    assert AllSpace(Indent);
    StripUnique(Indent, text, []);
    assert line[..1] == marker;
    assert line[1] == ' ';
    assert !IsFileMarker(line) && !IsHunkHeader(line) by {
      assert line[..2][1] == ' ';
    }
    LineRules(line);
  }

  /** One step of the scan, with what the lines before add and what the
      line adds already known. */
  lemma AddStep(lines: seq<string>, i: nat, before: seq<string>, here: seq<string>)
    requires i < |lines| && AdditionsOf(lines[..i]) == before && LineAdditions(lines[i]) == here
    ensures AdditionsOf(lines[..i + 1]) == before + here
  {
    ChangesStep(lines, i);
  }

  /** One step of the scan, with what the lines before delete and what the
      line deletes already known. */
  lemma DeleteStep(lines: seq<string>, i: nat, before: seq<string>, here: seq<string>)
    requires i < |lines| && DeletionsOf(lines[..i]) == before && LineDeletions(lines[i]) == here
    ensures DeletionsOf(lines[..i + 1]) == before + here
  {
    ChangesStep(lines, i);
  }

  /** Four lines, each adding as stated, add the two texts in order. */
  lemma FourLinesAdd(lines: seq<string>, first: string, second: string)
    requires |lines| == 4
    requires LineAdditions(lines[0]) == [] && LineAdditions(lines[1]) == [first]
    requires LineAdditions(lines[2]) == [second] && LineAdditions(lines[3]) == []
    ensures AdditionsOf(lines) == [first, second]
  {
    assert lines[..0] == [];
    AddStep(lines, 0, [], []);
    AddStep(lines, 1, [], [first]);
    AddStep(lines, 2, [first], [second]);
    AddStep(lines, 3, [first, second], []);
    assert lines[..4] == lines;
  }

  /** Four lines, each deleting as stated, delete the one text. */
  lemma FourLinesDelete(lines: seq<string>, gone: string)
    requires |lines| == 4
    requires LineDeletions(lines[0]) == [gone] && LineDeletions(lines[1]) == []
    requires LineDeletions(lines[2]) == [] && LineDeletions(lines[3]) == []
    ensures DeletionsOf(lines) == [gone]
  {
    assert lines[..0] == [];
    DeleteStep(lines, 0, [], [gone]);
    DeleteStep(lines, 1, [gone], []);
    DeleteStep(lines, 2, [gone], []);
    DeleteStep(lines, 3, [gone], []);
    assert lines[..4] == lines;
  }

  /** The body adds its two texts, in order. */
  lemma BodyAdditions(gone: string, first: string, second: string)
    requires Trimmed(gone) && Trimmed(first) && Trimmed(second)
    ensures AdditionsOf(Body(gone, first, second)) == [first, second]
  {
    RecordedLine("-", gone);
    RecordedLine("+", first);
    RecordedLine("+", second);
    assert Unrecorded("");
    FourLinesAdd(Body(gone, first, second), first, second);
  }

  /** The body deletes its one text. */
  lemma BodyDeletions(gone: string, first: string, second: string)
    requires Trimmed(gone) && Trimmed(first) && Trimmed(second)
    ensures DeletionsOf(Body(gone, first, second)) == [gone]
  {
    RecordedLine("-", gone);
    RecordedLine("+", first);
    RecordedLine("+", second);
    assert Unrecorded("");
    FourLinesDelete(Body(gone, first, second), gone);
  }

  /** What `_extract_changes` finds in the demo's section. */
  lemma DemoChanges(path: string, gone: string, first: string, second: string)
    requires NoSpace(path) && Trimmed(gone) && Trimmed(first) && Trimmed(second)
    ensures AdditionsOf(Lines(DemoDiff(path, gone, first, second))) == [first, second]
    ensures DeletionsOf(Lines(DemoDiff(path, gone, first, second))) == [gone]
  {
    DemoLinesShape(path, gone, first, second);
    LinesOfJoin(DemoLines(path, gone, first, second));
    PreambleUnrecorded(path);
    NothingRecorded(Preamble(path));
    BodyAdditions(gone, first, second);
    BodyDeletions(gone, first, second);
    ChangesOfAppend(Preamble(path), Body(gone, first, second));
  }

  // ---------------------------------------------------------------------
  // The whole diff

  /** The record's summary text for two additions and one deletion. */
  lemma DemoChangeSummary()
    ensures ChangeSummary(2, 1) == "+2, -1"
  {
    assert NatToString(1) == "1";
    assert NatToString(2) == "2";
  }

  /** `parse_diff` of a demo-shaped diff: one record, for the header's
      path, with the two additions, the deletion and "+2, -1". */
  lemma DemoParsed(path: string, gone: string, first: string, second: string)
    requires path != [] && NoSpace(path) && Trimmed(gone) && Trimmed(first) && Trimmed(second)
    ensures Parse(DemoDiff(path, gone, first, second)) == [FileChange(path, [first, second], [gone], 2, 1, "+2, -1")]
  {
    var s := DemoDiff(path, gone, first, second);
    DemoLinesShape(path, gone, first, second);
    NoSeparatorInJoin(DemoLines(path, gone, first, second));
    assert Join([s], FileSeparator) == s;
    ParseJoinedSections([s]);
    DemoPath(path, gone, first, second);
    DemoChanges(path, gone, first, second);
    ParseSectionIff(s);
    DemoChangeSummary();
    assert [s][..0] == [];
  }

  /** A diff that yields one record is summarised by that record's counts. */
  lemma SummaryOfOne(diffText: string, record: FileChange)
    requires Parse(diffText) == [record]
    ensures GetSummary(diffText) == SummaryLine(1, record.additionCount, record.deletionCount)
  {
    assert [record][..0] == [];
    assert TotalAdditions([record]) == record.additionCount;
    assert TotalDeletions([record]) == record.deletionCount;
  }

  /** `get_summary` of a demo-shaped diff: one file, two additions, one
      deletion. */
  lemma DemoSummary(path: string, gone: string, first: string, second: string)
    requires path != [] && NoSpace(path) && Trimmed(gone) && Trimmed(first) && Trimmed(second)
    ensures GetSummary(DemoDiff(path, gone, first, second)) == SummaryLine(1, 2, 1)
  {
    DemoParsed(path, gone, first, second);
    SummaryOfOne(DemoDiff(path, gone, first, second), FileChange(path, [first, second], [gone], 2, 1, "+2, -1"));
  }

  // ---------------------------------------------------------------------
  // The demo's own sample

  /** `parse_diff(sample_diff)`: the record for `src/main.py`, "+2, -1". */
  lemma SampleParsed()
    ensures Parse(DemoDiff("src/main.py", "print(\"old\")", "print(\"new\")", "return True"))
         == [FileChange("src/main.py", ["print(\"new\")", "return True"], ["print(\"old\")"], 2, 1, "+2, -1")]
  {
    DemoParsed("src/main.py", "print(\"old\")", "print(\"new\")", "return True");
  }

  /** `get_summary(sample_diff)`: "1 file(s) changed: 2 addition(s), 1 deletion(s)". */
  lemma SampleSummary()
    ensures GetSummary(DemoDiff("src/main.py", "print(\"old\")", "print(\"new\")", "return True"))
         == SummaryLine(1, 2, 1)
  {
    DemoSummary("src/main.py", "print(\"old\")", "print(\"new\")", "return True");
  }
}
