/** The feed parser inside `loadData`: published sheet text to paper records. */
module Feed {
  import opened Text
  import opened Seqs

  /** One row of the published sheet. */
  datatype Paper = Paper(subject: string, dept: string, years: string, link: string)

  /** Shown in place of a missing or empty years field. */
  const Placeholder: string := "—"

  /** The field separator and the line separator of the feed. */
  const Comma: char := ','
  const Newline: char := '\n'

  /** `parts[k] || ""`: a missing position reads as the empty string. */
  function Field(parts: seq<string>, k: nat): string {
    if k < |parts| then parts[k] else []
  }

  /** `parts.slice(3)`: the positions from the fourth on, none when there are fewer. */
  function FromFourth(parts: seq<string>): seq<string> {
    if |parts| > 3 then parts[3..] else []
  }

  /** `years ? years.trim() : "—"`: the placeholder is chosen on the raw field,
      so only a missing or empty field takes it; any other field is trimmed. */
  function Years(raw: string): (r: string)
    ensures raw == [] ==> r == Placeholder
    ensures raw != [] ==> Trimmed(r)
  {
    if raw != [] then Trim(raw) else Placeholder
  }

  /** A non-empty years field comes out empty exactly when it is all spaces. */
  lemma YearsBlank(raw: string)
    requires raw != []
    ensures Years(raw) == [] <==> AllSpace(raw)
  {
    TrimEmptyIff(raw);
  }

  /** What every parsed record satisfies: each field trimmed, and no comma in the
      first three (they come from single comma-separated positions). */
  predicate WellFormed(p: Paper) {
    Trimmed(p.subject) && Trimmed(p.dept) && Trimmed(p.years) && Trimmed(p.link)
    && Comma !in p.subject && Comma !in p.dept && Comma !in p.years
  }

  lemma NoCommaAfterTrim(s: string)
    requires Comma !in s
    ensures Comma !in Trim(s)
  {
    if Comma in Trim(s) {
      TrimKeeps(s, Comma);
    }
  }

  /** The `map` callback: one non-blank line to one record. */
  function ParseRow(line: string): (p: Paper)
    ensures WellFormed(p)
  {
    var parts := Split(line, Comma);
    NoCommaAfterTrim(Field(parts, 0));
    NoCommaAfterTrim(Field(parts, 1));
    NoCommaAfterTrim(Field(parts, 2));
    Paper(Trim(Field(parts, 0)), Trim(Field(parts, 1)), Years(Field(parts, 2)),
          Trim(Join(FromFourth(parts), Comma)))
  }

  /** `text.split("\n").slice(1)`: the lines after the header. None of them
      holds a line break, and there are none exactly when the text has no
      line break. */
  function BodyLines(text: string): (lines: seq<string>)
    ensures forall k :: 0 <= k < |lines| ==> Newline !in lines[k]
    ensures lines == [] <==> Newline !in text
  {
    JoinSplit(text, Newline);
    Split(text, Newline)[1..]
  }

  /** The lines after the header are the split of the text after the first line break. */
  lemma BodyLinesAfterHeader(header: string, body: string)
    requires Newline !in header
    ensures BodyLines(header + [Newline] + body) == Split(body, Newline)
  {
    SplitCons(header, Newline, body);
  }

  /** The `filter` callback: `r.trim() !== ""`. */
  predicate NotBlank(line: string) {
    Trim(line) != []
  }

  /** The filter-and-map chain over a sequence of lines: at most one record per
      line, each of them well formed. */
  function Rows(lines: seq<string>): (papers: seq<Paper>)
    ensures |papers| <= |lines|
    ensures forall k :: 0 <= k < |papers| ==> WellFormed(papers[k])
  {
    Map(Filter(lines, NotBlank), ParseRow)
  }

  /** The value `loadData` assigns to `papersData` for a fetched text. */
  function Parse(text: string): (papers: seq<Paper>)
    ensures forall k :: 0 <= k < |papers| ==> WellFormed(papers[k])
  {
    Rows(BodyLines(text))
  }

  // ----- one row -----

  /** A line with at least three commas: the first three fields are the text
      between them, and the link is everything after the third comma, commas
      included, trimmed. */
  lemma ParseRowFull(subject: string, dept: string, years: string, rest: string)
    requires Comma !in subject && Comma !in dept && Comma !in years
    ensures ParseRow(subject + [Comma] + dept + [Comma] + years + [Comma] + rest)
         == Paper(Trim(subject), Trim(dept), if years == [] then Placeholder else Trim(years), Trim(rest))
  {
    var line := subject + [Comma] + dept + [Comma] + years + [Comma] + rest;
    assert line == subject + [Comma] + (dept + [Comma] + (years + [Comma] + rest));
    SplitCons(years, Comma, rest);
    SplitCons(dept, Comma, years + [Comma] + rest);
    SplitCons(subject, Comma, dept + [Comma] + (years + [Comma] + rest));
    var parts := Split(line, Comma);
    assert parts == [subject, dept, years] + Split(rest, Comma);
    assert FromFourth(parts) == Split(rest, Comma);
    JoinSplit(rest, Comma);
  }

  /** A line with exactly two commas has an empty link. */
  lemma ParseRowThreeFields(subject: string, dept: string, years: string)
    requires Comma !in subject && Comma !in dept && Comma !in years
    ensures ParseRow(subject + [Comma] + dept + [Comma] + years)
         == Paper(Trim(subject), Trim(dept), if years == [] then Placeholder else Trim(years), "")
  {
    var line := subject + [Comma] + dept + [Comma] + years;
    assert line == subject + [Comma] + (dept + [Comma] + years);
    SplitNoSep(years, Comma);
    SplitCons(dept, Comma, years);
    SplitCons(subject, Comma, dept + [Comma] + years);
    assert Split(line, Comma) == [subject, dept, years];
    TrimPadded([], [], []);
  }

  /** A line with one comma has the placeholder for years and an empty link. */
  lemma ParseRowTwoFields(subject: string, dept: string)
    requires Comma !in subject && Comma !in dept
    ensures ParseRow(subject + [Comma] + dept) == Paper(Trim(subject), Trim(dept), Placeholder, "")
  {
    SplitNoSep(dept, Comma);
    SplitCons(subject, Comma, dept);
    assert Split(subject + [Comma] + dept, Comma) == [subject, dept];
    TrimPadded([], [], []);
  }

  /** A line without a comma is all subject. */
  lemma ParseRowOneField(subject: string)
    requires Comma !in subject
    ensures ParseRow(subject) == Paper(Trim(subject), "", Placeholder, "")
  {
    SplitNoSep(subject, Comma);
    TrimPadded([], [], []);
  }

  /** A years field of spaces only is not empty, so it trims to "" instead of
      taking the placeholder. */
  lemma WhitespaceYears(subject: string, dept: string, years: string, rest: string)
    requires Comma !in subject && Comma !in dept && Comma !in years
    requires years != [] && AllSpace(years)
    ensures ParseRow(subject + [Comma] + dept + [Comma] + years + [Comma] + rest).years == ""
  {
    ParseRowFull(subject, dept, years, rest);
    TrimEmptyIff(years);
  }

  /** The same, on the line `A,B, ,x`. */
  lemma WhitespaceYearsExample()
    ensures ParseRow("A,B, ,x").years == ""
  {
    WhitespaceYearsFields();
    ParseRowFull("A", "B", " ", "x");
    TrimSpace();
  }

  lemma WhitespaceYearsFields()
    ensures "A,B, ,x" == "A" + [Comma] + "B" + [Comma] + " " + [Comma] + "x"
    ensures Comma !in "A" && Comma !in "B" && Comma !in " " && " " != []
  {
  }

  lemma TrimSpace()
    ensures Trim(" ") == ""
  {
    assert " " == " " + [] + [];
    TrimPadded(" ", [], []);
  }

  /** An empty years field takes the placeholder. */
  lemma EmptyYears()
    ensures ParseRow("A,B,,link").years == Placeholder
  {
    assert "A,B,,link" == "A" + [Comma] + "B" + [Comma] + "" + [Comma] + "link";
    ParseRowFull("A", "B", "", "link");
  }

  /** Commas after the third one stay inside the link. */
  lemma CommaInLink()
    ensures ParseRow("A,B,2022,http://x?y=1,2").link == "http://x?y=1,2"
  {
    CommaInLinkFields();
    ParseRowFull("A", "B", "2022", "http://x?y=1,2");
    TrimOfTrimmed("http://x?y=1,2");
  }

  lemma CommaInLinkFields()
    ensures "A,B,2022,http://x?y=1,2" == "A" + [Comma] + "B" + [Comma] + "2022" + [Comma] + "http://x?y=1,2"
    ensures Comma !in "A" && Comma !in "B" && Comma !in "2022"
  {
  }

  // ----- the whole text -----

  /** `papers` are the parses of the lines at the increasing positions `idx`,
      and those positions are exactly the lines that are not all whitespace. */
  ghost predicate ParsedAt(papers: seq<Paper>, lines: seq<string>, idx: seq<int>) {
    Increasing(idx) && |idx| == |papers|
    && (forall k :: 0 <= k < |idx| ==> 0 <= idx[k] < |lines| && papers[k] == ParseRow(lines[idx[k]]))
    && (forall i :: 0 <= i < |lines| ==> (!AllSpace(lines[i]) <==> i in idx))
  }

  /** The lines kept are exactly the non-blank lines after the header, each
      parsed once, in their original order. */
  lemma ParseSelectsRows(text: string)
    ensures exists idx :: ParsedAt(Parse(text), BodyLines(text), idx)
  {
    var idx := RowsSelect(BodyLines(text));
    assert Parse(text) == Rows(BodyLines(text));
    assert ParsedAt(Parse(text), BodyLines(text), idx);
  }

  lemma RowsSelect(lines: seq<string>) returns (idx: seq<int>)
    ensures ParsedAt(Rows(lines), lines, idx)
  {
    var kept := Filter(lines, NotBlank);
    FilterIsFilter(lines, NotBlank);
    idx :| Increasing(idx) && Picks(kept, lines, idx) && SelectsExactly(lines, NotBlank, idx);
    forall i | 0 <= i < |lines|
      ensures !AllSpace(lines[i]) <==> i in idx
    {
      TrimEmptyIff(lines[i]);
    }
    forall k | 0 <= k < |idx|
      ensures 0 <= idx[k] < |lines| && Rows(lines)[k] == ParseRow(lines[idx[k]])
    {
      assert kept[k] == lines[idx[k]];
    }
  }

  /** One record per non-blank line after the header. */
  lemma ParseCount(text: string, nonBlank: set<int>)
    requires forall i :: i in nonBlank <==> 0 <= i < |BodyLines(text)| && !AllSpace(BodyLines(text)[i])
    ensures |Parse(text)| == |nonBlank|
  {
    var lines := BodyLines(text);
    forall i | 0 <= i < |lines|
      ensures NotBlank(lines[i]) <==> !AllSpace(lines[i])
    {
      TrimEmptyIff(lines[i]);
    }
    FilterLength(lines, NotBlank, nonBlank);
  }

  /** The first line is the header, whatever it says. */
  lemma ParseAfterHeader(header: string, body: string)
    requires Newline !in header
    ensures Parse(header + [Newline] + body) == Rows(Split(body, Newline))
  {
    SplitCons(header, Newline, body);
  }

  /** A text with no line break is a header alone and yields no records. */
  lemma ParseHeaderOnly(text: string)
    requires Newline !in text
    ensures Parse(text) == []
  {
    SplitNoSep(text, Newline);
  }

  /** Lines are parsed independently: the records of two blocks of lines are
      the records of each, concatenated. */
  lemma RowsAppend(a: seq<string>, b: seq<string>)
    ensures Rows(a + b) == Rows(a) + Rows(b)
  {
    FilterAppend(a, b, NotBlank);
    MapAppend(Filter(a, NotBlank), Filter(b, NotBlank), ParseRow);
  }

  /** A blank line yields nothing and any other line yields its record. */
  lemma RowsOfLine(line: string)
    ensures Rows([line]) == if AllSpace(line) then [] else [ParseRow(line)]
  {
    TrimEmptyIff(line);
    assert [line][1..] == [];
  }

  /** A header, one data line and a final line break give one record. */
  lemma ParseExample()
    ensures Parse("header\nMath,CS,2023,http://x\n") == [Paper("Math", "CS", "2023", "http://x")]
  {
    ExampleText();
    ParseAfterHeader("header", "Math,CS,2023,http://x" + [Newline]);
    OneLineBody("Math,CS,2023,http://x");
    ExampleRow();
  }

  lemma ExampleText()
    ensures "header\nMath,CS,2023,http://x\n" == "header" + [Newline] + ("Math,CS,2023,http://x" + [Newline])
    ensures Newline !in "header" && Newline !in "Math,CS,2023,http://x"
  {
  }

  /** A body of one line ended by a line break yields the record of that line. */
  lemma OneLineBody(line: string)
    requires Newline !in line && !AllSpace(line)
    ensures Rows(Split(line + [Newline], Newline)) == [ParseRow(line)]
  {
    assert line + [Newline] == line + [Newline] + [];
    SplitCons(line, Newline, []);
    assert Split(line + [Newline], Newline) == [line] + [[]];
    RowsAppend([line], [[]]);
    RowsOfLine(line);
    RowsOfLine([]);
  }

  lemma ExampleRow()
    ensures ParseRow("Math,CS,2023,http://x") == Paper("Math", "CS", "2023", "http://x")
  {
    ExampleFields();
    ParseRowFull("Math", "CS", "2023", "http://x");
    ExampleTrims();
  }

  lemma ExampleFields()
    ensures "Math,CS,2023,http://x" == "Math" + [Comma] + "CS" + [Comma] + "2023" + [Comma] + "http://x"
    ensures Comma !in "Math" && Comma !in "CS" && Comma !in "2023"
  {
  }

  lemma ExampleTrims()
    ensures Trim("Math") == "Math" && Trim("CS") == "CS" && Trim("2023") == "2023" && Trim("http://x") == "http://x"
  {
    TrimOfTrimmed("Math");
    TrimOfTrimmed("CS");
    TrimOfTrimmed("2023");
    TrimOfTrimmed("http://x");
  }
}
