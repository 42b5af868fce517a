/**
 * Re-running the merge on its own output changes nothing, provided every
 * database row renders to a line that the parser reads back as the same data
 * row.
 */
module ReadmeIdempotence {
  import opened Wrappers
  import opened Text
  import opened ReadmeJobsTable

  // ---------------------------------------------------------------------------
  // Lines framed by pipes
  // ---------------------------------------------------------------------------

  /** A line between two pipes is already trimmed, and its inside is what lies between them. */
  lemma PipeFramed(x: string, inner: string)
    requires x == "|" + inner + "|"
    ensures Trim(x) == x && x[1..|x| - 1] == inner
    ensures StartsWith(x, "|") && EndsWith(x, "|")
    ensures CountChar(x, '|') == CountChar(inner, '|') + 2
  {
    assert x[0] == '|' && x[|x| - 1] == '|';
    TrimOfTrimmed(x);
    assert x == ['|'] + inner + ['|'];
    assert multiset(x) == multiset(['|']) + multiset(inner) + multiset(['|']);
    assert x[..1] == "|" && x[|x| - 1..] == "|";
  }

  lemma FramedCells(x: string, parts: seq<string>)
    requires Trim(x) == x && |x| >= 2 && Split(x[1..|x| - 1], '|') == parts
    ensures |SplitTableCells(x)| == |parts|
    ensures forall i :: 0 <= i < |parts| ==> SplitTableCells(x)[i] == Trim(parts[i])
  {
    CellsOfSplit(x);
  }

  /** The parser reads a pipe-framed join back as its trimmed parts. */
  lemma PipeFramedCells(x: string, parts: seq<string>)
    requires |parts| >= 1
    requires forall i :: 0 <= i < |parts| ==> '|' !in parts[i]
    requires x == "|" + Join(parts, '|') + "|"
    ensures Trim(x) == x
    ensures |SplitTableCells(x)| == |parts|
    ensures forall i :: 0 <= i < |parts| ==> SplitTableCells(x)[i] == Trim(parts[i])
    ensures IsTableRowLine(x)
  {
    var inner := Join(parts, '|');
    PipeFramed(x, inner);
    SplitJoin(parts, '|');
    assert |Split(inner, '|')| == CountChar(inner, '|') + 1;
    assert |Split(x, '|')| == CountChar(x, '|') + 1;
    FramedCells(x, parts);
  }

  // ---------------------------------------------------------------------------
  // Rows that survive a round trip
  // ---------------------------------------------------------------------------

  /** A cell with no pipe, no line break, that is not a header word once trimmed. */
  predicate StableCell(f: string) {
    '|' !in f && '\n' !in f && !IsHeaderCell(Trim(f))
  }

  /**
   * A database row whose rendered line the parser reads back as a data row
   * carrying a job id, and that holds no end anchor.
   */
  ghost predicate StableDbRow(r: ReadmeJobRow) {
    && StableCell(r.companyMarkdown)
    && StableCell(r.roleMarkdown)
    && StableCell(r.trackMarkdown)
    && StableCell(r.applyMarkdown)
    && StableCell(r.addedMarkdown)
    && !IsSeparatorCell(Trim(r.trackMarkdown))
    && (exists i :: JobIdMatchAt(Trim(r.trackMarkdown), i))
    && !Contains(RowLine(r), JobsTableEnd)
  }

  lemma PaddedCell(f: string)
    ensures '|' !in f ==> '|' !in Padded(f)
    ensures Trim(Padded(f)) == Trim(f)
  {
    assert AllWhitespace(" ");
    TrimPadded(" ", f, " ");
  }

  /** A row line splits into the five trimmed fields. */
  lemma RowLineCells(r: ReadmeJobRow)
    requires '|' !in r.companyMarkdown && '|' !in r.roleMarkdown && '|' !in r.trackMarkdown
    requires '|' !in r.applyMarkdown && '|' !in r.addedMarkdown
    ensures Trim(RowLine(r)) == RowLine(r)
    ensures IsTableRowLine(RowLine(r))
    ensures SplitTableCells(RowLine(r)) == [Trim(r.companyMarkdown), Trim(r.roleMarkdown),
      Trim(r.trackMarkdown), Trim(r.applyMarkdown), Trim(r.addedMarkdown)]
  {
    PaddedCellsPlain(r);
    PipeFramedCells(RowLine(r), PaddedCells(r));
    FiveCells(SplitTableCells(RowLine(r)), Trim(r.companyMarkdown), Trim(r.roleMarkdown),
      Trim(r.trackMarkdown), Trim(r.applyMarkdown), Trim(r.addedMarkdown));
  }

  /** A five-element list is the list of its elements. */
  lemma FiveCells(cells: seq<string>, a: string, b: string, c: string, d: string, e: string)
    requires |cells| == 5 && cells[0] == a && cells[1] == b && cells[2] == c && cells[3] == d && cells[4] == e
    ensures cells == [a, b, c, d, e]
  {
  }

  /** Padding keeps a row's cells free of pipes and trims back to the fields. */
  lemma PaddedCellsPlain(r: ReadmeJobRow)
    requires '|' !in r.companyMarkdown && '|' !in r.roleMarkdown && '|' !in r.trackMarkdown
    requires '|' !in r.applyMarkdown && '|' !in r.addedMarkdown
    ensures |PaddedCells(r)| == 5
    ensures forall i :: 0 <= i < 5 ==> '|' !in PaddedCells(r)[i]
    ensures Trim(PaddedCells(r)[0]) == Trim(r.companyMarkdown)
    ensures Trim(PaddedCells(r)[1]) == Trim(r.roleMarkdown)
    ensures Trim(PaddedCells(r)[2]) == Trim(r.trackMarkdown)
    ensures Trim(PaddedCells(r)[3]) == Trim(r.applyMarkdown)
    ensures Trim(PaddedCells(r)[4]) == Trim(r.addedMarkdown)
  {
    PaddedCell(r.companyMarkdown);
    PaddedCell(r.roleMarkdown);
    PaddedCell(r.trackMarkdown);
    PaddedCell(r.applyMarkdown);
    PaddedCell(r.addedMarkdown);
  }

  /** A row line whose fields hold no pipe is trimmed, and its third cell is the trimmed track field. */
  lemma RowTrackCell(r: ReadmeJobRow)
    requires '|' !in r.companyMarkdown && '|' !in r.roleMarkdown && '|' !in r.trackMarkdown
    requires '|' !in r.applyMarkdown && '|' !in r.addedMarkdown
    ensures Trim(RowLine(r)) == RowLine(r)
    ensures |SplitTableCells(RowLine(r))| == 5 && SplitTableCells(RowLine(r))[2] == Trim(r.trackMarkdown)
  {
    RowLineCells(r);
    ThirdOfFive(SplitTableCells(RowLine(r)), Trim(r.companyMarkdown), Trim(r.roleMarkdown),
      Trim(r.trackMarkdown), Trim(r.applyMarkdown), Trim(r.addedMarkdown));
  }

  lemma ThirdOfFive(cells: seq<string>, a: string, b: string, c: string, d: string, e: string)
    requires cells == [a, b, c, d, e]
    ensures |cells| == 5 && cells[2] == c
  {
  }

  /** A trimmed table row line whose cells are neither header nor separator is a data line. */
  lemma DataLineOf(line: string, cells: seq<string>)
    requires Trim(line) == line && IsTableRowLine(line) && SplitTableCells(line) == cells
    requires !LooksLikeHeader(cells) && !LooksLikeSeparator(cells)
    ensures KindOf(line) == DataLine
  {
  }

  lemma FiveNotHeader(a: string, b: string, c: string, d: string, e: string)
    requires !IsHeaderCell(a) && !IsHeaderCell(b) && !IsHeaderCell(c)
    requires !IsHeaderCell(d) && !IsHeaderCell(e)
    ensures !LooksLikeHeader([a, b, c, d, e])
  {
    var cells := [a, b, c, d, e];
    forall i | 0 <= i < 5 ensures !IsHeaderCell(cells[i]) {
      if i == 0 { assert cells[i] == a; }
    }
    LooksLikeHeaderSome(cells);
  }

  /** A track cell with a job-id match yields an id. */
  lemma IdOfCells(cells: seq<string>, i: int)
    requires |cells| >= 3 && JobIdMatchAt(cells[2], i)
    ensures ExtractJobPostingIdFromTrackCell(cells).Some?
  {
  }

  /** A stable row renders to a clean data line whose parsed row carries a job id. */
  lemma StableRowLine(r: ReadmeJobRow)
    requires StableDbRow(r)
    ensures KindOf(RowLine(r)) == DataLine
    ensures RowOf(RowLine(r)).jobPostingId.Some?
    ensures CleanLine(RowLine(r))
  {
    var line := RowLine(r);
    RowLineCells(r);
    var cells := SplitTableCells(line);
    assert cells == [Trim(r.companyMarkdown), Trim(r.roleMarkdown), Trim(r.trackMarkdown),
      Trim(r.applyMarkdown), Trim(r.addedMarkdown)];
    FiveNotHeader(cells[0], cells[1], cells[2], cells[3], cells[4]);
    assert !IsSeparatorCell(cells[2]);
    LooksLikeSeparatorEvery(cells);
    DataLineOf(line, cells);
    var i :| JobIdMatchAt(Trim(r.trackMarkdown), i);
    IdOfCells(cells, i);
    RowLineClean(r);
  }

  /** A row line holds a line break only where one of its fields does. */
  lemma RowLineClean(r: ReadmeJobRow)
    requires '\n' !in r.companyMarkdown && '\n' !in r.roleMarkdown && '\n' !in r.trackMarkdown
    requires '\n' !in r.applyMarkdown && '\n' !in r.addedMarkdown
    requires !Contains(RowLine(r), JobsTableEnd)
    ensures CleanLine(RowLine(r))
  {
    var ps := [Padded(r.companyMarkdown), Padded(r.roleMarkdown), Padded(r.trackMarkdown),
      Padded(r.applyMarkdown), Padded(r.addedMarkdown)];
    forall i | 0 <= i < 5 ensures '\n' !in ps[i] { }
    JoinKeepsAbsentChar(ps, '|', '\n');
  }

  // ---------------------------------------------------------------------------
  // The default header
  // ---------------------------------------------------------------------------

  lemma CompanyIsHeaderWord()
    ensures IsHeaderCell(Trim("Company"))
  {
    TrimOfTrimmed("Company");
    var lowered := AsciiLower("Company");
    forall i | 0 <= i < 7
      ensures lowered[i] == "company"[i]
    {
    }
    assert lowered == "company";
  }

  /** A trimmed table row line with a header word or only separator cells is kept as a header. */
  lemma HeaderLineOf(line: string, cells: seq<string>)
    requires Trim(line) == line && IsTableRowLine(line) && SplitTableCells(line) == cells
    requires LooksLikeHeader(cells) || LooksLikeSeparator(cells)
    ensures IsKeptHeader(line)
  {
  }

  /** A row line whose company field is a header word is read back as a header line. */
  lemma TitleLineKept(titles: ReadmeJobRow)
    requires IsHeaderCell(Trim(titles.companyMarkdown)) && '|' !in titles.companyMarkdown
    requires '|' !in titles.roleMarkdown && '|' !in titles.trackMarkdown
    requires '|' !in titles.applyMarkdown && '|' !in titles.addedMarkdown
    ensures IsKeptHeader(RowLine(titles))
  {
    var line := RowLine(titles);
    RowLineCells(titles);
    var cells := SplitTableCells(line);
    assert LooksLikeHeader(cells) by { assert IsHeaderCell(cells[0]); }
    HeaderLineOf(line, cells);
  }

  /** A line with neither a line break nor a `<` is clean. */
  lemma CleanWithoutAngle(line: string)
    requires '\n' !in line && '<' !in line
    ensures CleanLine(line)
  {
    AbsentByFirstChar(line, JobsTableEnd);
  }

  /** The column titles of the default header, as a row. */
  const DefaultTitles := ReadmeJobRow("Company", "Role", "Track", "Apply", "Added")

  /** The alignment cells of the default header. */
  const DefaultAlignment: seq<string> := ["---", "---", "---", "---", "---:"]

  lemma DefaultTitleSpelling()
    ensures "| " + "Company" + " | " + "Role" + " | " + "Track" + " | " + "Apply" + " | " + "Added" + " |"
      == DefaultHeaderLines[0]
  {
  }

  /** The default title line is the row line of the column titles. */
  lemma DefaultTitleIsRowLine()
    ensures DefaultHeaderLines[0] == RowLine(DefaultTitles)
  {
    RowLineText(DefaultTitles);
    DefaultTitleSpelling();
  }

  /** The default title line is read back as a header line. */
  lemma DefaultTitleKept()
    ensures IsKeptHeader(DefaultHeaderLines[0])
  {
    DefaultTitleIsRowLine();
    CompanyIsHeaderWord();
    TitleLineKept(DefaultTitles);
  }

  /** Neither default header line holds a line break or the end anchor. */
  lemma DefaultHeadersClean()
    ensures CleanLine(DefaultHeaderLines[0]) && CleanLine(DefaultHeaderLines[1])
  {
    DefaultTitleClean();
    DefaultSeparatorClean();
  }

  lemma DefaultTitleClean()
    ensures CleanLine(DefaultHeaderLines[0])
  {
    CleanWithoutAngle(DefaultHeaderLines[0]);
  }

  lemma DefaultSeparatorClean()
    ensures CleanLine(DefaultHeaderLines[1])
  {
    CleanWithoutAngle(DefaultHeaderLines[1]);
  }

  /** A pipe-framed join of trimmed separator cells is read back as a header line. */
  lemma SeparatorLineKept(line: string, dashes: seq<string>)
    requires |dashes| >= 1
    requires forall i :: 0 <= i < |dashes| ==>
      '|' !in dashes[i] && Trim(dashes[i]) == dashes[i] && IsSeparatorCell(dashes[i])
    requires line == "|" + Join(dashes, '|') + "|"
    ensures IsKeptHeader(line)
  {
    SeparatorCells(line, dashes);
    HeaderLineOf(line, SplitTableCells(line));
  }

  /** The cells of a pipe-framed join of separator cells are those cells, so the line looks like a separator. */
  lemma SeparatorCells(line: string, dashes: seq<string>)
    requires |dashes| >= 1
    requires forall i :: 0 <= i < |dashes| ==>
      '|' !in dashes[i] && Trim(dashes[i]) == dashes[i] && IsSeparatorCell(dashes[i])
    requires line == "|" + Join(dashes, '|') + "|"
    ensures Trim(line) == line && IsTableRowLine(line)
    ensures LooksLikeSeparator(SplitTableCells(line))
  {
    PipeFramedCells(line, dashes);
    var cells := SplitTableCells(line);
    forall i | 0 <= i < |cells|
      ensures IsSeparatorCell(cells[i])
    {
      assert cells[i] == Trim(dashes[i]) == dashes[i];
    }
    LooksLikeSeparatorEvery(cells);
  }

  lemma DashCells()
    ensures Trim("---") == "---" && IsSeparatorCell("---")
    ensures Trim("---:") == "---:" && IsSeparatorCell("---:")
  {
    TrimOfTrimmed("---");
    TrimOfTrimmed("---:");
    assert "---:"[..3] == "---";
  }

  /** The default alignment line is the pipe-framed join of its cells. */
  lemma DefaultAlignmentIsJoin()
    ensures DefaultHeaderLines[1] == "|" + Join(DefaultAlignment, '|') + "|"
  {
    var dashes := DefaultAlignment;
    assert Join(dashes[4..], '|') == "---:";
    assert Join(dashes[3..], '|') == "---|---:" by { assert dashes[3..][1..] == dashes[4..]; }
    assert Join(dashes[2..], '|') == "---|---|---:" by { assert dashes[2..][1..] == dashes[3..]; }
    assert Join(dashes[1..], '|') == "---|---|---|---:" by { assert dashes[1..][1..] == dashes[2..]; }
  }

  /** The default alignment line is read back as a header line. */
  lemma DefaultSeparatorKept()
    ensures IsKeptHeader(DefaultHeaderLines[1])
  {
    DefaultAlignmentIsJoin();
    DashCells();
    SeparatorLineKept(DefaultHeaderLines[1], DefaultAlignment);
  }

  /** Both default header lines are read back as header lines, and are clean. */
  lemma DefaultHeadersKept()
    ensures forall i :: 0 <= i < |DefaultHeaderLines| ==>
      IsKeptHeader(DefaultHeaderLines[i]) && CleanLine(DefaultHeaderLines[i])
  {
    forall i | 0 <= i < |DefaultHeaderLines|
      ensures IsKeptHeader(DefaultHeaderLines[i]) && CleanLine(DefaultHeaderLines[i])
    {
      DefaultHeadersClean();
      if i == 0 {
        DefaultTitleKept();
      } else {
        DefaultSeparatorKept();
      }
    }
  }

  // ---------------------------------------------------------------------------
  // Re-parsing a rendered block
  // ---------------------------------------------------------------------------

  function RowsOf(lines: seq<string>): (rows: seq<ExistingReadmeRow>)
    ensures |rows| == |lines|
  {
    seq(|lines|, i requires 0 <= i < |lines| => RowOf(lines[i]))
  }

  /** Filing the last of a list of kept header lines. */
  lemma ParseHeaderStep(hs: seq<string>)
    requires |hs| > 0 && IsKeptHeader(hs[|hs| - 1])
    requires ParseLines(hs[..|hs| - 1]) == ParsedBlock(hs[..|hs| - 1], [], [])
    ensures ParseLines(hs) == ParsedBlock(hs, [], [])
  {
    SnocLast(hs);
  }

  /** A non-empty list is all but its last element, then that element. */
  lemma SnocLast(xs: seq<string>)
    requires |xs| > 0
    ensures xs[..|xs| - 1] + [xs[|xs| - 1]] == xs
  {
  }

  /** Lines that all pass `keep`, a test that only kept header lines pass, parse as exactly those headers. */
  lemma {:induction false} ParseHeadersBy(hs: seq<string>, keep: string -> bool)
    requires forall h :: keep(h) ==> IsKeptHeader(h)
    requires forall i :: 0 <= i < |hs| ==> keep(hs[i])
    ensures ParseLines(hs) == ParsedBlock(hs, [], [])
  {
    if |hs| > 0 {
      var init := hs[..|hs| - 1];
      assert forall i :: 0 <= i < |init| ==> init[i] == hs[i];
      ParseHeadersBy(init, keep);
      assert keep(hs[|hs| - 1]);
      ParseHeaderStep(hs);
    }
  }

  lemma ParseKeptHeaders(hs: seq<string>)
    requires forall i :: 0 <= i < |hs| ==> IsKeptHeader(hs[i])
    ensures ParseLines(hs) == ParsedBlock(hs, [], [])
  {
    ParseHeadersBy(hs, IsKeptHeader);
  }

  /** The rows of a line list are the rows of all but its last line, then the last line's row. */
  lemma RowsOfLast(ls: seq<string>)
    requires |ls| > 0
    ensures RowsOf(ls) == RowsOf(ls[..|ls| - 1]) + [RowOf(ls[|ls| - 1])]
  {
    var init := ls[..|ls| - 1];
    assert forall i :: 0 <= i < |init| ==> init[i] == ls[i];
  }

  /** Filing the last of a list of data lines. */
  lemma ParseDataStep(ls: seq<string>)
    requires |ls| > 0 && KindOf(ls[|ls| - 1]) == DataLine
    requires ParseLines(ls[..|ls| - 1]) == ParsedBlock([], RowsOf(ls[..|ls| - 1]), [])
    ensures ParseLines(ls) == ParsedBlock([], RowsOf(ls), [])
  {
    RowsOfLast(ls);
  }

  /** Lines that all pass `isData`, a test that only data lines pass, parse as their rows. */
  lemma {:induction false} ParseDataBy(ls: seq<string>, isData: string -> bool)
    requires forall l :: isData(l) ==> KindOf(l) == DataLine
    requires forall i :: 0 <= i < |ls| ==> isData(ls[i])
    ensures ParseLines(ls) == ParsedBlock([], RowsOf(ls), [])
  {
    if |ls| > 0 {
      var init := ls[..|ls| - 1];
      assert forall i :: 0 <= i < |init| ==> init[i] == ls[i];
      ParseDataBy(init, isData);
      assert isData(ls[|ls| - 1]);
      ParseDataStep(ls);
    }
  }

  predicate IsDataLine(line: string) {
    KindOf(line) == DataLine
  }

  lemma ParseDataLines(ls: seq<string>)
    requires forall i :: 0 <= i < |ls| ==> KindOf(ls[i]) == DataLine
    ensures ParseLines(ls) == ParsedBlock([], RowsOf(ls), [])
  {
    assert forall i :: 0 <= i < |ls| ==> IsDataLine(ls[i]);
    ParseDataBy(ls, IsDataLine);
  }

  lemma {:induction false} CommunityOfIdRows(rows: seq<ExistingReadmeRow>)
    requires forall i :: 0 <= i < |rows| ==> rows[i].jobPostingId.Some?
    ensures CommunityLines(rows) == []
  {
    if |rows| > 0 {
      CommunityOfIdRows(rows[..|rows| - 1]);
    }
  }

  lemma CommunityOfCommunity(ls: seq<string>)
    requires forall i :: 0 <= i < |ls| ==> RowOf(ls[i]) == ExistingReadmeRow(ls[i], None)
    ensures CommunityLines(RowsOf(ls)) == ls
  {
    var rows := RowsOf(ls);
    forall i | 0 <= i < |rows|
      ensures rows[i] == ExistingReadmeRow(ls[i], None)
    {
      assert rows[i] == RowOf(ls[i]);
    }
    CommunityOfIdless(rows, ls);
  }

  /** Rows without an id are all copied, as their raw lines, in order. */
  lemma {:induction false} CommunityOfIdless(rows: seq<ExistingReadmeRow>, ls: seq<string>)
    requires |rows| == |ls|
    requires forall i :: 0 <= i < |rows| ==> rows[i] == ExistingReadmeRow(ls[i], None)
    ensures CommunityLines(rows) == ls
  {
    if |rows| > 0 {
      var n := |rows| - 1;
      CommunityOfIdless(rows[..n], ls[..n]);
      assert rows[n] == ExistingReadmeRow(ls[n], None);
      assert ls[..n] + [ls[n]] == ls;
    }
  }

  /** What a line of the old block becomes in the rendered block is read back unchanged. */
  predicate IsCommunityLine(c: string) {
    RowOf(c) == ExistingReadmeRow(c, None) && KindOf(c) == DataLine
  }

  lemma ParseBlank()
    ensures ParseLines([""]) == ParsedBlock([], [], [""])
  {
    TrimOfTrimmed("");
    assert [""][..0] == [];
  }

  /**
   * A block made of an empty line, kept header lines, data lines and an empty
   * line parses into those headers and the rows of the data lines.
   */
  lemma ParseSections(h: seq<string>, dl: seq<string>)
    requires forall i :: 0 <= i < |h| ==> IsKeptHeader(h[i])
    requires forall i :: 0 <= i < |dl| ==> KindOf(dl[i]) == DataLine
    ensures ParseLines([""] + h + dl + [""]) == ParsedBlock(h, RowsOf(dl), ["", ""])
  {
    ParseKeptHeaders(h);
    ParseDataLines(dl);
    FrameSections(h, RowsOf(dl), dl);
  }

  /** Framing a header block and a data block with empty lines adds one other line on each side. */
  lemma FrameSections(h: seq<string>, rows: seq<ExistingReadmeRow>, dl: seq<string>)
    requires ParseLines(h) == ParsedBlock(h, [], [])
    requires ParseLines(dl) == ParsedBlock([], rows, [])
    ensures ParseLines([""] + h + dl + [""]) == ParsedBlock(h, rows, ["", ""])
  {
    LeadingBlank(h);
    AfterHeaders([""] + h, h, rows, dl);
    TrailingBlank([""] + h + dl, h, rows);
  }

  lemma LeadingBlank(h: seq<string>)
    requires ParseLines(h) == ParsedBlock(h, [], [])
    ensures ParseLines([""] + h) == ParsedBlock(h, [], [""])
  {
    ParseBlank();
    GlueParsed([""], h, ParsedBlock([], [], [""]), ParsedBlock(h, [], []));
    assert [] + h == h && [""] + [] == [""];
  }

  lemma AfterHeaders(x: seq<string>, h: seq<string>, rows: seq<ExistingReadmeRow>, dl: seq<string>)
    requires ParseLines(x) == ParsedBlock(h, [], [""])
    requires ParseLines(dl) == ParsedBlock([], rows, [])
    ensures ParseLines(x + dl) == ParsedBlock(h, rows, [""])
  {
    ParseLinesAppend(x, dl);
    ConcatAfterHeaders(h, rows);
  }

  lemma ConcatAfterHeaders(h: seq<string>, rows: seq<ExistingReadmeRow>)
    ensures ConcatParsed(ParsedBlock(h, [], [""]), ParsedBlock([], rows, [])) == ParsedBlock(h, rows, [""])
  {
    assert h + [] == h && [] + rows == rows && [""] + [] == [""];
  }

  lemma TrailingBlank(y: seq<string>, h: seq<string>, rows: seq<ExistingReadmeRow>)
    requires ParseLines(y) == ParsedBlock(h, rows, [""])
    ensures ParseLines(y + [""]) == ParsedBlock(h, rows, ["", ""])
  {
    ParseBlank();
    GlueParsed(y, [""], ParsedBlock(h, rows, [""]), ParsedBlock([], [], [""]));
    assert h + [] == h && rows + [] == rows;
  }

  /** Parsing two blocks one after the other adds up their buckets. */
  lemma GlueParsed(a: seq<string>, b: seq<string>, pa: ParsedBlock, pb: ParsedBlock)
    requires ParseLines(a) == pa && ParseLines(b) == pb
    ensures ParseLines(a + b) == ParsedBlock(pa.headerLines + pb.headerLines, pa.rows + pb.rows,
      pa.otherLines + pb.otherLines)
  {
    ParseLinesAppend(a, b);
  }

  lemma RowsOfAppend(a: seq<string>, b: seq<string>)
    ensures RowsOf(a + b) == RowsOf(a) + RowsOf(b)
  {
  }

  /** Every line rendered from stable rows is a data line carrying a job id. */
  lemma StableRowLines(d: seq<ReadmeJobRow>)
    requires forall i :: 0 <= i < |d| ==> StableDbRow(d[i])
    ensures forall i :: 0 <= i < |d| ==>
      KindOf(RowLines(d)[i]) == DataLine && RowOf(RowLines(d)[i]).jobPostingId.Some?
  {
    forall i | 0 <= i < |d|
      ensures KindOf(RowLines(d)[i]) == DataLine && RowOf(RowLines(d)[i]).jobPostingId.Some?
    {
      StableRowLine(d[i]);
    }
  }

  /** Community lines copied after the database lines come back as the community lines. */
  lemma CommunityAfterIdRows(dl: seq<string>, c: seq<string>)
    requires forall i :: 0 <= i < |dl| ==> RowOf(dl[i]).jobPostingId.Some?
    requires forall i :: 0 <= i < |c| ==> IsCommunityLine(c[i])
    ensures CommunityLines(RowsOf(dl + c)) == c
  {
    RowsOfAppend(dl, c);
    CommunityLinesAppend(RowsOf(dl), RowsOf(c));
    CommunityOfIdRows(RowsOf(dl));
    CommunityOfCommunity(c);
  }

  lemma DataLinesAppend(dl: seq<string>, c: seq<string>)
    requires forall i :: 0 <= i < |dl| ==> KindOf(dl[i]) == DataLine
    requires forall i :: 0 <= i < |c| ==> IsCommunityLine(c[i])
    ensures forall i :: 0 <= i < |dl + c| ==> KindOf((dl + c)[i]) == DataLine
  {
    forall i | 0 <= i < |dl + c| ensures KindOf((dl + c)[i]) == DataLine {
      if i >= |dl| { assert (dl + c)[i] == c[i - |dl|]; }
    }
  }

  /** Parsing a rendered block recovers its header and its community lines. */
  lemma ReparseRendered(headers: seq<string>, d: seq<ReadmeJobRow>, c: seq<string>)
    requires forall i :: 0 <= i < |EffectiveHeaderLines(headers)| ==> IsKeptHeader(EffectiveHeaderLines(headers)[i])
    requires forall i :: 0 <= i < |d| ==> StableDbRow(d[i])
    requires forall i :: 0 <= i < |c| ==> IsCommunityLine(c[i])
    ensures ParseLines(RenderedLines(headers, d, c)).headerLines == EffectiveHeaderLines(headers)
    ensures CommunityLines(ParseLines(RenderedLines(headers, d, c)).rows) == c
  {
    var h := EffectiveHeaderLines(headers);
    var dl := RowLines(d);
    StableRowLines(d);
    DataLinesAppend(dl, c);
    ParseSections(h, dl + c);
    Regroup([""], h, dl, c, [""]);
    CommunityAfterIdRows(dl, c);
  }

  lemma Regroup(a: seq<string>, h: seq<string>, dl: seq<string>, c: seq<string>, z: seq<string>)
    ensures a + h + dl + c + z == a + h + (dl + c) + z
  {
  }

  // ---------------------------------------------------------------------------
  // Re-anchoring
  // ---------------------------------------------------------------------------

  /** No start anchor begins before the one that ends the kept prefix. */
  lemma ReanchorStarts(readme: string, a: AnchoredBlock, n: string)
    requires IsAnchoredSplit(readme, a)
    ensures forall k :: OccursAt(a.before + n + a.after, JobsTableStart, k) ==>
      |a.before| - |JobsTableStart| <= k
  {
    var next := a.before + n + a.after;
    var b := |a.before|;
    assert readme == a.before + (a.block + a.after);
    assert next == a.before + (n + a.after);
    forall k | OccursAt(next, JobsTableStart, k)
      ensures b - |JobsTableStart| <= k
    {
      if k + |JobsTableStart| <= b {
        OccursBeforeEnd(a.before, n + a.after, JobsTableStart, k);
        OccursInPrefix(a.before, a.block + a.after, JobsTableStart, k);
      }
    }
  }

  lemma EndAnchorOnOneLine()
    ensures '\n' !in JobsTableEnd
  {
  }

  /** No end anchor begins inside the kept prefix or the new block. */
  lemma ReanchorEnds(readme: string, a: AnchoredBlock, n: string)
    requires IsAnchoredSplit(readme, a)
    requires |n| >= 1 && n[0] == '\n' && n[|n| - 1] == '\n'
    requires !Contains(n, JobsTableEnd)
    ensures forall k :: OccursAt(a.before + n + a.after, JobsTableEnd, k) ==> |a.before| + |n| <= k
  {
    EndAnchorOnOneLine();
    assert a.before + (a.block + a.after) == readme;
    forall k | OccursAt(a.before + n + a.after, JobsTableEnd, k)
      ensures |a.before| + |n| <= k
    {
      OccursAroundFramed(a.before, n, a.after, '\n', JobsTableEnd, k);
      if OccursAt(a.before, JobsTableEnd, k) {
        OccursInPrefix(a.before, a.block + a.after, JobsTableEnd, k);
      }
    }
  }

  /**
   * Replacing the block by one that starts and ends with a line break and holds
   * no end anchor leaves the anchors where they were.
   */
  lemma ReanchorRewrite(readme: string, a: AnchoredBlock, n: string)
    requires IsAnchoredSplit(readme, a)
    requires |n| >= 1 && n[0] == '\n' && n[|n| - 1] == '\n'
    requires !Contains(n, JobsTableEnd)
    ensures ExtractAnchoredBlock(a.before + n + a.after) == Success(AnchoredBlock(a.before, n, a.after))
  {
    var a' := AnchoredBlock(a.before, n, a.after);
    ReanchorStarts(readme, a, n);
    ReanchorEnds(readme, a, n);
    assert IsAnchoredSplit(a.before + n + a.after, a');
    ExtractAnchoredBlockUnique(a.before + n + a.after, a');
  }

  // ---------------------------------------------------------------------------
  // The theorem
  // ---------------------------------------------------------------------------

  /** Header lines the parser kept are still kept once defaulted. */
  lemma EffectiveHeadersKept(headers: seq<string>)
    requires forall i :: 0 <= i < |headers| ==> IsKeptHeader(headers[i]) && CleanLine(headers[i])
    ensures forall i :: 0 <= i < |EffectiveHeaderLines(headers)| ==>
      IsKeptHeader(EffectiveHeaderLines(headers)[i]) && CleanLine(EffectiveHeaderLines(headers)[i])
  {
    if |headers| < 2 {
      DefaultHeadersKept();
    }
  }

  /** An id-less kept row is copied as a line that reads back as itself. */
  lemma KeptRowIsCommunity(r: ExistingReadmeRow)
    requires IsKeptRow(r) && r.jobPostingId.None?
    ensures IsCommunityLine(r.rawLine)
  {
  }

  /** The community lines of kept, clean rows are community lines again, and clean. */
  lemma {:induction false} CommunityLinesKept(rows: seq<ExistingReadmeRow>)
    requires forall i :: 0 <= i < |rows| ==> IsKeptRow(rows[i]) && CleanLine(rows[i].rawLine)
    ensures KeptCommunityLines(CommunityLines(rows))
  {
    if |rows| > 0 {
      var init := rows[..|rows| - 1];
      var last := rows[|rows| - 1];
      assert forall i :: 0 <= i < |init| ==> init[i] == rows[i];
      CommunityLinesKept(init);
      if last.jobPostingId.None? {
        KeptRowIsCommunity(last);
        var prev := CommunityLines(init);
        assert CommunityLines(rows) == prev + [last.rawLine];
        KeptCommunitySnoc(prev, last.rawLine);
      }
    }
  }

  lemma KeptCommunitySnoc(c: seq<string>, x: string)
    requires KeptCommunityLines(c) && IsCommunityLine(x) && CleanLine(x)
    ensures KeptCommunityLines(c + [x])
  {
    forall i | 0 <= i < |c + [x]| ensures IsCommunityLine((c + [x])[i]) && CleanLine((c + [x])[i]) {
      if i < |c| { assert (c + [x])[i] == c[i]; }
    }
  }

  /** A rendered block made of clean lines holds no end anchor. */
  lemma RenderedHasNoEnd(headers: seq<string>, d: seq<ReadmeJobRow>, c: seq<string>)
    requires forall i :: 0 <= i < |EffectiveHeaderLines(headers)| ==> CleanLine(EffectiveHeaderLines(headers)[i])
    requires forall i :: 0 <= i < |d| ==> CleanLine(RowLine(d[i]))
    requires forall i :: 0 <= i < |c| ==> CleanLine(c[i])
    ensures !Contains(RenderJobsTable(headers, d, c), JobsTableEnd)
  {
    var h := EffectiveHeaderLines(headers);
    var rendered := RenderedLines(headers, d, c);
    forall i | 0 <= i < |rendered|
      ensures !Contains(rendered[i], JobsTableEnd)
    {
      if i == 0 || i == |rendered| - 1 {
        AbsentByFirstChar(rendered[i], JobsTableEnd);
      } else if i <= |h| {
        assert rendered[i] == h[i - 1];
      } else if i <= |h| + |d| {
        assert rendered[i] == RowLine(d[i - 1 - |h|]);
      } else {
        assert rendered[i] == c[i - 1 - |h| - |d|];
      }
    }
    JoinKeepsAbsent(rendered, '\n', JobsTableEnd);
  }

  /** Header lines the parser keeps as they are, each clean. */
  predicate KeptHeaderLines(headers: seq<string>) {
    forall i :: 0 <= i < |headers| ==> IsKeptHeader(headers[i]) && CleanLine(headers[i])
  }

  /** Community lines the parser reads back as id-less rows, each clean. */
  predicate KeptCommunityLines(c: seq<string>) {
    forall i :: 0 <= i < |c| ==> IsCommunityLine(c[i]) && CleanLine(c[i])
  }

  /** A table of database rows, each of which is stable. */
  ghost predicate StableRowsById(byId: map<string, ReadmeJobRow>) {
    forall id :: id in byId ==> StableDbRow(byId[id])
  }

  /** Database rows that each render to a line the parser reads back as that row. */
  ghost predicate StableDbRows(d: seq<ReadmeJobRow>) {
    forall i :: 0 <= i < |d| ==> StableDbRow(d[i])
  }

  /**
   * Re-parsing a rendered block and rendering it again with the same database
   * rows gives back the same block.
   */
  lemma RenderIsStable(headers: seq<string>, d: seq<ReadmeJobRow>, c: seq<string>)
    requires KeptHeaderLines(headers) && StableDbRows(d) && KeptCommunityLines(c)
    ensures var n := RenderJobsTable(headers, d, c);
      var p2 := ParseLines(Split(n, '\n'));
      && !Contains(n, JobsTableEnd)
      && RenderJobsTable(p2.headerLines, d, CommunityLines(p2.rows)) == n
  {
    var n := RenderJobsTable(headers, d, c);
    EffectiveHeadersKept(headers);
    var h := EffectiveHeaderLines(headers);
    forall i | 0 <= i < |d|
      ensures CleanLine(RowLine(d[i]))
    {
      StableRowLine(d[i]);
    }
    RenderedHasNoEnd(headers, d, c);
    RenderedTableLines(headers, d, c);
    ReparseRendered(headers, d, c);
    assert |h| >= 2;
    assert EffectiveHeaderLines(h) == h;
  }

  /** Every row the merge selects is one of the given rows, so it is stable when they all are. */
  lemma SelectedRowsStable(order: seq<string>, byId: map<string, ReadmeJobRow>)
    requires StableRowsById(byId)
    ensures StableDbRows(SelectDbRows(order, byId))
  {
    SelectDbRowsFollowKnownIds(order, byId);
  }

  /** The header lines and community lines parsed from a block without the end anchor are kept and clean. */
  lemma ParsedBlockKept(block: string)
    requires !Contains(block, JobsTableEnd)
    ensures var p := ParseLines(Split(block, '\n'));
      KeptHeaderLines(p.headerLines) && KeptCommunityLines(CommunityLines(p.rows))
  {
    var lines := Split(block, '\n');
    BlockLinesClean(block);
    ParseLinesClean(lines);
    ParseLinesSound(lines);
    CommunityLinesKept(ParseLines(lines).rows);
  }

  /** The merged README, spelled out from the pieces of its anchored split. */
  lemma MergeSpelledOut(readme: string, byId: map<string, ReadmeJobRow>, order: seq<string>)
    requires ExtractAnchoredBlock(readme).Success?
    ensures var a := ExtractAnchoredBlock(readme).value;
      var next := a.before + MergedBlock(a.block, byId, order) + a.after;
      Merge(readme, byId, order) == Success(MergeResult(next, next != readme))
  {
  }

  /**
   * Merging the merged README again with the same rows reports no change and
   * yields the same text.
   */
  lemma MergeIsIdempotent(readme: string, byId: map<string, ReadmeJobRow>, order: seq<string>)
    requires Merge(readme, byId, order).Success?
    requires StableRowsById(byId)
    ensures var next := Merge(readme, byId, order).value.nextReadme;
      Merge(next, byId, order) == Success(MergeResult(next, false))
  {
    MergeSpelledOut(readme, byId, order);
    MergeOfSplitIsStable(readme, ExtractAnchoredBlock(readme).value, byId, order);
  }

  /** The README the merge builds around an anchored split merges to itself. */
  lemma MergeOfSplitIsStable(readme: string, a: AnchoredBlock, byId: map<string, ReadmeJobRow>, order: seq<string>)
    requires IsAnchoredSplit(readme, a)
    requires StableRowsById(byId)
    ensures var next := a.before + MergedBlock(a.block, byId, order) + a.after;
      Merge(next, byId, order) == Success(MergeResult(next, false))
  {
    AnchoredBlockHasNoEnd(readme, a);
    MergedBlockStable(a.block, byId, order);
    MergeOfStableBlock(readme, a, MergedBlock(a.block, byId, order), byId, order);
  }

  /** The block the merge writes in place of a block without the end anchor is a fixed point of it. */
  lemma MergedBlockStable(block: string, byId: map<string, ReadmeJobRow>, order: seq<string>)
    requires !Contains(block, JobsTableEnd)
    requires StableRowsById(byId)
    ensures !Contains(MergedBlock(block, byId, order), JobsTableEnd)
    ensures MergedBlock(MergedBlock(block, byId, order), byId, order) == MergedBlock(block, byId, order)
  {
    var p := ParseLines(Split(block, '\n'));
    ParsedBlockKept(block);
    SelectedRowsStable(order, byId);
    RenderIsStable(p.headerLines, SelectDbRows(order, byId), CommunityLines(p.rows));
  }

  /**
   * Putting a block that starts and ends with a line break, holds no end
   * anchor and is a fixed point of the merge between the anchors of a README
   * gives a README that merges to itself.
   */
  lemma MergeOfStableBlock(readme: string, a: AnchoredBlock, n: string, byId: map<string, ReadmeJobRow>, order: seq<string>)
    requires IsAnchoredSplit(readme, a)
    requires |n| >= 1 && n[0] == '\n' && n[|n| - 1] == '\n' && !Contains(n, JobsTableEnd)
    requires MergedBlock(n, byId, order) == n
    ensures Merge(a.before + n + a.after, byId, order) == Success(MergeResult(a.before + n + a.after, false))
  {
    ReanchorRewrite(readme, a, n);
    MergeSpelledOut(a.before + n + a.after, byId, order);
  }

}
