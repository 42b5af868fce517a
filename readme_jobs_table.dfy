/**
 * The job table inside the sync repository's README: locating the anchored
 * region, classifying its lines, rendering the table and merging the rows
 * that come from the database with the rows that people added by hand.
 */
module ReadmeJobsTable {
  import opened Wrappers
  import opened Text

  const JobsTableStart: string := "<!-- JOBS_TABLE_START -->"
  const JobsTableEnd: string := "<!-- JOBS_TABLE_END -->"

  const MissingAnchorsMessage: string :=
    "README is missing table anchors (" + JobsTableStart + " / " + JobsTableEnd
    + "). Add them to the sync repo README.md."

  /** One table row produced from the database, already rendered cell by cell. */
  datatype ReadmeJobRow = ReadmeJobRow(
    companyMarkdown: string,
    roleMarkdown: string,
    trackMarkdown: string,
    applyMarkdown: string,
    addedMarkdown: string)

  /** A data row found in the README, with the job id read from its track cell. */
  datatype ExistingReadmeRow = ExistingReadmeRow(rawLine: string, jobPostingId: Option<string>)

  /** The README cut around the anchors: `before` ends with the start anchor, `after` starts with the end anchor. */
  datatype AnchoredBlock = AnchoredBlock(before: string, block: string, after: string)

  datatype ParsedBlock = ParsedBlock(
    headerLines: seq<string>,
    rows: seq<ExistingReadmeRow>,
    otherLines: seq<string>)

  datatype MergeResult = MergeResult(nextReadme: string, changed: bool)

  /** The error thrown when the anchors are missing or out of order. */
  datatype TableError = MissingAnchors(message: string)

  // ---------------------------------------------------------------------------
  // Anchors
  // ---------------------------------------------------------------------------

  /**
   * `a` cuts `readme` right after the first start anchor and right before the
   * first end anchor.
   */
  ghost predicate IsAnchoredSplit(readme: string, a: AnchoredBlock) {
    && a.before + a.block + a.after == readme
    && EndsWith(a.before, JobsTableStart)
    && StartsWith(a.after, JobsTableEnd)
    && (forall k :: OccursAt(readme, JobsTableStart, k) ==> |a.before| - |JobsTableStart| <= k)
    && (forall k :: OccursAt(readme, JobsTableEnd, k) ==> |a.before| + |a.block| <= k)
  }

  /** An end anchor that does not precede a start anchor begins after the whole start anchor. */
  lemma AnchorsDoNotOverlap(s: string, i: int, j: int)
    requires OccursAt(s, JobsTableStart, i) && OccursAt(s, JobsTableEnd, j) && i <= j
    ensures i + |JobsTableStart| <= j
  {
    assert s[j] == '<' by { assert s[j..j + |JobsTableEnd|][0] == s[j]; }
    assert s[i + 16] == 'S' by { assert s[i..i + |JobsTableStart|][16] == s[i + 16]; }
    assert s[j + 16] == 'E' by { assert s[j..j + |JobsTableEnd|][16] == s[j + 16]; }
    assert '<' !in JobsTableStart[1..];
    forall k | i < k < i + |JobsTableStart|
      ensures s[k] != '<'
    {
      assert s[k] == JobsTableStart[1..][k - i - 1] by {
        assert s[i..i + |JobsTableStart|][k - i] == s[k];
      }
    }
  }

  function ExtractAnchoredBlock(readme: string): (r: Result<AnchoredBlock, TableError>)
    ensures r.Failure? ==> r.error == MissingAnchors(MissingAnchorsMessage)
    ensures r.Success? ==> IsAnchoredSplit(readme, r.value)
  {
    var startIdx := IndexOf(readme, JobsTableStart);
    var endIdx := IndexOf(readme, JobsTableEnd);
    if startIdx == -1 || endIdx == -1 || endIdx < startIdx then
      Failure(MissingAnchors(MissingAnchorsMessage))
    else
      var cut := startIdx + |JobsTableStart|;
      AnchoredSplitAt(readme, startIdx, endIdx);
      Success(AnchoredBlock(readme[..cut], readme[cut..endIdx], readme[endIdx..]))
  }

  /** Cutting after the first start anchor and before the first end anchor gives an anchored split. */
  lemma AnchoredSplitAt(readme: string, startIdx: int, endIdx: int)
    requires startIdx == IndexOf(readme, JobsTableStart) && startIdx >= 0
    requires endIdx == IndexOf(readme, JobsTableEnd) && endIdx >= startIdx
    ensures startIdx + |JobsTableStart| <= endIdx
    ensures var cut := startIdx + |JobsTableStart|;
      IsAnchoredSplit(readme, AnchoredBlock(readme[..cut], readme[cut..endIdx], readme[endIdx..]))
  {
    AnchorsDoNotOverlap(readme, startIdx, endIdx);
    var cut := startIdx + |JobsTableStart|;
    SliceThree(readme, cut, endIdx);
    EndsWithOccurrence(readme, JobsTableStart, startIdx);
    StartsWithOccurrence(readme, JobsTableEnd, endIdx);
  }

  /** The text up to the end of an occurrence ends with the pattern. */
  lemma EndsWithOccurrence(s: string, pat: string, i: int)
    requires OccursAt(s, pat, i)
    ensures EndsWith(s[..i + |pat|], pat)
  {
    assert s[..i + |pat|][i..] == s[i..i + |pat|];
  }

  /** The text from an occurrence on starts with the pattern. */
  lemma StartsWithOccurrence(s: string, pat: string, i: int)
    requires OccursAt(s, pat, i)
    ensures StartsWith(s[i..], pat)
  {
    assert s[i..][..|pat|] == s[i..i + |pat|];
  }

  /** A string is its three slices around two cut points. */
  lemma SliceThree(s: string, i: int, j: int)
    requires 0 <= i <= j <= |s|
    ensures s[..i] + s[i..j] + s[j..] == s
  {
  }

  /** A string framed by two others starts with the first and ends with the last. */
  lemma Framed(x: string, m: string, y: string)
    ensures StartsWith(x + m + y, x) && EndsWith(x + m + y, y)
  {
    var s := x + m + y;
    assert s[..|x|] == x;
    assert s[|s| - |y|..] == y;
  }

  /**
   * Extraction fails exactly when an anchor is missing or every start anchor
   * comes after some end anchor.
   */
  lemma ExtractAnchoredBlockFails(readme: string)
    ensures ExtractAnchoredBlock(readme).Failure? <==>
      || (forall i :: !OccursAt(readme, JobsTableStart, i))
      || (forall j :: !OccursAt(readme, JobsTableEnd, j))
      || (exists j :: OccursAt(readme, JobsTableEnd, j) &&
            forall i :: OccursAt(readme, JobsTableStart, i) ==> j < i)
  {
    var startIdx := IndexOf(readme, JobsTableStart);
    var endIdx := IndexOf(readme, JobsTableEnd);
    if startIdx != -1 && endIdx != -1 && endIdx < startIdx {
      assert OccursAt(readme, JobsTableEnd, endIdx);
    }
  }

  /**
   * The cut is unique: any decomposition with the anchored-split properties is
   * the one `ExtractAnchoredBlock` returns.
   */
  lemma ExtractAnchoredBlockUnique(readme: string, a: AnchoredBlock)
    requires IsAnchoredSplit(readme, a)
    ensures ExtractAnchoredBlock(readme) == Success(a)
  {
    var s := |a.before| - |JobsTableStart|;
    var e := |a.before| + |a.block|;
    assert OccursAt(readme, JobsTableStart, s) by {
      assert readme[s..s + |JobsTableStart|] == a.before[s..];
    }
    assert OccursAt(readme, JobsTableEnd, e) by {
      assert readme[e..e + |JobsTableEnd|] == a.after[..|JobsTableEnd|];
    }
    assert IndexOf(readme, JobsTableStart) == s;
    assert IndexOf(readme, JobsTableEnd) == e;
    var r := ExtractAnchoredBlock(readme);
    assert r.Success?;
    assert r.value.before == readme[..|a.before|] == a.before;
    assert r.value.block == readme[|a.before|..e] == a.block;
    assert r.value.after == readme[e..] == a.after;
  }

  // ---------------------------------------------------------------------------
  // Classifying lines
  // ---------------------------------------------------------------------------

  /** A trimmed line that starts and ends with a pipe and has at least two of them. */
  predicate IsTableRowLine(line: string) {
    var t := Trim(line);
    StartsWith(t, "|") && EndsWith(t, "|") && |Split(t, '|')| >= 3
  }

  /** The cells of a row: drop the outer characters, split on every pipe, trim each piece. */
  function SplitTableCells(line: string): (cells: seq<string>)
    ensures forall i :: 0 <= i < |cells| ==> '|' !in cells[i] && IsTrimmed(cells[i])
  {
    var t := Trim(line);
    var inner := if |t| >= 2 then t[1..|t| - 1] else "";
    var pieces := Split(inner, '|');
    var cells := seq(|pieces|, i requires 0 <= i < |pieces| => Trim(pieces[i]));
    assert forall i :: 0 <= i < |cells| ==> '|' !in cells[i] by {
      forall i | 0 <= i < |cells|
        ensures '|' !in cells[i]
      {
        TrimKeepsChars(pieces[i]);
      }
    }
    cells
  }

  /** Between the outer pipes of a row line lie all its other pipes. */
  lemma PipesInside(t: string)
    requires StartsWith(t, "|") && EndsWith(t, "|") && CountChar(t, '|') >= 2
    ensures |t| >= 2 && CountChar(t[1..|t| - 1], '|') + 2 == CountChar(t, '|')
  {
    assert t[0] == '|' by { assert t[..1][0] == t[0]; }
    assert t == [t[0]] + t[1..];
    assert multiset(t) == multiset([t[0]]) + multiset(t[1..]);
    assert multiset(t[1..])['|'] >= 1;
    assert |t| >= 2;
    var inner := t[1..|t| - 1];
    assert t[|t| - 1] == '|' by { assert t[|t| - 1..][0] == t[|t| - 1]; }
    assert t == [t[0]] + inner + [t[|t| - 1]];
    assert multiset(t) == multiset([t[0]]) + multiset(inner) + multiset([t[|t| - 1]]);
  }

  /** A row line has one cell fewer than it has pipes, so at least one. */
  lemma TableRowCellCount(line: string)
    requires IsTableRowLine(line)
    ensures |SplitTableCells(line)| + 1 == CountChar(Trim(line), '|')
    ensures |SplitTableCells(line)| >= 1
  {
    var t := Trim(line);
    assert |Split(t, '|')| == CountChar(t, '|') + 1;
    PipesInside(t);
    CellsOfInner(line);
  }

  /** The cells of a trimmed line of two or more characters are the trimmed pieces of its inside. */
  lemma CellsOfSplit(line: string)
    requires Trim(line) == line && |line| >= 2
    ensures var pieces := Split(line[1..|line| - 1], '|');
      && |SplitTableCells(line)| == |pieces|
      && forall i :: 0 <= i < |pieces| ==> SplitTableCells(line)[i] == Trim(pieces[i])
  {
    assert Trim(line)[1..|Trim(line)| - 1] == line[1..|line| - 1];
  }

  /** Without the outer characters, the cells are one more than the pipes left inside. */
  lemma CellsOfInner(line: string)
    requires |Trim(line)| >= 2
    ensures |SplitTableCells(line)| == CountChar(Trim(line)[1..|Trim(line)| - 1], '|') + 1
  {
    var t := Trim(line);
    var inner := t[1..|t| - 1];
    assert |Split(inner, '|')| == CountChar(inner, '|') + 1;
  }

  /** The header vocabulary, matched case-insensitively on a whole cell. */
  const HeaderWords: set<string> := {"company", "role", "track", "apply", "added"}

  predicate IsHeaderCell(cell: string) {
    AsciiLower(cell) in HeaderWords
  }

  predicate IsDashes(s: string) {
    |s| > 0 && forall i :: 0 <= i < |s| ==> s[i] == '-'
  }

  /** Optional colon, one or more dashes, optional colon (or exactly three dashes). */
  predicate IsSeparatorCell(cell: string) {
    var a := if |cell| > 0 && cell[0] == ':' then cell[1..] else cell;
    var b := if |a| > 0 && a[|a| - 1] == ':' then a[..|a| - 1] else a;
    IsDashes(b) || cell == "---"
  }

  /** `cells.some(...)`: some cell is a header word. */
  predicate LooksLikeHeader(cells: seq<string>)
    decreases |cells|
  {
    |cells| > 0 && (IsHeaderCell(cells[0]) || LooksLikeHeader(cells[1..]))
  }

  /** `cells.every(...)`: every cell is a separator cell. */
  predicate LooksLikeSeparator(cells: seq<string>)
    decreases |cells|
  {
    |cells| == 0 || (IsSeparatorCell(cells[0]) && LooksLikeSeparator(cells[1..]))
  }

  lemma {:induction false} LooksLikeHeaderSome(cells: seq<string>)
    ensures LooksLikeHeader(cells) <==> exists i :: 0 <= i < |cells| && IsHeaderCell(cells[i])
    decreases |cells|
  {
    if |cells| > 0 {
      LooksLikeHeaderSome(cells[1..]);
      if exists i :: 0 <= i < |cells| && IsHeaderCell(cells[i]) {
        var i :| 0 <= i < |cells| && IsHeaderCell(cells[i]);
        if i > 0 {
          assert cells[1..][i - 1] == cells[i];
        }
      }
      if LooksLikeHeader(cells[1..]) {
        var i :| 0 <= i < |cells[1..]| && IsHeaderCell(cells[1..][i]);
        assert cells[i + 1] == cells[1..][i];
      }
    }
  }

  lemma {:induction false} LooksLikeSeparatorEvery(cells: seq<string>)
    ensures LooksLikeSeparator(cells) <==> forall i :: 0 <= i < |cells| ==> IsSeparatorCell(cells[i])
    decreases |cells|
  {
    if |cells| > 0 {
      LooksLikeSeparatorEvery(cells[1..]);
      if forall i :: 0 <= i < |cells| ==> IsSeparatorCell(cells[i]) {
        forall i | 0 <= i < |cells[1..]| ensures IsSeparatorCell(cells[1..][i]) {
          assert cells[1..][i] == cells[i + 1];
        }
      }
      if LooksLikeSeparator(cells) {
        forall i | 0 <= i < |cells| ensures IsSeparatorCell(cells[i]) {
          if i > 0 {
            assert cells[i] == cells[1..][i - 1];
          }
        }
      }
    }
  }

  datatype LineKind = OtherLine | HeaderLine | DataLine

  /** Where the parser files a line of the anchored block. */
  function KindOf(line: string): LineKind {
    var normalized := Trim(line);
    if normalized == "" || !IsTableRowLine(normalized) then OtherLine
    else
      var cells := SplitTableCells(normalized);
      if LooksLikeHeader(cells) || LooksLikeSeparator(cells) then HeaderLine else DataLine
  }

  /** The existing row recorded for a data line. */
  function RowOf(line: string): ExistingReadmeRow {
    var normalized := Trim(line);
    ExistingReadmeRow(normalized, ExtractJobPostingIdFromTrackCell(SplitTableCells(normalized)))
  }

  /** Classification and row reading look only at the trimmed line. */
  lemma KindOfTrim(line: string)
    ensures KindOf(Trim(line)) == KindOf(line)
    ensures RowOf(Trim(line)) == RowOf(line)
  {
    TrimIdempotent(line);
  }

  // ---------------------------------------------------------------------------
  // Job ids in the track cell
  // ---------------------------------------------------------------------------

  const JobPathMarker: string := "/job/"
  const JobIdLength: nat := 36

  predicate IsJobIdChar(c: char) {
    '0' <= c <= '9' || 'a' <= c <= 'f' || 'A' <= c <= 'F' || c == '-'
  }

  predicate IsJobIdShaped(s: string) {
    |s| == JobIdLength && forall i :: 0 <= i < |s| ==> IsJobIdChar(s[i])
  }

  /** The pattern `/job/` followed by 36 hex digits or hyphens matches at index `i`. */
  predicate JobIdMatchAt(cell: string, i: int) {
    && OccursAt(cell, JobPathMarker, i)
    && i + |JobPathMarker| + JobIdLength <= |cell|
    && IsJobIdShaped(cell[i + |JobPathMarker|..i + |JobPathMarker| + JobIdLength])
  }

  function FirstJobIdMatch(cell: string, from: nat): (r: Option<nat>)
    ensures r.Some? ==> from <= r.value && JobIdMatchAt(cell, r.value)
    ensures forall k :: from <= k && (r.None? || k < r.value) ==> !JobIdMatchAt(cell, k)
    decreases |cell| - from
  {
    if from + |JobPathMarker| + JobIdLength > |cell| then None
    else if JobIdMatchAt(cell, from) then Some(from)
    else FirstJobIdMatch(cell, from + 1)
  }

  /** The id captured by the leftmost match in the third cell (or in "" when there is none). */
  function ExtractJobPostingIdFromTrackCell(cells: seq<string>): (id: Option<string>)
    ensures |cells| < 3 ==> id.None?
    ensures id.None? && |cells| >= 3 ==> forall i :: !JobIdMatchAt(cells[2], i)
    ensures id.Some? ==>
      && |cells| >= 3
      && IsJobIdShaped(id.value)
      && exists i :: && JobIdMatchAt(cells[2], i)
                     && id.value == cells[2][i + |JobPathMarker|..i + |JobPathMarker| + JobIdLength]
                     && forall k :: 0 <= k < i ==> !JobIdMatchAt(cells[2], k)
  {
    var trackCell := if |cells| >= 3 then cells[2] else "";
    match FirstJobIdMatch(trackCell, 0)
    case None => None
    case Some(i) => Some(trackCell[i + |JobPathMarker|..i + |JobPathMarker| + JobIdLength])
  }

  // ---------------------------------------------------------------------------
  // Parsing the block
  // ---------------------------------------------------------------------------

  /** Files one line of the given kind into its bucket. */
  function FileLine(p: ParsedBlock, kind: LineKind, line: string): ParsedBlock {
    match kind
    case OtherLine => p.(otherLines := p.otherLines + [line])
    case HeaderLine => p.(headerLines := p.headerLines + [Trim(line)])
    case DataLine => p.(rows := p.rows + [RowOf(line)])
  }

  /** The three buckets the parser fills, line by line, in order. */
  function ParseLines(lines: seq<string>): ParsedBlock {
    if |lines| == 0 then ParsedBlock([], [], [])
    else FileLine(ParseLines(lines[..|lines| - 1]), KindOf(lines[|lines| - 1]), lines[|lines| - 1])
  }

  method ParseExistingRowsFromBlock(block: string) returns (parsed: ParsedBlock)
    ensures parsed == ParseLines(Split(block, '\n'))
  {
    var lines := Split(block, '\n');
    var headerLines: seq<string> := [];
    var rows: seq<ExistingReadmeRow> := [];
    var otherLines: seq<string> := [];
    for n := 0 to |lines|
      invariant ParsedBlock(headerLines, rows, otherLines) == ParseLines(lines[..n])
    {
      var line := lines[n];
      assert lines[..n + 1][..n] == lines[..n];
      var normalized := Trim(line);
      match KindOf(line)
      case OtherLine =>
        otherLines := otherLines + [line];
      case HeaderLine =>
        headerLines := headerLines + [normalized];
      case DataLine =>
        rows := rows + [RowOf(line)];
    }
    assert lines[..|lines|] == lines;
    parsed := ParsedBlock(headerLines, rows, otherLines);
  }

  /** Every line lands in exactly one bucket. */
  lemma {:induction false} ParseLinesCount(lines: seq<string>)
    ensures var p := ParseLines(lines);
      |p.headerLines| + |p.rows| + |p.otherLines| == |lines|
  {
    if |lines| > 0 {
      ParseLinesCount(lines[..|lines| - 1]);
    }
  }

  function ConcatParsed(p: ParsedBlock, q: ParsedBlock): ParsedBlock {
    ParsedBlock(p.headerLines + q.headerLines, p.rows + q.rows, p.otherLines + q.otherLines)
  }

  lemma FileLineConcat(p: ParsedBlock, q: ParsedBlock, kind: LineKind, line: string)
    ensures FileLine(ConcatParsed(p, q), kind, line) == ConcatParsed(p, FileLine(q, kind, line))
  {
    match kind
    case OtherLine => assert p.otherLines + q.otherLines + [line] == p.otherLines + (q.otherLines + [line]);
    case HeaderLine =>
      assert p.headerLines + q.headerLines + [Trim(line)] == p.headerLines + (q.headerLines + [Trim(line)]);
    case DataLine => assert p.rows + q.rows + [RowOf(line)] == p.rows + (q.rows + [RowOf(line)]);
  }

  /** Parsing is line by line: the buckets of a concatenation are the concatenated buckets. */
  lemma {:induction false} ParseLinesAppend(a: seq<string>, b: seq<string>)
    ensures ParseLines(a + b) == ConcatParsed(ParseLines(a), ParseLines(b))
    decreases |b|
  {
    if |b| == 0 {
      assert a + b == a;
      var p := ParseLines(a);
      assert ConcatParsed(p, ParsedBlock([], [], [])) == p;
    } else {
      var b' := b[..|b| - 1];
      var line := b[|b| - 1];
      assert (a + b)[..|a + b| - 1] == a + b';
      assert (a + b)[|a + b| - 1] == line;
      ParseLinesAppend(a, b');
      FileLineConcat(ParseLines(a), ParseLines(b'), KindOf(line), line);
    }
  }

  /** A kept header line is a trimmed line that the parser files as a header. */
  predicate IsKeptHeader(h: string) {
    Trim(h) == h && KindOf(h) == HeaderLine
  }

  /** A kept row is the row the parser records for its own raw line, which it files as data. */
  predicate IsKeptRow(r: ExistingReadmeRow) {
    RowOf(r.rawLine) == r && KindOf(r.rawLine) == DataLine
  }

  /** Every bucket holds only what the parser files there. */
  predicate IsSoundParse(p: ParsedBlock) {
    && (forall i :: 0 <= i < |p.headerLines| ==> IsKeptHeader(p.headerLines[i]))
    && (forall i :: 0 <= i < |p.rows| ==> IsKeptRow(p.rows[i]))
    && (forall i :: 0 <= i < |p.otherLines| ==> KindOf(p.otherLines[i]) == OtherLine)
  }

  /** Filing one more line keeps every bucket sound. */
  lemma FileLineSound(p: ParsedBlock, line: string)
    requires IsSoundParse(p)
    ensures IsSoundParse(FileLine(p, KindOf(line), line))
  {
    KindOfTrim(line);
    TrimIdempotent(line);
    match KindOf(line)
    case HeaderLine => HeadersSnocKept(p.headerLines, Trim(line));
    case DataLine => RowsSnocKept(p.rows, RowOf(line));
    case OtherLine => OthersSnoc(p.otherLines, line);
  }

  lemma HeadersSnocKept(hs: seq<string>, x: string)
    requires forall i :: 0 <= i < |hs| ==> IsKeptHeader(hs[i])
    requires IsKeptHeader(x)
    ensures forall i :: 0 <= i < |hs + [x]| ==> IsKeptHeader((hs + [x])[i])
  {
    forall i | 0 <= i < |hs + [x]| ensures IsKeptHeader((hs + [x])[i]) {
      if i < |hs| { assert (hs + [x])[i] == hs[i]; }
    }
  }

  lemma RowsSnocKept(rs: seq<ExistingReadmeRow>, x: ExistingReadmeRow)
    requires forall i :: 0 <= i < |rs| ==> IsKeptRow(rs[i])
    requires IsKeptRow(x)
    ensures forall i :: 0 <= i < |rs + [x]| ==> IsKeptRow((rs + [x])[i])
  {
    forall i | 0 <= i < |rs + [x]| ensures IsKeptRow((rs + [x])[i]) {
      if i < |rs| { assert (rs + [x])[i] == rs[i]; }
    }
  }

  lemma OthersSnoc(os: seq<string>, x: string)
    requires forall i :: 0 <= i < |os| ==> KindOf(os[i]) == OtherLine
    requires KindOf(x) == OtherLine
    ensures forall i :: 0 <= i < |os + [x]| ==> KindOf((os + [x])[i]) == OtherLine
  {
    forall i | 0 <= i < |os + [x]| ensures KindOf((os + [x])[i]) == OtherLine {
      if i < |os| { assert (os + [x])[i] == os[i]; }
    }
  }

  /** Every header line the parser keeps is a header, every row it records is a data row of its own line. */
  lemma {:induction false} ParseLinesSound(lines: seq<string>)
    ensures IsSoundParse(ParseLines(lines))
  {
    if |lines| > 0 {
      var init := lines[..|lines| - 1];
      ParseLinesSound(init);
      FileLineSound(ParseLines(init), lines[|lines| - 1]);
    } else {
      assert ParseLines(lines) == ParsedBlock([], [], []);
    }
  }

  /** A line that can sit inside the anchored block: no line break and no end anchor. */
  predicate CleanLine(s: string) {
    '\n' !in s && !Contains(s, JobsTableEnd)
  }

  lemma TrimKeepsClean(s: string)
    requires CleanLine(s)
    ensures CleanLine(Trim(s))
  {
    TrimKeepsChars(s);
    var i, j := TrimParts(s);
    AbsentFromSlice(s, i, j, JobsTableEnd);
  }

  predicate IsCleanParse(p: ParsedBlock) {
    && (forall i :: 0 <= i < |p.headerLines| ==> CleanLine(p.headerLines[i]))
    && (forall i :: 0 <= i < |p.rows| ==> CleanLine(p.rows[i].rawLine))
    && (forall i :: 0 <= i < |p.otherLines| ==> CleanLine(p.otherLines[i]))
  }

  lemma FileLineClean(p: ParsedBlock, kind: LineKind, line: string)
    requires IsCleanParse(p) && CleanLine(line)
    ensures IsCleanParse(FileLine(p, kind, line))
  {
    TrimKeepsClean(line);
  }

  /** Parsing clean lines keeps only clean lines. */
  lemma {:induction false} ParseLinesClean(lines: seq<string>)
    requires forall i :: 0 <= i < |lines| ==> CleanLine(lines[i])
    ensures IsCleanParse(ParseLines(lines))
  {
    if |lines| > 0 {
      var init := lines[..|lines| - 1];
      var line := lines[|lines| - 1];
      ParseLinesClean(init);
      FileLineClean(ParseLines(init), KindOf(line), line);
    } else {
      assert ParseLines(lines) == ParsedBlock([], [], []);
    }
  }

  // ---------------------------------------------------------------------------
  // Community rows and database rows
  // ---------------------------------------------------------------------------

  /** The raw lines of the rows without a job id, in order. */
  function CommunityLines(rows: seq<ExistingReadmeRow>): (lines: seq<string>)
    ensures |lines| <= |rows|
  {
    if |rows| == 0 then []
    else
      var prev := CommunityLines(rows[..|rows| - 1]);
      var last := rows[|rows| - 1];
      if last.jobPostingId.None? then prev + [last.rawLine] else prev
  }

  /** `line` is the raw line of some row without an id. */
  predicate IsIdlessRowLine(rows: seq<ExistingReadmeRow>, line: string) {
    exists j :: 0 <= j < |rows| && rows[j].jobPostingId.None? && rows[j].rawLine == line
  }

  /** Community lines are exactly the raw lines of id-less rows: nothing else is copied. */
  lemma CommunityLinesSound(rows: seq<ExistingReadmeRow>)
    ensures forall i :: 0 <= i < |CommunityLines(rows)| ==> IsIdlessRowLine(rows, CommunityLines(rows)[i])
  {
    forall i | 0 <= i < |CommunityLines(rows)|
      ensures IsIdlessRowLine(rows, CommunityLines(rows)[i])
    {
      var j := CommunityLineSource(rows, i);
    }
  }

  /** The row a community line was copied from. */
  lemma {:induction false} CommunityLineSource(rows: seq<ExistingReadmeRow>, i: int) returns (j: int)
    requires 0 <= i < |CommunityLines(rows)|
    ensures 0 <= j < |rows| && rows[j].jobPostingId.None? && rows[j].rawLine == CommunityLines(rows)[i]
  {
    var n := |rows| - 1;
    var init := rows[..n];
    var p := CommunityLines(init);
    var c := CommunityLines(rows);
    if rows[n].jobPostingId.None? {
      assert c == p + [rows[n].rawLine];
      if i < |p| {
        j := CommunityLineSource(init, i);
        assert rows[j] == init[j] && c[i] == p[i];
      } else {
        j := n;
      }
    } else {
      assert c == p;
      j := CommunityLineSource(init, i);
      assert rows[j] == init[j];
    }
  }

  lemma {:induction false} CommunityLinesAppend(a: seq<ExistingReadmeRow>, b: seq<ExistingReadmeRow>)
    ensures CommunityLines(a + b) == CommunityLines(a) + CommunityLines(b)
    decreases |b|
  {
    if |b| == 0 {
      assert a + b == a;
    } else {
      var b' := b[..|b| - 1];
      assert (a + b)[..|a + b| - 1] == a + b';
      assert (a + b)[|a + b| - 1] == b[|b| - 1];
      CommunityLinesAppend(a, b');
    }
  }

  /** The rows of the desired order that the map knows, in that order. */
  function SelectDbRows(order: seq<string>, byId: map<string, ReadmeJobRow>): (rows: seq<ReadmeJobRow>)
    ensures |rows| <= |order|
  {
    if |order| == 0 then []
    else
      var prev := SelectDbRows(order[..|order| - 1], byId);
      var id := order[|order| - 1];
      if id in byId then prev + [byId[id]] else prev
  }

  /** When every id of the order is known, the rows follow the order exactly. */
  lemma {:induction false} SelectDbRowsAllKnown(order: seq<string>, byId: map<string, ReadmeJobRow>)
    requires forall i :: 0 <= i < |order| ==> order[i] in byId
    ensures |SelectDbRows(order, byId)| == |order|
    ensures forall i :: 0 <= i < |order| ==> SelectDbRows(order, byId)[i] == byId[order[i]]
  {
    if |order| > 0 {
      SelectDbRowsAllKnown(order[..|order| - 1], byId);
    }
  }

  /** The ids of the order that the map knows, in order (repeats kept). */
  function KnownIds(order: seq<string>, byId: map<string, ReadmeJobRow>): (ids: seq<string>)
    ensures forall id :: id in ids <==> id in order && id in byId
  {
    if |order| == 0 then []
    else
      var prev := KnownIds(order[..|order| - 1], byId);
      var id := order[|order| - 1];
      assert order == order[..|order| - 1] + [id];
      if id in byId then prev + [id] else prev
  }

  /** The selected rows are the map's rows for the known ids of the order, one for one. */
  lemma {:induction false} SelectDbRowsFollowKnownIds(order: seq<string>, byId: map<string, ReadmeJobRow>)
    ensures |SelectDbRows(order, byId)| == |KnownIds(order, byId)|
    ensures forall i :: 0 <= i < |KnownIds(order, byId)| ==>
      KnownIds(order, byId)[i] in byId && SelectDbRows(order, byId)[i] == byId[KnownIds(order, byId)[i]]
  {
    if |order| > 0 {
      SelectDbRowsFollowKnownIds(order[..|order| - 1], byId);
    } else {
      assert KnownIds(order, byId) == [];
    }
  }

  // ---------------------------------------------------------------------------
  // Rendering
  // ---------------------------------------------------------------------------

  const DefaultHeaderLines: seq<string> :=
    ["| Company | Role | Track | Apply | Added |", "|---|---|---|---|---:|"]

  function Padded(cell: string): string {
    " " + cell + " "
  }

  /** The rendered row: every cell padded by one space, with pipes between and around the cells. */
  function RowLine(r: ReadmeJobRow): string {
    "|" + Join(PaddedCells(r), '|') + "|"
  }

  /** The five cells of a row, in column order, each padded by one space. */
  function PaddedCells(r: ReadmeJobRow): seq<string> {
    [Padded(r.companyMarkdown), Padded(r.roleMarkdown), Padded(r.trackMarkdown),
      Padded(r.applyMarkdown), Padded(r.addedMarkdown)]
  }

  /** Spelled out, the rendered row is `| company | role | track | apply | added |`. */
  lemma RowLineText(r: ReadmeJobRow)
    ensures RowLine(r) == "| " + r.companyMarkdown + " | " + r.roleMarkdown + " | " + r.trackMarkdown
      + " | " + r.applyMarkdown + " | " + r.addedMarkdown + " |"
  {
    var ps := PaddedCells(r);
    var j5 := Padded(r.addedMarkdown);
    var j4 := Padded(r.applyMarkdown) + "|" + j5;
    var j3 := Padded(r.trackMarkdown) + "|" + j4;
    var j2 := Padded(r.roleMarkdown) + "|" + j3;
    var j1 := Padded(r.companyMarkdown) + "|" + j2;
    assert Join(ps[4..], '|') == j5;
    assert Join(ps[3..], '|') == j4 by { assert ps[3..][1..] == ps[4..]; }
    assert Join(ps[2..], '|') == j3 by { assert ps[2..][1..] == ps[3..]; }
    assert Join(ps[1..], '|') == j2 by { assert ps[1..][1..] == ps[2..]; }
    assert Join(ps, '|') == j1;
  }

  function RowLines(rows: seq<ReadmeJobRow>): (lines: seq<string>)
    ensures |lines| == |rows|
  {
    seq(|rows|, i requires 0 <= i < |rows| => RowLine(rows[i]))
  }

  /** The existing header block is kept when it has at least two lines. */
  function EffectiveHeaderLines(headerLines: seq<string>): seq<string> {
    if |headerLines| >= 2 then headerLines else DefaultHeaderLines
  }

  /** The lines of the rendered block: an empty line, header, database rows, community rows, an empty line. */
  function RenderedLines(headerLines: seq<string>, dbRows: seq<ReadmeJobRow>, community: seq<string>): seq<string> {
    [""] + EffectiveHeaderLines(headerLines) + RowLines(dbRows) + community + [""]
  }

  function RenderJobsTable(headerLines: seq<string>, dbRows: seq<ReadmeJobRow>, community: seq<string>): (out: string)
    ensures |out| >= 2 && out[0] == '\n' && out[|out| - 1] == '\n'
  {
    var lines := RenderedLines(headerLines, dbRows, community);
    JoinLast(lines[1..], '\n');
    assert lines[1..][|lines[1..]| - 1] == "";
    Join(lines, '\n')
  }

  predicate NoLineBreak(s: string) {
    '\n' !in s
  }

  /** A rendered block splits back into exactly the lines it was built from. */
  lemma RenderedTableLines(headerLines: seq<string>, dbRows: seq<ReadmeJobRow>, community: seq<string>)
    requires forall i :: 0 <= i < |headerLines| ==> NoLineBreak(headerLines[i])
    requires forall i :: 0 <= i < |dbRows| ==> NoLineBreak(RowLine(dbRows[i]))
    requires forall i :: 0 <= i < |community| ==> NoLineBreak(community[i])
    ensures Split(RenderJobsTable(headerLines, dbRows, community), '\n')
         == RenderedLines(headerLines, dbRows, community)
  {
    var lines := RenderedLines(headerLines, dbRows, community);
    var h := EffectiveHeaderLines(headerLines);
    var d := RowLines(dbRows);
    assert '\n' !in DefaultHeaderLines[0] && '\n' !in DefaultHeaderLines[1];
    forall i | 0 <= i < |lines|
      ensures '\n' !in lines[i]
    {
      if 1 <= i < 1 + |h| {
        assert lines[i] == h[i - 1];
      } else if 1 + |h| <= i < 1 + |h| + |d| {
        assert lines[i] == RowLine(dbRows[i - 1 - |h|]);
      } else if 1 + |h| + |d| <= i < |lines| - 1 {
        assert lines[i] == community[i - 1 - |h| - |d|];
      }
    }
    SplitJoin(lines, '\n');
  }

  // ---------------------------------------------------------------------------
  // Merging
  // ---------------------------------------------------------------------------

  /** The whole merge as one value: the README rebuilt around a freshly rendered block. */
  function Merge(readme: string, byId: map<string, ReadmeJobRow>, order: seq<string>): (r: Result<MergeResult, TableError>)
    ensures r.Failure? <==> ExtractAnchoredBlock(readme).Failure?
    ensures r.Failure? ==> r.error == MissingAnchors(MissingAnchorsMessage)
    ensures r.Success? ==>
      var a := ExtractAnchoredBlock(readme).value;
      && StartsWith(r.value.nextReadme, a.before)
      && EndsWith(r.value.nextReadme, a.after)
      && (r.value.changed <==> r.value.nextReadme != readme)
  {
    match ExtractAnchoredBlock(readme)
    case Failure(e) => Failure(e)
    case Success(a) =>
      var next := a.before + MergedBlock(a.block, byId, order) + a.after;
      Framed(a.before, MergedBlock(a.block, byId, order), a.after);
      Success(MergeResult(next, next != readme))
  }

  /**
   * The block the merge writes in place of the old one: the old header lines,
   * the database rows in the desired order, then the id-less rows of the old block.
   */
  function MergedBlock(block: string, byId: map<string, ReadmeJobRow>, order: seq<string>): (n: string)
    ensures |n| >= 2 && n[0] == '\n' && n[|n| - 1] == '\n'
  {
    var parsed := ParseLines(Split(block, '\n'));
    var community := CommunityLines(parsed.rows);
    var dbRows := SelectDbRows(order, byId);
    RenderJobsTable(parsed.headerLines, dbRows, community)
  }

  method MergeReadmeJobsTable(readme: string, byId: map<string, ReadmeJobRow>, order: seq<string>)
    returns (r: Result<MergeResult, TableError>)
    ensures r == Merge(readme, byId, order)
  {
    var extracted := ExtractAnchoredBlock(readme);
    if extracted.Failure? {
      return Failure(extracted.error);
    }
    var before, block, after := extracted.value.before, extracted.value.block, extracted.value.after;
    var parsed := ParseExistingRowsFromBlock(block);
    var community := CommunityLines(parsed.rows);
    var dbRows: seq<ReadmeJobRow> := [];
    for n := 0 to |order|
      invariant dbRows == SelectDbRows(order[..n], byId)
    {
      assert order[..n + 1][..n] == order[..n];
      var id := order[n];
      if id in byId {
        dbRows := dbRows + [byId[id]];
      }
    }
    assert order[..|order|] == order;
    var nextBlock := RenderJobsTable(parsed.headerLines, dbRows, community);
    assert nextBlock == MergedBlock(block, byId, order);
    var nextReadme := before + nextBlock + after;
    r := Success(MergeResult(nextReadme, nextReadme != readme));
  }

  /** The block between the anchors holds no end anchor. */
  lemma AnchoredBlockHasNoEnd(readme: string, a: AnchoredBlock)
    requires IsAnchoredSplit(readme, a)
    ensures !Contains(a.block, JobsTableEnd)
  {
    var b := |a.before|;
    forall k | 0 <= k && k + |JobsTableEnd| <= |a.block|
      ensures !OccursAt(a.block, JobsTableEnd, k)
    {
      assert a.block[k..k + |JobsTableEnd|] == readme[b + k..b + k + |JobsTableEnd|];
      assert !OccursAt(readme, JobsTableEnd, b + k);
    }
  }

  /** Every line of a block without the end anchor is clean. */
  lemma BlockLinesClean(block: string)
    requires !Contains(block, JobsTableEnd)
    ensures forall i :: 0 <= i < |Split(block, '\n')| ==> CleanLine(Split(block, '\n')[i])
  {
    SplitKeepsAbsent(block, '\n', JobsTableEnd);
  }

  /**
   * After a successful merge, the region between the anchors holds exactly the
   * rendered lines: the kept or default header, the selected database rows in
   * order, then the id-less rows of the old block in their old order.
   */
  lemma MergedBlockLines(readme: string, byId: map<string, ReadmeJobRow>, order: seq<string>)
    requires Merge(readme, byId, order).Success?
    requires forall id :: id in byId ==> NoLineBreak(RowLine(byId[id]))
    ensures
      var a := ExtractAnchoredBlock(readme).value;
      var next := Merge(readme, byId, order).value.nextReadme;
      var parsed := ParseLines(Split(a.block, '\n'));
      && |a.before| + |a.after| <= |next|
      && Split(next[|a.before|..|next| - |a.after|], '\n')
         == RenderedLines(parsed.headerLines, SelectDbRows(order, byId), CommunityLines(parsed.rows))
  {
    var a := ExtractAnchoredBlock(readme).value;
    var parsed := ParseLines(Split(a.block, '\n'));
    var out := RenderJobsTable(parsed.headerLines, SelectDbRows(order, byId), CommunityLines(parsed.rows));
    var next := a.before + out + a.after;
    assert next[|a.before|..|next| - |a.after|] == out;
    AnchoredBlockHasNoEnd(readme, a);
    RenderedBlockLines(a.block, byId, order);
  }

  /** The block rendered from a block without the end anchor splits into the rendered lines. */
  lemma RenderedBlockLines(block: string, byId: map<string, ReadmeJobRow>, order: seq<string>)
    requires !Contains(block, JobsTableEnd)
    requires forall id :: id in byId ==> NoLineBreak(RowLine(byId[id]))
    ensures var parsed := ParseLines(Split(block, '\n'));
      var dbRows := SelectDbRows(order, byId);
      var community := CommunityLines(parsed.rows);
      Split(RenderJobsTable(parsed.headerLines, dbRows, community), '\n')
        == RenderedLines(parsed.headerLines, dbRows, community)
  {
    var parsed := ParseLines(Split(block, '\n'));
    ParsedLinesUnbroken(block, parsed);
    SelectedRowsUnbroken(order, byId);
    RenderedTableLines(parsed.headerLines, SelectDbRows(order, byId), CommunityLines(parsed.rows));
  }

  /** The header and community lines parsed from a block without the end anchor hold no line break. */
  lemma ParsedLinesUnbroken(block: string, parsed: ParsedBlock)
    requires !Contains(block, JobsTableEnd)
    requires parsed == ParseLines(Split(block, '\n'))
    ensures forall i :: 0 <= i < |parsed.headerLines| ==> NoLineBreak(parsed.headerLines[i])
    ensures forall i :: 0 <= i < |CommunityLines(parsed.rows)| ==> NoLineBreak(CommunityLines(parsed.rows)[i])
  {
    var lines := Split(block, '\n');
    BlockLinesClean(block);
    ParseLinesClean(lines);
    CleanParseUnbroken(parsed);
  }

  lemma CleanParseUnbroken(p: ParsedBlock)
    requires IsCleanParse(p)
    ensures forall i :: 0 <= i < |p.headerLines| ==> NoLineBreak(p.headerLines[i])
    ensures forall i :: 0 <= i < |CommunityLines(p.rows)| ==> NoLineBreak(CommunityLines(p.rows)[i])
  {
    assert forall j :: 0 <= j < |p.rows| ==> NoLineBreak(p.rows[j].rawLine);
    CommunityUnbroken(p.rows);
  }

  lemma {:induction false} CommunityUnbroken(rows: seq<ExistingReadmeRow>)
    requires forall j :: 0 <= j < |rows| ==> NoLineBreak(rows[j].rawLine)
    ensures forall i :: 0 <= i < |CommunityLines(rows)| ==> NoLineBreak(CommunityLines(rows)[i])
  {
    if |rows| > 0 {
      var init := rows[..|rows| - 1];
      assert forall j :: 0 <= j < |init| ==> init[j] == rows[j];
      CommunityUnbroken(init);
      var prev := CommunityLines(init);
      var last := rows[|rows| - 1];
      if last.jobPostingId.None? {
        forall i | 0 <= i < |prev + [last.rawLine]| ensures NoLineBreak((prev + [last.rawLine])[i]) {
          if i < |prev| {
            assert (prev + [last.rawLine])[i] == prev[i];
          }
        }
      }
    }
  }

  /** The selected rows render without line breaks when every row of the table does. */
  lemma SelectedRowsUnbroken(order: seq<string>, byId: map<string, ReadmeJobRow>)
    requires forall id :: id in byId ==> NoLineBreak(RowLine(byId[id]))
    ensures forall i :: 0 <= i < |SelectDbRows(order, byId)| ==> NoLineBreak(RowLine(SelectDbRows(order, byId)[i]))
  {
    SelectDbRowsFollowKnownIds(order, byId);
  }
}
