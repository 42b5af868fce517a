/**
 * The export of verified Singapore internship tech jobs for the README: the
 * rows the job-posting query returns are filtered by three tag tests, ordered
 * newest first and mapped to the fields the README needs.
 *
 * The query itself is an input: a `Result` holding either the rows (or no
 * data at all) or the query error. Parsing `created_at` into a time is the
 * function `timeOf`.
 */
module ExportJobs {
  import opened Wrappers

  /** A job posting as the query returns it; a tag array the join left out is `None`. */
  datatype ExportJobRow = ExportJobRow(
    id: string,
    title: string,
    createdAt: string,
    url: Option<string>,
    companyId: string,
    companyName: string,
    countries: Option<seq<string>>,
    experienceLevels: Option<seq<string>>,
    jobCategories: Option<seq<string>>)

  /** What the README sync receives for one job. */
  datatype ExportReadmeJob = ExportReadmeJob(
    jobPostingId: string,
    title: string,
    createdAt: string,
    applyUrl: Option<string>,
    companyId: string,
    companyName: string)

  datatype QueryError = QueryError(message: string)

  const Singapore: string := "Singapore"
  const Internship: string := "Internship"
  const Tech: string := "Tech"

  // ---------------------------------------------------------------------------
  // Tag tests
  // ---------------------------------------------------------------------------

  /** Some entry of the tag array carries the name; a missing array has none. */
  predicate HasTag(tags: Option<seq<string>>, name: string) {
    tags.Some? && exists i :: 0 <= i < |tags.value| && tags.value[i] == name
  }

  predicate HasCountry(job: ExportJobRow, countryName: string) {
    HasTag(job.countries, countryName)
  }

  predicate HasExperienceLevel(job: ExportJobRow, experienceLevel: string) {
    HasTag(job.experienceLevels, experienceLevel)
  }

  predicate HasJobCategory(job: ExportJobRow, jobCategory: string) {
    HasTag(job.jobCategories, jobCategory)
  }

  /** The three tests the export applies, together. */
  predicate IsSgInternTech(job: ExportJobRow) {
    HasCountry(job, Singapore) && HasExperienceLevel(job, Internship) && HasJobCategory(job, Tech)
  }

  // ---------------------------------------------------------------------------
  // Filtering
  // ---------------------------------------------------------------------------

  /** `Array.prototype.filter`: the rows that pass, in their order. */
  function KeepIf(rows: seq<ExportJobRow>, keep: ExportJobRow -> bool): (kept: seq<ExportJobRow>)
    ensures |kept| <= |rows|
    ensures forall i :: 0 <= i < |kept| ==> keep(kept[i])
  {
    if |rows| == 0 then []
    else
      var rest := KeepIf(rows[1..], keep);
      if keep(rows[0]) then [rows[0]] + rest else rest
  }

  /** Filtering keeps every passing row as often as it occurs, and nothing else. */
  lemma {:induction false} KeepIfCounts(rows: seq<ExportJobRow>, keep: ExportJobRow -> bool)
    ensures forall x :: multiset(KeepIf(rows, keep))[x] == if keep(x) then multiset(rows)[x] else 0
  {
    if |rows| > 0 {
      KeepIfCounts(rows[1..], keep);
      assert rows == [rows[0]] + rows[1..];
    }
  }

  /** Filtering twice is filtering once by both tests. */
  lemma {:induction false} KeepIfTwice(rows: seq<ExportJobRow>, p: ExportJobRow -> bool,
                                       q: ExportJobRow -> bool, both: ExportJobRow -> bool)
    requires forall x :: both(x) == (p(x) && q(x))
    ensures KeepIf(KeepIf(rows, p), q) == KeepIf(rows, both)
  {
    if |rows| > 0 {
      KeepIfTwice(rows[1..], p, q, both);
      if p(rows[0]) {
        assert ([rows[0]] + KeepIf(rows[1..], p))[1..] == KeepIf(rows[1..], p);
      }
    }
  }

  /** The three filters of the export, in the order the code applies them. */
  function FilterSgInternTech(rows: seq<ExportJobRow>): seq<ExportJobRow> {
    var inSingapore := KeepIf(rows, job => HasCountry(job, Singapore));
    var internships := KeepIf(inSingapore, job => HasExperienceLevel(job, Internship));
    KeepIf(internships, job => HasJobCategory(job, Tech))
  }

  /** The chain of three filters keeps exactly the rows that pass all three tests. */
  lemma FilterSgInternTechKeeps(rows: seq<ExportJobRow>)
    ensures FilterSgInternTech(rows) == KeepIf(rows, IsSgInternTech)
  {
    var country := (job: ExportJobRow) => HasCountry(job, Singapore);
    var level := (job: ExportJobRow) => HasExperienceLevel(job, Internship);
    var category := (job: ExportJobRow) => HasJobCategory(job, Tech);
    var countryAndLevel := (job: ExportJobRow) => HasCountry(job, Singapore) && HasExperienceLevel(job, Internship);
    KeepIfTwice(rows, country, level, countryAndLevel);
    KeepIfTwice(rows, countryAndLevel, category, IsSgInternTech);
  }

  // ---------------------------------------------------------------------------
  // Newest first
  // ---------------------------------------------------------------------------

  function TimeOf(job: ExportJobRow, timeOf: string -> int): int {
    timeOf(job.createdAt)
  }

  /** Non-increasing creation time. */
  predicate IsNewestFirst(rows: seq<ExportJobRow>, timeOf: string -> int) {
    forall i, j :: 0 <= i < j < |rows| ==> TimeOf(rows[i], timeOf) >= TimeOf(rows[j], timeOf)
  }

  /** Puts `job` in front of the first row that is not newer than it. */
  function InsertNewestFirst(job: ExportJobRow, rows: seq<ExportJobRow>, timeOf: string -> int): (r: seq<ExportJobRow>)
    ensures |r| == |rows| + 1
  {
    if |rows| == 0 || TimeOf(rows[0], timeOf) <= TimeOf(job, timeOf) then [job] + rows
    else [rows[0]] + InsertNewestFirst(job, rows[1..], timeOf)
  }

  /**
   * The stable sort by the comparator `time(b) - time(a)`: newest first, and
   * rows created at the same time keep their order.
   */
  function SortNewestFirst(rows: seq<ExportJobRow>, timeOf: string -> int): (r: seq<ExportJobRow>)
    ensures |r| == |rows|
  {
    if |rows| == 0 then []
    else InsertNewestFirst(rows[0], SortNewestFirst(rows[1..], timeOf), timeOf)
  }

  /** Inserting adds exactly the one row. */
  lemma {:induction false} InsertNewestFirstPermutes(job: ExportJobRow, rows: seq<ExportJobRow>, timeOf: string -> int)
    ensures multiset(InsertNewestFirst(job, rows, timeOf)) == multiset([job]) + multiset(rows)
  {
    if |rows| > 0 && TimeOf(rows[0], timeOf) > TimeOf(job, timeOf) {
      InsertNewestFirstPermutes(job, rows[1..], timeOf);
      assert rows == [rows[0]] + rows[1..];
    }
  }

  /** Inserting into a newest-first list keeps it newest-first. */
  lemma {:induction false} InsertNewestFirstKeepsOrder(job: ExportJobRow, rows: seq<ExportJobRow>, timeOf: string -> int)
    requires IsNewestFirst(rows, timeOf)
    ensures IsNewestFirst(InsertNewestFirst(job, rows, timeOf), timeOf)
    ensures multiset(InsertNewestFirst(job, rows, timeOf)) == multiset([job]) + multiset(rows)
  {
    InsertNewestFirstPermutes(job, rows, timeOf);
    if |rows| > 0 && TimeOf(rows[0], timeOf) > TimeOf(job, timeOf) {
      var rest := InsertNewestFirst(job, rows[1..], timeOf);
      InsertNewestFirstKeepsOrder(job, rows[1..], timeOf);
      var r := [rows[0]] + rest;
      forall j | 1 <= j < |r|
        ensures TimeOf(r[0], timeOf) >= TimeOf(r[j], timeOf)
      {
        assert r[j] == rest[j - 1];
        assert rest[j - 1] in multiset(rest);
        assert r[j] == job || r[j] in rows[1..];
      }
    }
  }

  /** The sort yields a newest-first permutation of its input. */
  lemma {:induction false} SortNewestFirstSorts(rows: seq<ExportJobRow>, timeOf: string -> int)
    ensures IsNewestFirst(SortNewestFirst(rows, timeOf), timeOf)
    ensures multiset(SortNewestFirst(rows, timeOf)) == multiset(rows)
  {
    if |rows| > 0 {
      SortNewestFirstSorts(rows[1..], timeOf);
      InsertNewestFirstKeepsOrder(rows[0], SortNewestFirst(rows[1..], timeOf), timeOf);
      assert rows == [rows[0]] + rows[1..];
    }
  }

  /** The rows created at time `t`, in their order. */
  function CreatedAt(rows: seq<ExportJobRow>, timeOf: string -> int, t: int): seq<ExportJobRow> {
    if |rows| == 0 then []
    else
      var rest := CreatedAt(rows[1..], timeOf, t);
      if TimeOf(rows[0], timeOf) == t then [rows[0]] + rest else rest
  }

  lemma {:induction false} InsertNewestFirstStable(job: ExportJobRow, rows: seq<ExportJobRow>, timeOf: string -> int, t: int)
    ensures CreatedAt(InsertNewestFirst(job, rows, timeOf), timeOf, t)
      == (if TimeOf(job, timeOf) == t then [job] else []) + CreatedAt(rows, timeOf, t)
  {
    var r := InsertNewestFirst(job, rows, timeOf);
    if |rows| == 0 || TimeOf(rows[0], timeOf) <= TimeOf(job, timeOf) {
      assert r[1..] == rows;
    } else {
      InsertNewestFirstStable(job, rows[1..], timeOf, t);
      assert r[1..] == InsertNewestFirst(job, rows[1..], timeOf);
      if TimeOf(job, timeOf) == t {
        assert TimeOf(rows[0], timeOf) != t;
      }
    }
  }

  /** Stability: rows created at the same time come out in the order they came in. */
  lemma {:induction false} SortNewestFirstStable(rows: seq<ExportJobRow>, timeOf: string -> int, t: int)
    ensures CreatedAt(SortNewestFirst(rows, timeOf), timeOf, t) == CreatedAt(rows, timeOf, t)
  {
    if |rows| > 0 {
      SortNewestFirstStable(rows[1..], timeOf, t);
      InsertNewestFirstStable(rows[0], SortNewestFirst(rows[1..], timeOf), timeOf, t);
    }
  }

  // ---------------------------------------------------------------------------
  // The export
  // ---------------------------------------------------------------------------

  /** The fields the README needs, copied unchanged. */
  function ToReadmeJob(job: ExportJobRow): ExportReadmeJob {
    ExportReadmeJob(job.id, job.title, job.createdAt, job.url, job.companyId, job.companyName)
  }

  /** The rows the export keeps, in the order it returns them. */
  function ExportedRows(rows: seq<ExportJobRow>, timeOf: string -> int): seq<ExportJobRow> {
    SortNewestFirst(FilterSgInternTech(rows), timeOf)
  }

  /**
   * The export after the query: a query error is passed on, missing data
   * counts as no rows, and otherwise the kept rows are mapped in order.
   */
  function ExportSgInternTechVerifiedJobs(query: Result<Option<seq<ExportJobRow>>, QueryError>,
                                         timeOf: string -> int): (r: Result<seq<ExportReadmeJob>, QueryError>)
    ensures query.Failure? ==> r == Failure(query.error)
    ensures query.Success? ==> r.Success?
    ensures query.Success? ==>
      var kept := ExportedRows(query.value.GetOr([]), timeOf);
      && |r.value| == |kept|
      && forall i :: 0 <= i < |kept| ==> r.value[i] == ToReadmeJob(kept[i])
  {
    match query
    case Failure(e) => Failure(e)
    case Success(data) =>
      var kept := ExportedRows(data.GetOr([]), timeOf);
      Success(seq(|kept|, i requires 0 <= i < |kept| => ToReadmeJob(kept[i])))
  }

  /**
   * The kept rows are exactly the rows passing all three tests, each as often
   * as it was returned; they are ordered newest first, and rows created at the
   * same time keep the query's order.
   */
  lemma ExportedRowsSpec(rows: seq<ExportJobRow>, timeOf: string -> int)
    ensures forall i :: 0 <= i < |ExportedRows(rows, timeOf)| ==> IsSgInternTech(ExportedRows(rows, timeOf)[i])
    ensures forall x :: multiset(ExportedRows(rows, timeOf))[x] == if IsSgInternTech(x) then multiset(rows)[x] else 0
    ensures IsNewestFirst(ExportedRows(rows, timeOf), timeOf)
    ensures forall t :: CreatedAt(ExportedRows(rows, timeOf), timeOf, t) == CreatedAt(KeepIf(rows, IsSgInternTech), timeOf, t)
  {
    FilterSgInternTechKeeps(rows);
    var kept := KeepIf(rows, IsSgInternTech);
    KeepIfCounts(rows, IsSgInternTech);
    SortNewestFirstSorts(kept, timeOf);
    forall t
      ensures CreatedAt(ExportedRows(rows, timeOf), timeOf, t) == CreatedAt(kept, timeOf, t)
    {
      SortNewestFirstStable(kept, timeOf, t);
    }
    forall i | 0 <= i < |ExportedRows(rows, timeOf)|
      ensures IsSgInternTech(ExportedRows(rows, timeOf)[i])
    {
      assert ExportedRows(rows, timeOf)[i] in multiset(kept);
    }
  }

  /** A row with a missing tag array is never exported. */
  lemma MissingTagsExcluded(rows: seq<ExportJobRow>, timeOf: string -> int, job: ExportJobRow)
    requires job.countries.None? || job.experienceLevels.None? || job.jobCategories.None?
    ensures job !in ExportedRows(rows, timeOf)
  {
    ExportedRowsSpec(rows, timeOf);
    assert !IsSgInternTech(job);
  }
}
