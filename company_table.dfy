/**
 * The company table of the site: a search filter on the company name, a
 * sort on the lower-cased name in either direction, and pages of ten rows.
 * The filtered, sorted and sliced lists are pure computations; the search
 * box, the clear button, the sort menu and the pager update the table's
 * state, which is a class here.
 */
module CompanyTable {
  import opened Text
  import opened Wrappers

  /** A company as the table receives it; only the name takes part in search and sort. */
  datatype Company = Company(id: string, companyName: string)

  // ---------------------------------------------------------------------------
  // Search
  // ---------------------------------------------------------------------------

  /** `company_name.toLowerCase().includes(filterValue.toLowerCase())`. */
  predicate MatchesFilter(c: Company, filterValue: string) {
    Contains(AsciiLower(c.companyName), AsciiLower(filterValue))
  }

  /** `Array.prototype.filter` with the name test: the matching companies, in their order. */
  function KeepMatching(companies: seq<Company>, filterValue: string): (r: seq<Company>)
    ensures |r| <= |companies|
    ensures forall c :: c in r <==> c in companies && MatchesFilter(c, filterValue)
  {
    if |companies| == 0 then []
    else
      var init := KeepMatching(companies[..|companies| - 1], filterValue);
      var last := companies[|companies| - 1];
      assert companies == companies[..|companies| - 1] + [last];
      if MatchesFilter(last, filterValue) then init + [last] else init
  }

  /** The filter runs only when the search value is truthy, that is non-empty. */
  function FilterCompanies(companies: seq<Company>, filterValue: string): seq<Company> {
    if filterValue != "" then KeepMatching(companies, filterValue) else companies
  }

  /** Every name contains the empty string, so the empty search would keep every company anyway. */
  lemma {:induction false} EmptyFilterKeepsAll(companies: seq<Company>)
    ensures KeepMatching(companies, "") == companies
    ensures FilterCompanies(companies, "") == companies
  {
    if |companies| > 0 {
      var init := companies[..|companies| - 1];
      var last := companies[|companies| - 1];
      EmptyFilterKeepsAll(init);
      assert OccursAt(AsciiLower(last.companyName), "", 0);
      assert companies == init + [last];
    }
  }

  /** The filtered list keeps exactly the matching companies, each as often as before. */
  lemma {:induction false} FilterKeepsMatching(companies: seq<Company>, filterValue: string)
    ensures forall c :: c in FilterCompanies(companies, filterValue) <==>
      c in companies && (filterValue == "" || MatchesFilter(c, filterValue))
    ensures forall c :: multiset(FilterCompanies(companies, filterValue))[c] ==
                        if filterValue == "" || MatchesFilter(c, filterValue) then multiset(companies)[c] else 0
  {
    KeepMatchingCounts(companies, filterValue);
  }

  /** The name filter keeps every occurrence of a matching company and none of the others. */
  lemma {:induction false} KeepMatchingCounts(companies: seq<Company>, filterValue: string)
    ensures forall c :: multiset(KeepMatching(companies, filterValue))[c] ==
                        if MatchesFilter(c, filterValue) then multiset(companies)[c] else 0
  {
    if |companies| > 0 {
      var init := companies[..|companies| - 1];
      var last := companies[|companies| - 1];
      KeepMatchingCounts(init, filterValue);
      assert companies == init + [last];
    }
  }

  // ---------------------------------------------------------------------------
  // Sort
  // ---------------------------------------------------------------------------

  datatype Direction = Ascending | Descending

  datatype SortOption = SortOption(key: string, direction: Direction)

  /** The sort menu: name A to Z first, then name Z to A; both sort on the company name. */
  const SortOptions: seq<SortOption> :=
    [SortOption("name_asc", Ascending), SortOption("name_desc", Descending)]

  /** The key the table starts with when the URL names none. */
  const DefaultSortKey: string := "name_asc"

  /** `Array.prototype.find` on the options by key. */
  function FindOption(options: seq<SortOption>, key: string): (r: Option<SortOption>)
    ensures r.Some? ==> r.value in options && r.value.key == key
    ensures r.None? ==> forall i :: 0 <= i < |options| ==> options[i].key != key
  {
    if |options| == 0 then None
    else if options[0].key == key then Some(options[0])
    else FindOption(options[1..], key)
  }

  /** The option whose key is the current sort, or the first option when none has that key. */
  function SelectedSortOption(currentSort: string): SortOption {
    FindOption(SortOptions, currentSort).GetOr(SortOptions[0])
  }

  /** `name_desc` sorts descending; `name_asc` and any unknown key sort ascending. */
  lemma SelectedDirection(currentSort: string)
    ensures SelectedSortOption(currentSort).direction == Descending <==> currentSort == "name_desc"
  {
    if currentSort != "name_asc" && currentSort != "name_desc" {
      assert FindOption(SortOptions[1..], currentSort) == None;
    }
  }

  /** The sort key: the lower-cased company name. */
  function SortKey(c: Company): string {
    AsciiLower(c.companyName)
  }

  /** The comparator: -1, 1 or 0 by the `<` order on lower-cased names, negated when descending. */
  function Compare(a: Company, b: Company, direction: Direction): int {
    var first, second := SortKey(a), SortKey(b);
    var cmp := if LexLess(first, second) then -1 else if LexLess(second, first) then 1 else 0;
    if direction == Descending then -cmp else cmp
  }

  /** `a` may come before `b`: its key is not after `b`'s in the chosen direction. */
  predicate InOrder(a: Company, b: Company, direction: Direction) {
    if direction == Ascending then !LexLess(SortKey(b), SortKey(a))
    else !LexLess(SortKey(a), SortKey(b))
  }

  /** The comparator puts `a` first or ties exactly when the two are in order. */
  lemma CompareInOrder(a: Company, b: Company, direction: Direction)
    ensures Compare(a, b, direction) <= 0 <==> InOrder(a, b, direction)
    ensures Compare(a, b, direction) == -Compare(b, a, direction)
  {
    if LexLess(SortKey(a), SortKey(b)) && LexLess(SortKey(b), SortKey(a)) {
      LexLessTransitive(SortKey(a), SortKey(b), SortKey(a));
      LexLessIrreflexive(SortKey(a));
    }
  }

  /** Any two companies are in order one way round. */
  lemma InOrderTotal(a: Company, b: Company, direction: Direction)
    ensures InOrder(a, b, direction) || InOrder(b, a, direction)
  {
    var ka, kb := SortKey(a), SortKey(b);
    LexLessTrichotomy(ka, kb);
    LexLessIrreflexive(ka);
    if LexLess(ka, kb) && LexLess(kb, ka) {
      LexLessTransitive(ka, kb, ka);
    }
  }

  lemma InOrderTransitive(a: Company, b: Company, c: Company, direction: Direction)
    requires InOrder(a, b, direction) && InOrder(b, c, direction)
    ensures InOrder(a, c, direction)
  {
    var ka, kb, kc := SortKey(a), SortKey(b), SortKey(c);
    LexLessTrichotomy(ka, kb);
    LexLessTrichotomy(kb, kc);
    LexLessTrichotomy(ka, kc);
    if direction == Ascending {
      if LexLess(kc, ka) {
        if LexLess(ka, kb) {
          LexLessTransitive(kc, ka, kb);
        }
        if LexLess(kb, kc) {
          LexLessTransitive(kb, kc, ka);
        }
      }
    } else {
      if LexLess(ka, kc) {
        if LexLess(kc, kb) {
          LexLessTransitive(ka, kc, kb);
        }
        if LexLess(kb, ka) {
          LexLessTransitive(kb, ka, kc);
        }
      }
    }
  }

  /** Every earlier company is in order with every later one. */
  predicate Sorted(s: seq<Company>, direction: Direction) {
    forall i, j :: 0 <= i < j < |s| ==> InOrder(s[i], s[j], direction)
  }

  /** Insertion of one more company before the first one the comparator puts after it. */
  function Insert(x: Company, s: seq<Company>, direction: Direction): seq<Company> {
    if |s| == 0 then [x]
    else if Compare(x, s[0], direction) < 0 then [x] + s
    else [s[0]] + Insert(x, s[1..], direction)
  }

  /**
   * The stable sort with the table's comparator: each company, taken in list
   * order, goes after every earlier one it ties with.
   */
  function SortCompanies(s: seq<Company>, direction: Direction): seq<Company> {
    if |s| == 0 then []
    else Insert(s[|s| - 1], SortCompanies(s[..|s| - 1], direction), direction)
  }

  lemma {:induction false} InsertPermutes(x: Company, s: seq<Company>, direction: Direction)
    ensures multiset(Insert(x, s, direction)) == multiset(s) + multiset{x}
  {
    if |s| > 0 && Compare(x, s[0], direction) >= 0 {
      InsertPermutes(x, s[1..], direction);
      assert s == [s[0]] + s[1..];
    }
  }

  lemma {:induction false} InsertSorted(x: Company, s: seq<Company>, direction: Direction)
    requires Sorted(s, direction)
    ensures Sorted(Insert(x, s, direction), direction)
  {
    if |s| == 0 {
    } else if Compare(x, s[0], direction) < 0 {
      CompareInOrder(x, s[0], direction);
      forall j | 0 <= j < |s| ensures InOrder(x, s[j], direction) {
        if j > 0 {
          InOrderTransitive(x, s[0], s[j], direction);
        }
      }
      SortedCons(x, s, direction);
    } else {
      var tail := Insert(x, s[1..], direction);
      SortedTail(s, direction);
      InsertSorted(x, s[1..], direction);
      InsertPermutes(x, s[1..], direction);
      CompareInOrder(s[0], x, direction);
      forall j | 0 <= j < |tail| ensures InOrder(s[0], tail[j], direction) {
        assert tail[j] in multiset(tail);
        if tail[j] != x {
          assert tail[j] in multiset(s[1..]);
          var k :| 0 <= k < |s[1..]| && s[1..][k] == tail[j];
          assert s[k + 1] == tail[j];
        }
      }
      SortedCons(s[0], tail, direction);
    }
  }

  lemma SortedTail(s: seq<Company>, direction: Direction)
    requires |s| > 0 && Sorted(s, direction)
    ensures Sorted(s[1..], direction)
  {
    forall i, j | 0 <= i < j < |s[1..]| ensures InOrder(s[1..][i], s[1..][j], direction) {
      assert s[1..][i] == s[i + 1] && s[1..][j] == s[j + 1];
    }
  }

  lemma SortedCons(x: Company, s: seq<Company>, direction: Direction)
    requires Sorted(s, direction)
    requires forall j :: 0 <= j < |s| ==> InOrder(x, s[j], direction)
    ensures Sorted([x] + s, direction)
  {
    var r := [x] + s;
    forall i, j | 0 <= i < j < |r| ensures InOrder(r[i], r[j], direction) {
      assert r[j] == s[j - 1];
      if i > 0 {
        assert r[i] == s[i - 1];
      }
    }
  }

  /** The sorted list is a permutation of its input, in order by the chosen direction. */
  lemma {:induction false} SortCompaniesCorrect(s: seq<Company>, direction: Direction)
    ensures multiset(SortCompanies(s, direction)) == multiset(s)
    ensures Sorted(SortCompanies(s, direction), direction)
  {
    if |s| > 0 {
      var init := s[..|s| - 1];
      SortCompaniesCorrect(init, direction);
      InsertPermutes(s[|s| - 1], SortCompanies(init, direction), direction);
      InsertSorted(s[|s| - 1], SortCompanies(init, direction), direction);
      assert s == init + [s[|s| - 1]];
    }
  }

  /** The list the table shows before paging: filtered when there is a search, then sorted. */
  function SortedAndFilteredItems(companies: seq<Company>, filterValue: string, currentSort: string): seq<Company> {
    SortCompanies(FilterCompanies(companies, filterValue), SelectedSortOption(currentSort).direction)
  }

  /**
   * The shown list holds exactly the companies that pass the search, as often
   * as they occur, sorted by name in the direction the current key selects.
   */
  lemma SortedAndFilteredCorrect(companies: seq<Company>, filterValue: string, currentSort: string)
    ensures var r := SortedAndFilteredItems(companies, filterValue, currentSort);
      && multiset(r) == multiset(FilterCompanies(companies, filterValue))
      && (forall c :: c in r <==> c in companies && (filterValue == "" || MatchesFilter(c, filterValue)))
      && (forall c :: multiset(r)[c] ==
                       if filterValue == "" || MatchesFilter(c, filterValue) then multiset(companies)[c] else 0)
      && Sorted(r, if currentSort == "name_desc" then Descending else Ascending)
  {
    var f := FilterCompanies(companies, filterValue);
    SortCompaniesCorrect(f, SelectedSortOption(currentSort).direction);
    SelectedDirection(currentSort);
    FilterKeepsMatching(companies, filterValue);
    var r := SortedAndFilteredItems(companies, filterValue, currentSort);
    forall c ensures c in r <==> c in f {
      assert c in r <==> c in multiset(r);
      assert c in f <==> c in multiset(f);
    }
  }

  // ---------------------------------------------------------------------------
  // Pages
  // ---------------------------------------------------------------------------

  const RowsPerPage: nat := 10

  /** `Math.max(1, Math.ceil(count / ROWS_PER_PAGE))`. */
  function Pages(count: nat): (pages: int)
    ensures pages >= 1
    ensures count <= pages * RowsPerPage
    ensures pages == 1 || (pages - 1) * RowsPerPage < count
  {
    var ceiling := (count + RowsPerPage - 1) / RowsPerPage;
    if ceiling > 1 then ceiling else 1
  }

  /** The start or end index `Array.prototype.slice` uses: negative counts from the end, clamped to the list. */
  function SliceIndex(index: int, length: nat): (k: nat)
    ensures k <= length
  {
    if index < 0 then (if length + index > 0 then length + index else 0)
    else if index < length then index else length
  }

  function JsSlice<T>(s: seq<T>, start: int, end: int): seq<T> {
    var from, to := SliceIndex(start, |s|), SliceIndex(end, |s|);
    if from < to then s[from..to] else []
  }

  /** The rows of page `page` (counted from 1): the slice from `(page - 1) * 10` to ten further on. */
  function PaginatedItems<T>(items: seq<T>, page: int): (r: seq<T>)
    ensures |r| <= RowsPerPage
  {
    var start := (page - 1) * RowsPerPage;
    JsSlice(items, start, start + RowsPerPage)
  }

  /**
   * Every row appears on the page its index gives, at the matching position,
   * and that page is one of the pages the pager offers.
   */
  lemma PageHoldsRow<T>(items: seq<T>, i: nat)
    requires i < |items|
    ensures 1 <= i / RowsPerPage + 1 <= Pages(|items|)
    ensures var p := PaginatedItems(items, i / RowsPerPage + 1);
      i % RowsPerPage < |p| && p[i % RowsPerPage] == items[i]
  {
    var page := i / RowsPerPage + 1;
    var start := (page - 1) * RowsPerPage;
    assert start <= i < start + RowsPerPage;
  }

  /** A page from 1 on holds the rows from its start, and pages past the last one are empty. */
  lemma PageContents<T>(items: seq<T>, page: int)
    requires page >= 1
    ensures var p := PaginatedItems(items, page); var start := (page - 1) * RowsPerPage;
      forall k :: 0 <= k < |p| ==> start + k < |items| && p[k] == items[start + k]
    ensures page > Pages(|items|) ==> PaginatedItems(items, page) == []
    ensures page * RowsPerPage <= |items| ==> |PaginatedItems(items, page)| == RowsPerPage
  {
  }

  // ---------------------------------------------------------------------------
  // Table state
  // ---------------------------------------------------------------------------

  predicate IsSortKey(key: string) {
    exists i :: 0 <= i < |SortOptions| && SortOptions[i].key == key
  }

  /** The search value, the current page and the sort key the table keeps between renders. */
  class CompanyTableState {
    var filterValue: string
    var page: int
    var currentSort: string

    /** The sort key is always one of the menu's keys. */
    predicate Valid()
      reads this
    {
      IsSortKey(currentSort)
    }

    /** A fresh table: no search, first page, the URL's sort key or `name_asc`. */
    constructor (sortFromUrl: Option<string>)
      requires sortFromUrl.Some? ==> IsSortKey(sortFromUrl.value)
      ensures filterValue == "" && page == 1
      ensures currentSort == sortFromUrl.GetOr(DefaultSortKey)
      ensures Valid()
    {
      filterValue := "";
      page := 1;
      currentSort := sortFromUrl.GetOr(DefaultSortKey);
      assert SortOptions[0].key == DefaultSortKey;
    }

    function SortedAndFiltered(companies: seq<Company>): seq<Company>
      reads this
    {
      SortedAndFilteredItems(companies, filterValue, currentSort)
    }

    function PageCount(companies: seq<Company>): int
      reads this
    {
      Pages(|SortedAndFiltered(companies)|)
    }

    function VisibleRows(companies: seq<Company>): seq<Company>
      reads this
    {
      PaginatedItems(SortedAndFiltered(companies), page)
    }

    /** A non-empty search replaces the filter and goes back to page 1; an empty one only clears the filter. */
    method OnSearchChange(value: string)
      requires Valid()
      modifies this
      ensures Valid()
      ensures filterValue == value
      ensures page == (if value != "" then 1 else old(page))
      ensures currentSort == old(currentSort)
    {
      if value != "" {
        filterValue := value;
        page := 1;
      } else {
        filterValue := "";
      }
    }

    /** Clearing the search drops the filter and goes back to page 1. */
    method OnClear()
      requires Valid()
      modifies this
      ensures Valid()
      ensures filterValue == "" && page == 1 && currentSort == old(currentSort)
    {
      filterValue := "";
      page := 1;
    }

    /** Choosing a sort stores its key and goes back to page 1; the search is kept. */
    method HandleSortChange(key: string)
      requires Valid() && IsSortKey(key)
      modifies this
      ensures Valid()
      ensures currentSort == key && page == 1 && filterValue == old(filterValue)
    {
      currentSort := key;
      page := 1;
    }

    /** The pager moves to the chosen page; search and sort are kept. */
    method HandlePageChange(newPage: int)
      requires Valid()
      modifies this
      ensures Valid()
      ensures page == newPage && filterValue == old(filterValue) && currentSort == old(currentSort)
    {
      page := newPage;
    }
  }
}
