/** The job browsing page: the fetched catalog is narrowed by a text search, a location
    search, job-type and experience-level checkboxes and a minimum salary, and the result
    is shown six jobs per page. The page's state is a class; every change to the search
    strings, the checkboxes or the salary re-runs the filter effect, which also returns the
    view to page 1. */
module JobsPage {
  import opened Common
  import opened Text

  /** A job as the page receives it: the company is populated with its username, or absent. */
  datatype Listing = Listing(
    id: string,
    title: string,
    company: Option<string>,
    location: string,
    jobType: string,
    experienceLevel: string,
    salary: Option<int>)

  datatype Filters = Filters(jobType: seq<string>, experienceLevel: seq<string>, salary: int)

  const NoFilters: Filters := Filters([], [], 0)

  const JobsPerPage: nat := 6

  // ---------------------------------------------------------------- the criteria

  /** Title or company username contains the term, both lowercased; an empty term passes.
      A job without a company can pass only by its title. */
  predicate TextMatch(j: Listing, term: string) {
    term == ""
    || Contains(LowerStr(j.title), LowerStr(term))
    || (j.company.Some? && Contains(LowerStr(j.company.value), LowerStr(term)))
  }

  predicate LocationMatch(j: Listing, loc: string) {
    loc == "" || Contains(LowerStr(j.location), LowerStr(loc))
  }

  /** An empty checkbox list imposes nothing; otherwise membership is exact. */
  predicate Checked(value: string, boxes: seq<string>) {
    boxes == [] || value in boxes
  }

  /** A positive minimum excludes jobs with no salary and jobs paid less. */
  predicate SalaryMatch(j: Listing, min: int) {
    min <= 0 || (j.salary.Some? && j.salary.value >= min)
  }

  /** All active criteria at once. */
  predicate Keep(j: Listing, term: string, loc: string, f: Filters) {
    && TextMatch(j, term)
    && LocationMatch(j, loc)
    && Checked(j.jobType, f.jobType)
    && Checked(j.experienceLevel, f.experienceLevel)
    && SalaryMatch(j, f.salary)
  }

  /** The list the page should show: the catalog jobs meeting every criterion, in order. */
  function Browse(jobs: seq<Listing>, term: string, loc: string, f: Filters): (r: seq<Listing>)
    ensures |r| <= |jobs|
    ensures forall j :: j in r ==> j in jobs && Keep(j, term, loc, f)
  {
    Filter(jobs, j => Keep(j, term, loc, f))
  }

  function TextP(term: string): Listing -> bool { j => TextMatch(j, term) }
  function LocationP(loc: string): Listing -> bool { j => LocationMatch(j, loc) }
  function TypeP(boxes: seq<string>): Listing -> bool { (j: Listing) => Checked(j.jobType, boxes) }
  function LevelP(boxes: seq<string>): Listing -> bool { (j: Listing) => Checked(j.experienceLevel, boxes) }
  function SalaryP(min: int): Listing -> bool { j => SalaryMatch(j, min) }

  /** The criteria applied so far, in the effect's order. */
  predicate Upto2(j: Listing, term: string, loc: string) {
    TextMatch(j, term) && LocationMatch(j, loc)
  }
  predicate Upto3(j: Listing, term: string, loc: string, f: Filters) {
    Upto2(j, term, loc) && Checked(j.jobType, f.jobType)
  }
  predicate Upto4(j: Listing, term: string, loc: string, f: Filters) {
    Upto3(j, term, loc, f) && Checked(j.experienceLevel, f.experienceLevel)
  }

  /** Narrowing five times in turn is narrowing once by all five criteria. */
  lemma SequentialFilters(jobs: seq<Listing>, term: string, loc: string, f: Filters)
    ensures Filter(Filter(Filter(Filter(Filter(jobs, TextP(term)), LocationP(loc)),
              TypeP(f.jobType)), LevelP(f.experienceLevel)), SalaryP(f.salary))
            == Browse(jobs, term, loc, f)
  {
    var r2 := (j: Listing) => Upto2(j, term, loc);
    var r3 := (j: Listing) => Upto3(j, term, loc, f);
    var r4 := (j: Listing) => Upto4(j, term, loc, f);
    FilterThen(jobs, TextP(term), LocationP(loc), r2);
    FilterThen(jobs, r2, TypeP(f.jobType), r3);
    FilterThen(jobs, r3, LevelP(f.experienceLevel), r4);
    FilterThen(jobs, r4, SalaryP(f.salary), j => Keep(j, term, loc, f));
  }

  /** An inactive criterion passes every job, so skipping its filter changes nothing. */
  lemma InactiveStepIsIdentity(jobs: seq<Listing>, term: string, loc: string, f: Filters)
    ensures term == "" ==> Filter(jobs, TextP(term)) == jobs
    ensures loc == "" ==> Filter(jobs, LocationP(loc)) == jobs
    ensures f.jobType == [] ==> Filter(jobs, TypeP(f.jobType)) == jobs
    ensures f.experienceLevel == [] ==> Filter(jobs, LevelP(f.experienceLevel)) == jobs
    ensures f.salary <= 0 ==> Filter(jobs, SalaryP(f.salary)) == jobs
  {
    if term == "" { FilterAll(jobs, TextP(term)); }
    if loc == "" { FilterAll(jobs, LocationP(loc)); }
    if f.jobType == [] { FilterAll(jobs, TypeP(f.jobType)); }
    if f.experienceLevel == [] { FilterAll(jobs, LevelP(f.experienceLevel)); }
    if f.salary <= 0 { FilterAll(jobs, SalaryP(f.salary)); }
  }

  /** With no search, no box checked and salary 0 the page shows the whole catalog. */
  lemma BrowseNoCriteria(jobs: seq<Listing>)
    ensures Browse(jobs, "", "", NoFilters) == jobs
  {
    FilterAll(jobs, j => Keep(j, "", "", NoFilters));
  }

  /** The shown jobs are the catalog jobs meeting every criterion, in catalog order. */
  lemma BrowseMembers(jobs: seq<Listing>, term: string, loc: string, f: Filters, j: Listing)
    ensures j in Browse(jobs, term, loc, f) <==> j in jobs && Keep(j, term, loc, f)
    ensures IsSubsequence(Browse(jobs, term, loc, f), jobs)
  {
    FilterMembers(jobs, x => Keep(x, term, loc, f), j);
    FilterIsSubsequence(jobs, x => Keep(x, term, loc, f));
  }

  /** A shown job has a checked type and level (when any is checked) and, under a positive
      minimum, a salary of at least the minimum. */
  lemma BrowseRestricts(jobs: seq<Listing>, term: string, loc: string, f: Filters, j: Listing)
    requires j in Browse(jobs, term, loc, f)
    ensures f.jobType != [] ==> j.jobType in f.jobType
    ensures f.experienceLevel != [] ==> j.experienceLevel in f.experienceLevel
    ensures f.salary > 0 ==> j.salary.Some? && j.salary.value >= f.salary
  {
    BrowseMembers(jobs, term, loc, f, j);
  }

  /** A job without a company is found by a non-empty term only through its title. */
  lemma NoCompanyMatchesByTitle(j: Listing, term: string)
    requires j.company.None? && term != ""
    ensures TextMatch(j, term) <==> Contains(LowerStr(j.title), LowerStr(term))
  {
  }

  /** The search is case-insensitive: the term's case does not matter. */
  lemma SearchIgnoresCase(j: Listing, term: string)
    ensures TextMatch(j, LowerStr(term)) <==> TextMatch(j, term)
  {
    LowerStrIdempotent(term);
  }

  // ---------------------------------------------------------------- the checkbox toggle

  /** handleCheckboxChange: a checked value is unchecked (every copy removed), an
      unchecked one is appended. */
  function Toggle(boxes: seq<string>, value: string): (r: seq<string>)
    ensures value in r <==> value !in boxes
    ensures forall x :: x != value ==> (x in r <==> x in boxes)
    ensures value !in boxes ==> r == boxes + [value]
  {
    if value in boxes then
      var r := Filter(boxes, x => x != value);
      forall y ensures y in r <==> y in boxes && y != value {
        FilterMembers(boxes, x => x != value, y);
      }
      r
    else boxes + [value]
  }

  /** Checking and then unchecking a value restores the list. */
  lemma ToggleTwice(boxes: seq<string>, value: string)
    requires value !in boxes
    ensures Toggle(Toggle(boxes, value), value) == boxes
  {
    var p := x => x != value;
    FilterAppend(boxes, [value], p);
    FilterAll(boxes, p);
    assert Filter([value], p) == [];
  }

  /** Unchecking keeps the other checked values in their order. */
  lemma UncheckKeepsOrder(boxes: seq<string>, value: string)
    requires value in boxes
    ensures IsSubsequence(Toggle(boxes, value), boxes)
    ensures |Toggle(boxes, value)| == |boxes| - Count(boxes, value)
  {
    var p := x => x != value;
    FilterIsSubsequence(boxes, p);
    FilterCount(boxes, value);
  }

  lemma {:induction false} FilterCount(boxes: seq<string>, value: string)
    ensures |Filter(boxes, x => x != value)| == |boxes| - Count(boxes, value)
  {
    if boxes != [] {
      FilterCount(boxes[1..], value);
      assert boxes == [boxes[0]] + boxes[1..];
    }
  }

  // ---------------------------------------------------------------- pagination

  /** Array.prototype.slice(start, end): negative positions count from the end, and both
      are clipped to the list. */
  function Slice<T>(s: seq<T>, start: int, end: int): (r: seq<T>)
    ensures |r| <= |s|
    ensures 0 <= start <= end <= |s| ==> r == s[start..end]
    ensures 0 <= end <= start ==> r == []
  {
    var n := |s|;
    var lo := if start < 0 then (if n + start < 0 then 0 else n + start) else (if start > n then n else start);
    var hi := if end < 0 then (if n + end < 0 then 0 else n + end) else (if end > n then n else end);
    if lo < hi then s[lo..hi] else []
  }

  function Min(a: int, b: int): int { if a <= b then a else b }

  /** The jobs of page `p`: currentJobs. */
  function Page(list: seq<Listing>, p: int): (r: seq<Listing>)
    ensures |r| <= JobsPerPage
    ensures p >= 1 && p * JobsPerPage <= |list| ==> r == list[(p - 1) * JobsPerPage..p * JobsPerPage]
  {
    Slice(list, (p - 1) * JobsPerPage, p * JobsPerPage)
  }

  /** Math.ceil(n / 6). */
  function TotalPages(n: nat): (t: nat)
    ensures t * JobsPerPage >= n
    ensures n > 0 ==> (t - 1) * JobsPerPage < n
    ensures n == 0 <==> t == 0
  {
    (n + JobsPerPage - 1) / JobsPerPage
  }

  /** Page `p` (from 1) is the window [(p-1)*6, p*6) clipped to the list. */
  lemma PageWindow(list: seq<Listing>, p: int)
    requires p >= 1
    ensures Page(list, p) == list[Min((p - 1) * JobsPerPage, |list|)..Min(p * JobsPerPage, |list|)]
    ensures |Page(list, p)| <= JobsPerPage
  {
  }

  /** Pages after the last one, and page 0, are empty; the pages 1..totalPages are not. */
  lemma PageEmptiness(list: seq<Listing>, p: int)
    requires p >= 0
    ensures Page(list, p) == [] <==> p == 0 || p > TotalPages(|list|)
  {
  }

  /** The first `k` pages in order. */
  function Pages(list: seq<Listing>, k: nat): seq<Listing> {
    if k == 0 then [] else Pages(list, k - 1) + Page(list, k)
  }

  lemma {:induction false} PagesPrefix(list: seq<Listing>, k: nat)
    ensures Pages(list, k) == list[..Min(k * JobsPerPage, |list|)]
  {
    if k > 0 {
      PagesPrefix(list, k - 1);
      PageWindow(list, k);
      var a, b := Min((k - 1) * JobsPerPage, |list|), Min(k * JobsPerPage, |list|);
      assert list[..a] + list[a..b] == list[..b];
    }
  }

  /** Pages 1..totalPages together are the whole list, in order. */
  lemma PagesCoverList(list: seq<Listing>)
    ensures Pages(list, TotalPages(|list|)) == list
  {
    PagesPrefix(list, TotalPages(|list|));
  }

  // ---------------------------------------------------------------- the page state

  datatype Category = JobTypeBoxes | LevelBoxes

  class JobsView {
    var jobs: seq<Listing>
    var filteredJobs: seq<Listing>
    var currentPage: int
    var searchTerm: string
    var locationSearch: string
    var filters: Filters

    /** The filter effect has run on the current criteria. */
    predicate Valid()
      reads this
    {
      filteredJobs == Browse(jobs, searchTerm, locationSearch, filters)
    }

    /** The jobs on screen: at most six, the current page's window of the filtered list. */
    function CurrentJobs(): (r: seq<Listing>)
      reads this
      ensures |r| <= JobsPerPage
      ensures currentPage >= 1 ==>
        r == filteredJobs[Min((currentPage - 1) * JobsPerPage, |filteredJobs|)..Min(currentPage * JobsPerPage, |filteredJobs|)]
    {
      Page(filteredJobs, currentPage)
    }

    constructor ()
      ensures Valid()
      ensures jobs == [] && filteredJobs == [] && currentPage == 1
      ensures searchTerm == "" && locationSearch == "" && filters == NoFilters
    {
      jobs, filteredJobs, currentPage := [], [], 1;
      searchTerm, locationSearch, filters := "", "", NoFilters;
    }

    /** `if (active) result = result.filter(p)`: an inactive criterion passes every job. */
    static method Narrow(result: seq<Listing>, active: bool, p: Listing -> bool) returns (r: seq<Listing>)
      requires !active ==> forall j :: j in result ==> p(j)
      ensures r == Filter(result, p)
    {
      r := result;
      if active {
        r := Filter(result, p);
      } else {
        FilterAll(result, p);
      }
    }

    /** The filter effect: each active criterion narrows `result` in turn. */
    method ApplyFilters()
      modifies this
      ensures filteredJobs == Browse(jobs, searchTerm, locationSearch, filters)
      ensures currentPage == 1
      ensures jobs == old(jobs) && searchTerm == old(searchTerm)
      ensures locationSearch == old(locationSearch) && filters == old(filters)
    {
      var term, loc, f := searchTerm, locationSearch, filters;
      var result := jobs;
      result := Narrow(result, term != "", TextP(term));
      result := Narrow(result, loc != "", LocationP(loc));
      result := Narrow(result, |f.jobType| > 0, TypeP(f.jobType));
      result := Narrow(result, |f.experienceLevel| > 0, LevelP(f.experienceLevel));
      result := Narrow(result, f.salary > 0, SalaryP(f.salary));
      SequentialFilters(jobs, term, loc, f);
      filteredJobs := result;
      currentPage := 1;
    }

    /** The catalog arrives from the server. */
    method SetJobs(fetched: seq<Listing>)
      modifies this
      ensures Valid() && currentPage == 1
      ensures jobs == fetched
      ensures searchTerm == old(searchTerm) && locationSearch == old(locationSearch)
      ensures filters == old(filters)
    {
      jobs := fetched;
      filteredJobs := fetched;
      ApplyFilters();
    }

    method SetSearchTerm(term: string)
      modifies this
      ensures Valid() && currentPage == 1
      ensures searchTerm == term
      ensures jobs == old(jobs) && locationSearch == old(locationSearch) && filters == old(filters)
    {
      searchTerm := term;
      ApplyFilters();
    }

    method SetLocationSearch(loc: string)
      modifies this
      ensures Valid() && currentPage == 1
      ensures locationSearch == loc
      ensures jobs == old(jobs) && searchTerm == old(searchTerm) && filters == old(filters)
    {
      locationSearch := loc;
      ApplyFilters();
    }

    /** handleCheckboxChange(category, value). */
    method ToggleCheckbox(category: Category, value: string)
      modifies this
      ensures Valid() && currentPage == 1
      ensures category == JobTypeBoxes ==>
        filters == old(filters).(jobType := Toggle(old(filters).jobType, value))
      ensures category == LevelBoxes ==>
        filters == old(filters).(experienceLevel := Toggle(old(filters).experienceLevel, value))
      ensures jobs == old(jobs) && searchTerm == old(searchTerm)
      ensures locationSearch == old(locationSearch)
    {
      match category {
        case JobTypeBoxes =>
          filters := filters.(jobType := Toggle(filters.jobType, value));
        case LevelBoxes =>
          filters := filters.(experienceLevel := Toggle(filters.experienceLevel, value));
      }
      ApplyFilters();
    }

    /** handleSliderChange. */
    method SetSalary(min: int)
      modifies this
      ensures Valid() && currentPage == 1
      ensures filters == old(filters).(salary := min)
      ensures jobs == old(jobs) && searchTerm == old(searchTerm)
      ensures locationSearch == old(locationSearch)
    {
      filters := filters.(salary := min);
      ApplyFilters();
    }

    /** The Reset button: no criteria at all, so the whole catalog is shown. */
    method Reset()
      modifies this
      ensures Valid() && currentPage == 1
      ensures filters == NoFilters && searchTerm == "" && locationSearch == ""
      ensures jobs == old(jobs) && filteredJobs == jobs
    {
      filters := NoFilters;
      searchTerm := "";
      locationSearch := "";
      ApplyFilters();
      BrowseNoCriteria(jobs);
    }

    /** The Clear Filters button: the checkboxes and salary only; the searches stay. */
    method ClearFilters()
      modifies this
      ensures Valid() && currentPage == 1
      ensures filters == NoFilters
      ensures jobs == old(jobs) && searchTerm == old(searchTerm)
      ensures locationSearch == old(locationSearch)
    {
      filters := NoFilters;
      ApplyFilters();
    }

    /** paginate(pageNumber): only the page changes. */
    method Paginate(pageNumber: int)
      modifies this
      ensures currentPage == pageNumber
      ensures jobs == old(jobs) && filteredJobs == old(filteredJobs)
      ensures searchTerm == old(searchTerm) && locationSearch == old(locationSearch)
      ensures filters == old(filters)
      ensures old(Valid()) ==> Valid()
    {
      currentPage := pageNumber;
    }
  }
}
