/** The filters over the snapshot: the department listing of `loadDept` and
    the two searches of the search box's `input` handler. */
module Query {
  import opened Wrappers
  import opened Text
  import opened Seqs
  import opened Feed

  /** What a filter hands to `render`: a heading and the records to list. */
  datatype Listing = Listing(title: string, papers: seq<Paper>)

  /** What the `input` handler shows once its refresh has completed: a cleared
      list for the empty term, otherwise a listing. */
  datatype SearchResult = Cleared | Found(listing: Listing)

  /** `p => p.dept === dept` */
  function InDept(dept: string): Paper -> bool {
    (p: Paper) => p.dept == dept
  }

  /** `p => p.subject.toLowerCase().includes(term)` */
  function SubjectHas(term: string): Paper -> bool {
    (p: Paper) => Contains(Lower(p.subject), term)
  }

  /** The test of the department-scoped search. */
  function InDeptWithSubject(dept: string, term: string): Paper -> bool {
    (p: Paper) => p.dept == dept && Contains(Lower(p.subject), term)
  }

  /** The test of the global search: subject or department contains the term. */
  function SubjectOrDeptHas(term: string): Paper -> bool {
    (p: Paper) => Contains(Lower(p.subject), term) || Contains(Lower(p.dept), term)
  }

  /** `if (currentDept)`: of the values `currentDept` can hold, `null` and the
      empty string are falsy and every other string is truthy. */
  predicate Selected(current: Option<string>) {
    current.Some? && current.value != ""
  }

  /** The listing `loadDept(dept)` renders: the records of exactly that
      department, in snapshot order. */
  function DeptListing(snapshot: seq<Paper>, dept: string): (v: Listing)
    ensures v.title == dept + " Question Papers"
    ensures IsFilter(v.papers, snapshot, InDept(dept))
    ensures forall p :: p in v.papers <==> p in snapshot && p.dept == dept
  {
    var papers := Filter(snapshot, InDept(dept));
    FilterIsFilter(snapshot, InDept(dept));
    forall p
      ensures p in papers <==> p in snapshot && p.dept == dept
    {
      FilterMembership(snapshot, InDept(dept), p);
    }
    Listing(dept + " Question Papers", papers)
  }

  /** The search of the `input` handler over the refreshed snapshot, for the
      raw box value `value` and the selection `current`. */
  function Search(snapshot: seq<Paper>, current: Option<string>, value: string): (r: SearchResult)
    ensures r.Cleared? <==> value == ""
    ensures r.Found? && Selected(current) ==>
      r.listing.title == "Search in " + current.value
      && IsFilter(r.listing.papers, snapshot, InDeptWithSubject(current.value, Lower(value)))
    ensures r.Found? && !Selected(current) ==>
      r.listing.title == "Global Search"
      && IsFilter(r.listing.papers, snapshot, SubjectOrDeptHas(Lower(value)))
  {
    var term := Lower(value);
    if term == [] then
      Cleared
    else if Selected(current) then
      FilterIsFilter(snapshot, InDeptWithSubject(current.value, term));
      Found(Listing("Search in " + current.value, Filter(snapshot, InDeptWithSubject(current.value, term))))
    else
      FilterIsFilter(snapshot, SubjectOrDeptHas(term));
      Found(Listing("Global Search", Filter(snapshot, SubjectOrDeptHas(term))))
  }

  /** A selection of the empty string searches like no selection at all. */
  lemma EmptySelectionIsGlobal(snapshot: seq<Paper>, value: string)
    ensures Search(snapshot, Some(""), value) == Search(snapshot, None, value)
  {
  }

  /** A scoped search is the department's listing narrowed down by subject. */
  lemma ScopedSearchNarrowsListing(snapshot: seq<Paper>, dept: string, value: string)
    requires dept != "" && value != ""
    ensures Search(snapshot, Some(dept), value).listing.papers
         == Filter(DeptListing(snapshot, dept).papers, SubjectHas(Lower(value)))
  {
    FilterTwice(snapshot, InDept(dept), SubjectHas(Lower(value)), InDeptWithSubject(dept, Lower(value)));
  }

  /** Whatever a scoped search finds, the global search with the same term also
      finds, in the same relative order. */
  lemma ScopedWithinGlobal(snapshot: seq<Paper>, dept: string, value: string)
    requires dept != "" && value != ""
    ensures Search(snapshot, Some(dept), value).listing.papers
         == Filter(Search(snapshot, None, value).listing.papers, InDeptWithSubject(dept, Lower(value)))
  {
    FilterNarrow(snapshot, InDeptWithSubject(dept, Lower(value)), SubjectOrDeptHas(Lower(value)));
  }

  /** The search ignores case on the record's side: a record whose subject
      contains the typed value, in whatever case, is found by the global search. */
  lemma GlobalSearchFindsSubject(snapshot: seq<Paper>, p: Paper, value: string)
    requires p in snapshot && value != "" && Contains(p.subject, value)
    ensures p in Search(snapshot, None, value).listing.papers
  {
    ContainsLower(p.subject, value);
    FilterMembership(snapshot, SubjectOrDeptHas(Lower(value)), p);
  }

  /** A term of spaces is not cleared: it runs the filter, and matches a
      subject with a space in it. */
  lemma SpaceTermSearches()
    ensures Search([Paper("Data Structures", "CSE", "2023", "l")], None, " ")
         == Found(Listing("Global Search", [Paper("Data Structures", "CSE", "2023", "l")]))
  {
    var p := Paper("Data Structures", "CSE", "2023", "l");
    SpaceInSubject();
    LowerSpace();
    assert SubjectOrDeptHas(" ")(p);
    assert Filter([p], SubjectOrDeptHas(" ")) == [p];
  }

  lemma LowerSpace()
    ensures Lower(" ") == " "
  {
  }

  lemma SpaceInSubject()
    ensures Contains(Lower("Data Structures"), " ")
  {
    var l := Lower("Data Structures");
    assert l[4] == ' ';
    assert l[4..5] == " ";
    assert OccursAt(l, " ", 4);
  }
}
