/** The page's module state: the snapshot `papersData`, the selection
    `currentDept` and the loader, with the operations that change them. */
module Portal {
  import opened Wrappers
  import opened Feed
  import opened Query

  /** How the network read of one refresh ended: `fetch` and `res.text()` both
      succeeded with the body text, `fetch` rejected, or reading the body rejected. */
  datatype FetchOutcome = Fetched(text: string) | FetchFailed | ReadFailed

  /** What a handler leaves in the papers container: the home screen (container
      emptied, welcome message shown), an emptied container, a rendered
      listing, or the container's previous content, because the handler stopped
      when its refresh rejected. `Unchanged` speaks for the container only: the
      welcome message was already hidden before the refresh. */
  datatype Screen = Home | Blank | Shows(listing: Listing) | Unchanged

  class Page {
    /** `papersData`: the last successfully parsed feed. */
    var papersData: seq<Paper>
    /** `currentDept`: the selected department, `None` for `null`. */
    var currentDept: Option<string>
    /** Whether the loader is visible. */
    var loaderShown: bool
    /** The arguments of every `setLoader` call so far, oldest first. */
    var loaderCalls: seq<bool>

    /** `loadDept` never stores the empty string: it maps it to `null`. */
    ghost predicate Valid()
      reads this
    {
      currentDept != Some("")
    }

    /** The state when the script starts, before the first refresh. The loader
        starting hidden is an assumed value: its first visibility comes from the
        page markup, and the first `loadData()` call shows it at once. */
    constructor ()
      ensures Valid()
      ensures papersData == [] && currentDept == None
      ensures !loaderShown && loaderCalls == []
    {
      papersData := [];
      currentDept := None;
      loaderShown := false;
      loaderCalls := [];
    }

    /** `setLoader(show)`. */
    method SetLoader(show: bool)
      modifies this`loaderShown, this`loaderCalls
      ensures loaderShown == show
      ensures loaderCalls == old(loaderCalls) + [show]
    {
      loaderShown := show;
      loaderCalls := loaderCalls + [show];
    }

    /** `loadData()`: one refresh. The snapshot is replaced only when both reads
        succeeded; `ok` is false when the call rejects, which stops an awaiting
        caller. The loader is shown, then hidden on both paths. */
    method LoadData(outcome: FetchOutcome) returns (ok: bool)
      requires Valid()
      modifies this`papersData, this`loaderShown, this`loaderCalls
      ensures Valid()
      ensures ok <==> outcome.Fetched?
      ensures papersData == if outcome.Fetched? then Parse(outcome.text) else old(papersData)
      ensures !loaderShown && loaderCalls == old(loaderCalls) + [true, false]
    {
      SetLoader(true);
      match outcome {
        case Fetched(text) =>
          papersData := Parse(text);
          ok := true;
        case FetchFailed =>
          ok := false;
        case ReadFailed =>
          ok := false;
      }
      SetLoader(false);
    }

    /** `loadDept(dept)`: the empty choice goes home without a refresh; any
        other choice is stored, refreshes, and lists that department. */
    method LoadDept(dept: string, outcome: FetchOutcome) returns (screen: Screen)
      requires Valid()
      modifies this
      ensures Valid()
      ensures Selected(currentDept) <==> dept != ""
      ensures dept == "" ==>
        currentDept == None && screen == Home
        && papersData == old(papersData)
        && loaderShown == old(loaderShown) && loaderCalls == old(loaderCalls)
      ensures dept != "" ==>
        currentDept == Some(dept)
        && papersData == (if outcome.Fetched? then Parse(outcome.text) else old(papersData))
        && !loaderShown && loaderCalls == old(loaderCalls) + [true, false]
        && screen == (if outcome.Fetched? then Shows(DeptListing(papersData, dept)) else Unchanged)
    {
      if dept == "" {
        currentDept := None;
        screen := Home;
        return;
      }
      currentDept := Some(dept);
      var ok := LoadData(outcome);
      if !ok {
        screen := Unchanged;
        return;
      }
      screen := Shows(DeptListing(papersData, dept));
    }

    /** The search box's `input` handler for the box value `value`: lower-case
        the term, refresh, then clear for the empty term or render the search. */
    method SearchInput(value: string, outcome: FetchOutcome) returns (screen: Screen)
      requires Valid()
      modifies this`papersData, this`loaderShown, this`loaderCalls
      ensures Valid()
      ensures Selected(currentDept) <==> currentDept.Some?
      ensures papersData == if outcome.Fetched? then Parse(outcome.text) else old(papersData)
      ensures !loaderShown && loaderCalls == old(loaderCalls) + [true, false]
      ensures screen == if !outcome.Fetched? then Unchanged
                        else match Search(papersData, currentDept, value)
                             case Cleared => Blank
                             case Found(listing) => Shows(listing)
    {
      var ok := LoadData(outcome);
      if !ok {
        screen := Unchanged;
        return;
      }
      var result := Search(papersData, currentDept, value);
      match result {
        case Cleared => screen := Blank;
        case Found(listing) => screen := Shows(listing);
      }
    }
  }
}
