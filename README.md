# VelTech question-paper portal: the feed, the filters and the page state

The portal reads a published spreadsheet as CSV text, turns it into a list of
question-paper records (`subject`, `dept`, `years`, `link`), keeps the latest
list in the module variable `papersData`, and answers two kinds of request from
it: the listing of one department and a free-text search, either global or
scoped to the selected department `currentDept`. Every request first refreshes
the list from the network, with a loader shown during the refresh.

This project models that core of `app.js` in Dafny:

- `text.dfy` (module `Text`): the JavaScript string operations the code uses.
  These are `trim` (with the exact ECMAScript whitespace and line-terminator set),
  `toLowerCase` (ASCII letters), `includes`, and `split`/`join` on one character.
- `seqs.dfy` (module `Seqs`): `Array.prototype.filter` and `map` on sequences.
  It also gives an independent meaning of "the filter of `s` by `p`": the
  order-preserving subsequence at exactly the positions that pass, given by a
  strictly increasing index sequence. That meaning is proved to hold of
  `Filter` and to determine its result uniquely.
- `feed.dfy` (module `Feed`): the parser chain inside `loadData`. It splits on
  line breaks, drops the header line, drops blank lines, splits each line on commas,
  takes fields 0 to 2, and rejoins the rest as the link.
- `query.dfy` (module `Query`): the department listing of `loadDept`. It also
  holds the two searches of the search box's `input` handler, each result paired
  with the title handed to `render`.
- `portal.dfy` (module `Portal`): class `Page` with the fields `papersData`,
  `currentDept`, the loader flag and the history of `setLoader` calls.
  Its methods `LoadData`, `LoadDept` and `SearchInput` take the outcome of the
  network read as a parameter.
- `wrappers.dfy`: an `Option` type for `currentDept`, which is `null` or a string.

The years placeholder is the single character U+2014 (em dash), as in the source.

Three behaviours of the code are easy to misread, and the model keeps them
as written:

- `if (!term)` tests the lower-cased but untrimmed term (app.js:115, 122), so
  only the exact empty string clears the results, and a term of spaces runs
  the filter (`Query.SpaceTermSearches`).
- The years placeholder is chosen on the raw field (app.js:36, 42), so a field
  of spaces becomes `""` rather than `"—"` (`Feed.WhitespaceYears`).
- `loadData` has `try`/`finally` but no `catch` (app.js:24-48), so a failed read
  makes the call reject. `loadDept` and the `input` handler await it and stop
  there without rendering. The model returns `ok == false` from `LoadData` and
  `Unchanged` from the handlers: the papers container keeps its content, though
  the welcome message was already hidden (app.js:106, 118).

## Model

| member | source | states |
|---|---|---|
| `Text.Trim` | app.js:30 | the result has no whitespace at either end |
| `Text.TrimInfix` | app.js:40-43 | the trimmed string is an infix of the input and only whitespace lies outside it |
| `Text.TrimPadded` | app.js:40-43 | a string with no whitespace at its ends, padded with any whitespace on either side, trims back to itself |
| `Text.TrimIdempotent` | app.js:40-43 | trimming a trimmed field changes nothing |
| `Text.TrimEmptyIff` | app.js:30 | a line trims to `""` exactly when every character of it is whitespace |
| `Text.TrimKeeps` | app.js:40-43 | every character of a trimmed string occurs in the original |
| `Text.Lower` | app.js:115 | the result has the same length, no upper-case ASCII letter is left, and each character is either kept or an upper-case letter moved to its lower-case partner |
| `Text.LowerIdempotent` | app.js:132 | lower-casing an already lower-cased term changes nothing |
| `Text.Contains` | app.js:132 | `includes` of the empty string is always true, and a string never contains a longer one |
| `Text.ContainsInfix` | app.js:137-138 | a string contains every piece it is built around |
| `Text.ContainsLower` | app.js:132 | if a subject contains the typed value in any case, its lower-cased form contains the lower-cased value |
| `Text.Split` | app.js:32 | `split` yields at least one piece and no piece contains the separator |
| `Text.Join` | app.js:37 | the first piece starts the joined text |
| `Text.JoinEnds` | app.js:37 | the last piece ends the joined text |
| `Text.JoinSplit` | app.js:37 | joining the pieces of a split with the same separator gives back the text |
| `Text.SplitCons` | app.js:32 | the text before the first separator is the first piece and the rest is split on its own |
| `Text.SplitJoin` | app.js:37 | splitting the join of separator-free pieces gives back the pieces |
| `Seqs.FilterIsFilter` | app.js:30 | `filter` returns the order-preserving subsequence at exactly the positions whose element passes the test |
| `Seqs.IsFilterUnique` | app.js:109 | that description fixes the result: two subsequences that both meet it are equal |
| `Seqs.FilterLength` | app.js:30 | the length of a filter's result is the number of positions that pass |
| `Seqs.FilterMembership` | app.js:109 | a value is in the result exactly when it is in the input and passes the test |
| `Seqs.FilterAppend` | app.js:29-31 | filtering two blocks one after the other is filtering their concatenation |
| `Seqs.FilterTwice` | app.js:130-133 | filtering by one test and then another is filtering once by both |
| `Seqs.FilterNarrow` | app.js:130-139 | filtering by a weaker test and then a stronger one is filtering by the stronger one alone |
| `Seqs.MapAppend` | app.js:31 | mapping distributes over concatenation |
| `Seqs.Map` | app.js:31 | `map` keeps the length, and position `i` of the result is the callback applied to position `i` |
| `Feed.ParseRow` | app.js:31-44 | every record has all four fields trimmed, and no comma in subject, dept or years |
| `Feed.Years` | app.js:36-42 | a missing or empty field takes the placeholder `"—"`; any other field comes out trimmed; the value itself, `Trim` of the raw field, is stated by `Feed.ParseRowFull` |
| `Feed.YearsBlank` | app.js:36-42 | a non-empty field comes out `""` exactly when it is all spaces |
| `Feed.Parse` | app.js:27-45 | every record of the snapshot satisfies the record invariant above |
| `Feed.BodyLines` | app.js:27 | no line after the header holds a line break, and there are none exactly when the text has no line break |
| `Feed.BodyLinesAfterHeader` | app.js:27 | the lines after the header are exactly the split of the text after the first line break |
| `Feed.Rows` | app.js:29-45 | the filter-and-map chain yields at most one record per line, each well formed |
| `Feed.ParseRowFull` | app.js:32-43 | for a line `a,b,y,rest` with `a`, `b`, `y` comma-free: the subject is `a` trimmed, the dept is `b` trimmed, years is `"—"` if `y` is empty and otherwise `y` trimmed, and the link is everything after the third comma, commas kept, trimmed |
| `Feed.ParseRowThreeFields` | app.js:32-43 | a line with two commas gives an empty link and the same first three fields |
| `Feed.ParseRowTwoFields` | app.js:32-43 | a line with one comma gives years `"—"` and an empty link |
| `Feed.ParseRowOneField` | app.js:32-43 | a line without a comma is all subject, with empty dept, years `"—"` and empty link |
| `Feed.WhitespaceYears` | app.js:36-42 | for any line whose first three fields are comma-free and whose third field is non-empty and all spaces, years is `""`, not `"—"` |
| `Feed.WhitespaceYearsExample` | app.js:36-42 | the line `A,B, ,x` has years `""` |
| `Feed.EmptyYears` | app.js:36-42 | the line `A,B,,link` has years `"—"` |
| `Feed.CommaInLink` | app.js:37-43 | the line `A,B,2022,http://x?y=1,2` keeps the link `http://x?y=1,2` whole |
| `Feed.ParseSelectsRows` | app.js:27-45 | the records are, in order, the parses of exactly the non-blank lines after the header, one per line |
| `Feed.ParseCount` | app.js:27-31 | the number of records is the number of non-blank lines after the header |
| `Feed.ParseAfterHeader` | app.js:27 | the first line is dropped whatever it holds, and the records come from the lines after it |
| `Feed.ParseHeaderOnly` | app.js:27 | a text without a line break yields no records |
| `Feed.RowsAppend` | app.js:29-45 | lines are parsed independently: the records of two blocks of lines are the records of each, concatenated |
| `Feed.RowsOfLine` | app.js:30-31 | a whitespace-only line yields nothing and any other line yields exactly its record |
| `Feed.OneLineBody` | app.js:27-31 | a single non-blank line ended by a line break yields exactly its record; the empty last piece is dropped |
| `Feed.ParseExample` | app.js:27-45 | `header\nMath,CS,2023,http://x\n` parses to the one record `Math`, `CS`, `2023`, `http://x` |
| `Query.DeptListing` | app.js:109-110 | the listing is titled `<dept> Question Papers` and holds exactly the records whose dept equals `dept`, as an order-preserving subsequence of the snapshot |
| `Query.EmptySelectionIsGlobal` | app.js:129-141 | a selection of `""` searches exactly as no selection does |
| `Query.Search` | app.js:115-141 | clears exactly when the typed value is `""`; with a selected department it lists, titled `Search in <dept>`, exactly the records of that department whose lower-cased subject contains the lower-cased term; otherwise, titled `Global Search`, exactly the records whose lower-cased subject or dept contains it; both in snapshot order; `if (currentDept)` is `Selected`, true for a stored department other than `null` and `""` |
| `Query.ScopedSearchNarrowsListing` | app.js:129-134 | a scoped search is the department's listing narrowed down by subject |
| `Query.ScopedWithinGlobal` | app.js:129-141 | what a scoped search finds, the global search with the same term also finds, in the same relative order |
| `Query.GlobalSearchFindsSubject` | app.js:136-139 | a record whose subject contains the typed value, in any case, is found by the global search |
| `Query.SpaceTermSearches` | app.js:122-125 | the term `" "` is not cleared: it runs the global filter and finds a subject containing a space |
| `Portal.Page.constructor` | app.js:8-9 | the page starts with an empty snapshot, no department selected and the loader never called; the loader starting hidden is an assumed value, since the page markup sets it |
| `Portal.Page.SetLoader` | app.js:17-19 | the loader's visibility becomes the argument, and the call is recorded |
| `Portal.Page.LoadData` | app.js:22-49 | a successful read replaces the whole snapshot with the parse of the text; a failed fetch or text read leaves it unchanged and makes the call fail; the loader is shown and then hidden on both paths; the selection is untouched |
| `Portal.Page.LoadDept` | app.js:94-111 | `""` clears the selection to `null` and goes home without a refresh, leaving snapshot and loader alone; any other department is selected, refreshes, and, if the refresh succeeded, shows that department's listing of the new snapshot; otherwise the papers container is left as it was; afterwards a department counts as selected exactly when `dept` was not `""` |
| `Portal.Page.SearchInput` | app.js:114-142 | refreshes; if the refresh failed the papers container is left as it was; otherwise an empty value empties the container, and any other value shows the search of the new snapshot under the current selection; the scoped search runs exactly when a department is stored |

## Left out

- The network read (`fetch` with `cache: "no-store"`, `res.text()`) and the
  cache-busting URL built from `Date.now()` in `getFreshURL`. These are network
  and clock calls, so the outcome of the read is a parameter of type `FetchOutcome`.
- `render`'s HTML, the empty-state animation, the welcome message's `classList`
  toggling and the theme toggle. These are presentation. The model stops at the
  (title, records) pair handed to `render` and a four-way `Screen` value. The
  values are the home screen, an emptied container, a listing, or unchanged.
- `setInterval(loadData, 30000)` and the initial `loadData()` call. Each tick is
  one call of `LoadData`. Overlapping refreshes, where the last one to complete
  wins, come from interleaved asynchronous calls. A sequential model cannot state
  that without a scheduling mechanism the code does not have. The
  sequence-numbered store a rewrite might add is not part of the code either.
- Text.Lower: lower-cases only the ASCII letters `A`-`Z`. Full Unicode
  `toLowerCase`, including characters that change length, is not modelled.
- Strings are sequences of Unicode scalar values, not UTF-16 code units. This
  matters for nothing the core does: every separator and whitespace character
  is in the Basic Multilingual Plane.
