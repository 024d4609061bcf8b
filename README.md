# Simple-ReactDataTable: a verified model of the table's state and derivations

The component is a searchable, sortable, paginated data table. Everything it
does beyond rendering lives in `src/ReactDataTable.jsx`:

- a **reducer** over a seven-field state record (search term, filtered rows,
  search column, current page, entries per page, sort specification, visible
  columns), one action kind per field;
- a **search** that keeps the rows whose lower-cased, space-joined searchable
  text contains every whitespace-separated query term inside one of its
  segments, collected in a `Set`;
- a **header-click** state machine that cycles the clicked column's sort
  direction `asc -> desc -> neutral -> asc` and starts any other column at
  `asc`;
- the **sort / paginate** pipeline: an optional sort of a copy of the filtered
  rows by the string at the sort key, `totalPages = ceil(len / entriesPerPage)`,
  the current page as a `slice`, the Previous/Next page updates and the
  "Showing X to Y of Z entries" numbers.

The Dafny modules follow those parts:

| file | module | contents |
|---|---|---|
| `text.dfy` | `Text` | the JavaScript string operations used: `toLowerCase`, `split(/\s+/)`, `includes`, the sort comparator |
| `records.dfy` | `Records` | a record is a `class Row` with an immutable cell map (records are compared by identity); column descriptors |
| `reducer.dfy` | `Reducer` | state, actions, the initial state, the reducer |
| `search.dfy` | `SearchEngine` | the search as three loops (columns, terms, items) proved against specification functions |
| `sorting.dfy` | `Sorting` | the header-click method, the comparator, an in-place sort of the copied array, `sortedData` |
| `pagination.dfy` | `Pagination` | page count, JavaScript `slice`, current page, Previous/Next, status line |
| `table.dfy` | `Table` | `class DataTable`: the state of one mounted table and its event handlers as methods |

Things the code does that the model states explicitly:

- The search result is not just a set: a JavaScript `Set` keeps insertion
  order, so the result lists the matching rows once each, in the order they
  first occur in the input (`SelectedOrder`).
- `split(/\s+/)` of the searchable text always yields an empty first segment
  (the text starts with a space) and a query with leading or trailing blanks
  yields empty terms; an empty term is found in any segment, so such terms
  never exclude a row.
- A missing cell reads as the string `"undefined"` (`String(undefined)`), and
  that string takes part in searching and sorting.
- Next moves to page 0 when there are no pages. The current page is not reset
  when a search or the page-size picker shrinks the page count. On a page
  past the last one the table shows no rows while the status line reads
  "len to len" (`StatusMatchesEntries`).
- `DataTable.Next` uses the corrected Next of the Findings table. Everything
  else follows the code as written.

## Model

| member | source | states |
|---|---|---|
| `Text.Lower` | src/ReactDataTable.jsx:69 | lower-casing keeps the length of the text |
| `Text.LowerSpec` | src/ReactDataTable.jsx:75 | lower-casing turns each letter A-Z into its lower-case form, keeps every other character, leaves no upper-case letter and is idempotent |
| `Text.Split` | src/ReactDataTable.jsx:79 | splitting always gives at least one piece, the empty text included |
| `Text.SplitNoSpacePieces` | src/ReactDataTable.jsx:79 | no piece holds white space |
| `Text.SplitInnerPieces` | src/ReactDataTable.jsx:79 | only the first and the last piece can be empty; the first is empty exactly when the text is empty or starts with white space |
| `Text.SplitLastPiece` | src/ReactDataTable.jsx:79 | there is an empty last piece after the first exactly when the text ends with white space |
| `Text.SplitFlatten` | src/ReactDataTable.jsx:79 | the pieces together are the text's non-space characters in order |
| `Text.SplitInterleave` | src/ReactDataTable.jsx:69-79 | words without white space (the inner ones non-empty) joined by runs of white space split back into exactly those words |
| `Text.Includes` | src/ReactDataTable.jsx:83 | `segment.includes(term)` holds exactly when the term occurs in the segment at some position |
| `Text.Compare` | src/ReactDataTable.jsx:147 | the comparator is non-positive exactly when the first string is lexicographically at most the second, and zero exactly for equal strings |
| `Text.StrLeReflexive` | src/ReactDataTable.jsx:147 | every string is at most itself |
| `Text.StrLeTotal` | src/ReactDataTable.jsx:147 | of any two strings one is at most the other |
| `Text.StrLeAntisymmetric` | src/ReactDataTable.jsx:147 | two strings each at most the other are equal |
| `Text.StrLeTransitive` | src/ReactDataTable.jsx:147 | the comparator's order is transitive |
| `Records.Cell` | src/ReactDataTable.jsx:75 | a cell reads as the record's string at the key, and as "undefined" when the key is missing |
| `Reducer.InitialState` | src/ReactDataTable.jsx:29-37 | a fresh table has an empty search term, all the data as filtered rows, search column "all", page 1, the default page size, the given sort key with neutral direction, and exactly the column keys as visible columns |
| `Reducer.Reduce` | src/ReactDataTable.jsx:39-58 | an unrecognised action returns the state unchanged; each recognised action puts its payload in its one target field and leaves the other six fields equal |
| `Reducer.ReduceDetermined` | src/ReactDataTable.jsx:39-57 | any state that agrees with the old one off the target field and holds the payload in it is the reducer's result |
| `Reducer.LastWriteWins` | src/ReactDataTable.jsx:39-57 | of two actions on the same field, the second overrides the first |
| `Reducer.DistinctFieldsCommute` | src/ReactDataTable.jsx:39-57 | actions on different fields can be applied in either order |
| `SearchEngine.ConcatenatedData` | src/ReactDataTable.jsx:72-77 | the accumulating loop over the columns builds the searchable text: a space and the lower-cased cell for each selected column, in column order |
| `SearchEngine.FindTerms` | src/ReactDataTable.jsx:81-89 | the flag loop with its early exit ends true exactly when there is at least one term and every term is included in some segment |
| `SearchEngine.ItemMatches` | src/ReactDataTable.jsx:72-89 | the per-item test of the `forEach` callback sets `termFound` exactly when the item matches the query terms |
| `SearchEngine.Search` | src/ReactDataTable.jsx:62-97 | a non-array input yields no rows; an array yields the rows the result set holds after visiting the items in order |
| `SearchEngine.SelectedMembers` | src/ReactDataTable.jsx:71-94 | a row is in the search result exactly when it is among the input rows and matches the query |
| `SearchEngine.SelectedDistinct` | src/ReactDataTable.jsx:68-96 | no row appears twice in the search result, even when the input lists the same row more than once |
| `SearchEngine.SelectedOrder` | src/ReactDataTable.jsx:68-96 | the result is drawn from the input, in the order of each row's first occurrence there |
| `SearchEngine.MatchesIffEveryTermInSomeSegment` | src/ReactDataTable.jsx:69-89 | a row matches exactly when each lower-cased query term occurs inside at least one white-space segment of its searchable text |
| `SearchEngine.OnlySelectedColumnsCount` | src/ReactDataTable.jsx:73-77 | two rows that agree on the cells of the selected columns have the same searchable text and the same match outcome for every query |
| `SearchEngine.OneColumnText` | src/ReactDataTable.jsx:73-76 | with one column picked, the searchable text is that column's lower-cased cell after a space, repeated once per column with that key |
| `Sorting.CycleHasPeriodThree` | src/ReactDataTable.jsx:158-164 | clicking the current sort column changes its direction on the first and second click and restores it on the third |
| `Sorting.HandleHeaderClick` | src/ReactDataTable.jsx:154-170 | the dispatched sort key is the clicked column; a column other than the current one starts at ascending; the current one moves asc to desc, desc to neutral, neutral to asc |
| `Sorting.ComparatorSign` | src/ReactDataTable.jsx:145-151 | the sort callback is non-positive exactly when the first row's key string is at most the second's (ascending) or the second's at most the first's (descending), and zero exactly when the two key strings are equal |
| `Sorting.InOrderTotal` | src/ReactDataTable.jsx:145-151 | for either direction, of two rows one may precede the other under the comparator |
| `Sorting.InOrderTransitive` | src/ReactDataTable.jsx:145-151 | for either direction, the comparator's order on rows is transitive |
| `Sorting.SortInPlace` | src/ReactDataTable.jsx:145-151 | sorting the copied array in place leaves it ordered by the comparator and a permutation of what it held |
| `Sorting.SortedData` | src/ReactDataTable.jsx:140-152 | the derived rows have the filtered rows' length; with a neutral direction they are exactly the filtered rows; otherwise they are a permutation of them ordered ascending or descending by the string at the sort key |
| `Sorting.DescendingIsReversedAscending` | src/ReactDataTable.jsx:146-150 | a sequence is in descending order on a key exactly when its reverse is in ascending order on that key |
| `Pagination.TotalPages` | src/ReactDataTable.jsx:173 | the page count is the least count whose pages hold all rows: it times the page size covers the rows, and one page fewer does not |
| `Pagination.RelativeIndex` | src/ReactDataTable.jsx:174 | a slice bound inside the array is kept, one past the end becomes the length, a negative one counts back from the end and stops at 0 |
| `Pagination.Slice` | src/ReactDataTable.jsx:174 | `slice` gives the elements from the first bound to the second, as many as the distance between them and none when the second bound is not past the first |
| `Pagination.CurrentEntries` | src/ReactDataTable.jsx:174 | from page 1 on, the page holds at most a page size of rows, exactly min(page size, rows left) of them, namely the rows from position (page-1) times the page size on; page 0 holds none |
| `Pagination.FirstPageSize` | tests/ReactDataTable.test.jsx:178-182 | on page 1 the table shows min(number of rows, page size) rows |
| `Pagination.PagesUpToIsPrefix` | src/ReactDataTable.jsx:174 | pages 1 to m read in order are the first min(m times page size, rows) rows |
| `Pagination.PagesCoverData` | src/ReactDataTable.jsx:173-174 | pages 1 to the page count read in order are exactly the rows, each once |
| `Pagination.PageEmptyIffBeyondLast` | src/ReactDataTable.jsx:173-174 | from page 1 on, a page is empty exactly when it lies past the page count |
| `Pagination.PreviousPage` | src/ReactDataTable.jsx:233 | Previous never goes below page 1, never moves forward, is a no-op on page 1, goes back one page from a later page and returns to page 1 from page 0 |
| `Pagination.NextPage` | src/ReactDataTable.jsx:237 | Next as written never exceeds the page count, is the page count from the last page on, and otherwise advances one page |
| `Pagination.ClampedNextPage` | src/ReactDataTable.jsx:237 | the corrected Next stays at page 1 or above, never exceeds max(page count, 1), agrees with Next as written whenever there is a page, and is a no-op on the last page |
| `Pagination.StatusLine` | src/ReactDataTable.jsx:235 | the status line's start and end never exceed the number of filtered rows, which is its total |
| `Pagination.StatusMatchesEntries` | src/ReactDataTable.jsx:235 | on a page with rows the status line numbers exactly the rows shown, 1-based; on a page past the end it shows "len to len" over an empty page |
| `Pagination.NextWithNoPagesGoesToPageZero` | src/ReactDataTable.jsx:237 | with no rows, Next from page 1 moves to page 0, where the status line starts at 1 minus the page size and no rows are shown whatever the data |
| `Pagination.ClampedNextKeepsStatusNonNegative` | src/ReactDataTable.jsx:235-237 | after the corrected Next the page is at least 1 and the status line never starts below 0 |
| `Table.DataTable.constructor` | src/ReactDataTable.jsx:29-37 | mounting builds the initial state from the props and the controller invariant holds |
| `Table.DataTable.ReceiveData` | src/ReactDataTable.jsx:25-27 | a new data prop becomes the filtered rows and no other field changes |
| `Table.DataTable.HandleSearch` | src/ReactDataTable.jsx:99-120 | typing stores the term, then the filtered rows become all the data for an empty query and the search result over all the data otherwise; filtered rows stay drawn from the data |
| `Table.DataTable.SelectSearchColumn` | src/ReactDataTable.jsx:189 | the search-column picker sets only the search column |
| `Table.DataTable.SelectEntriesPerPage` | src/ReactDataTable.jsx:180-185 | the page-size picker sets only the page size, to one of 10, 25, 50, 100, and keeps the current page |
| `Table.DataTable.HeaderClick` | src/ReactDataTable.jsx:154-170 | a header click changes only the sort specification, to the clicked key with the cycled or fresh ascending direction |
| `Table.DataTable.Previous` | src/ReactDataTable.jsx:233 | Previous sets the current page to the Previous update |
| `Table.DataTable.Next` | src/ReactDataTable.jsx:237 | Next sets the current page to the corrected Next update over the filtered rows' page count, which is the code's update whenever there is at least one page |
| `Table.DataTable.View` | src/ReactDataTable.jsx:140-174 | one render derives the sorted rows per the sort specification, the page count of the filtered rows, the current page slice of the sorted rows (at most a page size) and the status line |

## Left out

- Rendering: the JSX markup, CSS classes, the style objects and the sort indicator class names (src/ReactDataTable.jsx:122-138, 176-240), and the row renderer `src/components/TableRow.jsx`; they only display derived state.
- `onRowClick` forwarding, `console.error` logging and the PropTypes declarations: callbacks, I/O and runtime type checks.
- The debounce wrapper and its 150 ms timer (src/ReactDataTable.jsx:99-110); `src/utils/debounce` is not part of this model. `DataTable.HandleSearch` runs the callback body at once, so the last-call-wins coalescing and the window in which a stale result can arrive after a data change are not modelled.
- React's hooks: `useReducer`, `useEffect`, `useCallback` and `useMemo` are replaced by explicit method calls on `DataTable`; memoisation does not change any value.
- `SET_VISIBLE_COLUMNS` is modelled in the reducer only; nothing in the component dispatches it, so `DataTable` has no handler for it. Header clicks are accepted for any key, not only visible columns.
- Text.Lower: its own contract states only the length; the character mapping is stated by `Text.LowerSpec`, kept apart so that the search proofs stay small.
- Text.Split: its own contract states only that there is a piece. The shape of the pieces is stated by `Text.SplitNoSpacePieces`, `Text.SplitInnerPieces`, `Text.SplitLastPiece`, `Text.SplitFlatten` and `Text.SplitInterleave`, kept apart for the same reason.
- Sorting.Comparator: its sign is stated by `Sorting.ComparatorSign`, kept apart so that the sort proofs stay small.
- Text.LowerChar: maps only the letters A-Z; full Unicode `toLowerCase` is a library call not modelled.
- Text.Compare: code-point lexicographic order stands in for `localeCompare`'s locale collation; it is a total order in which only equal strings compare equal.
- Records.Row: cells hold their string form; the `String(value)` coercion of numbers and dates is not modelled, except that a missing key reads as "undefined".
- Sorting.SortInPlace: an insertion sort stands in for the engine's `Array.prototype.sort`; its contract states order and permutation but not stability.
- Sorting.SortedData: the contract does not state stability, that is the relative order of rows with equal keys.
- Pagination.TotalPages: requires a positive page size; the source would compute with 0 without error, but only 10, 25, 50, 100 and the positive default are ever set.
- Pagination.CurrentEntries: requires a positive page size for the same reason; negative pages, which no handler can produce, are sliced as JavaScript does but not described by the contract.
- SearchEngine.Search: every non-array `items` value is the single `NotAnArray` case.
- Reducer.Reduce: actions carry typed payloads, where JavaScript accepts any payload.
- Table.DataTable.constructor: `columns` is a constant of `DataTable`, so a change of the `columns` prop is not modelled, although the source's `search` follows it (src/ReactDataTable.jsx:97).
- Table.DataTable.Next: runs the corrected Next, so the controller never reaches page 0. With no pages the code moves to page 0 (src/ReactDataTable.jsx:237); that state and the "Showing -9 to 0 of 0 entries" line are stated only by `Pagination.NextWithNoPagesGoesToPageZero`.

## Findings

| source | as written | input that shows it | evidently intended | confidence | as-written member | corrected member |
|---|---|---|---|---|---|---|
| src/ReactDataTable.jsx:237 | Next sets the page to the smaller of page + 1 and the page count, which is 0 when there are no rows | search for a term no row contains, so the filtered rows are empty, then click Next on page 1: the page becomes 0, the status line reads "Showing -9 to 0 of 0 entries" at 10 per page, and page 0 stays empty after a later search finds rows | like Previous, Next never goes below page 1 | medium; not executed | `Pagination.NextWithNoPagesGoesToPageZero` | `Pagination.ClampedNextPage` |
