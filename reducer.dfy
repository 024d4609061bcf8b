/**
 * The table's interaction state and the reducer that is its only mutator:
 * every dispatched action replaces exactly one field of the state record.
 */
module Reducer {
  import opened Records

  datatype Direction = Asc | Desc | Neutral

  /** The single active sort target. */
  datatype SortSpec = SortSpec(key: string, direction: Direction)

  datatype State = State(
    searchTerm: string,
    filteredData: seq<Row>,
    searchColumn: string,       // a column key, or "all"
    currentPage: int,
    entriesPerPage: int,
    sortColumn: SortSpec,
    visibleColumns: set<string>)

  /** The seven action kinds; any other `type` string is `Unrecognized`. */
  datatype Action =
    | SetSearchTerm(term: string)
    | SetFilteredData(rows: seq<Row>)
    | SetSearchColumn(column: string)
    | SetCurrentPage(page: int)
    | SetEntriesPerPage(count: int)
    | SetSortColumn(sort: SortSpec)
    | SetVisibleColumns(keys: set<string>)
    | Unrecognized(kind: string)

  datatype Field =
    SearchTerm | FilteredData | SearchColumn | CurrentPage | EntriesPerPage | SortColumn | VisibleColumns

  /** The field a recognised action writes. */
  function Target(a: Action): Field
    requires !a.Unrecognized?
  {
    match a
    case SetSearchTerm(_) => SearchTerm
    case SetFilteredData(_) => FilteredData
    case SetSearchColumn(_) => SearchColumn
    case SetCurrentPage(_) => CurrentPage
    case SetEntriesPerPage(_) => EntriesPerPage
    case SetSortColumn(_) => SortColumn
    case SetVisibleColumns(_) => VisibleColumns
  }

  /** `s` and `t` agree on every field other than `f`. */
  predicate AgreeExcept(s: State, t: State, f: Field) {
    && (f == SearchTerm || s.searchTerm == t.searchTerm)
    && (f == FilteredData || s.filteredData == t.filteredData)
    && (f == SearchColumn || s.searchColumn == t.searchColumn)
    && (f == CurrentPage || s.currentPage == t.currentPage)
    && (f == EntriesPerPage || s.entriesPerPage == t.entriesPerPage)
    && (f == SortColumn || s.sortColumn == t.sortColumn)
    && (f == VisibleColumns || s.visibleColumns == t.visibleColumns)
  }

  /** `t` holds the payload of `a` in the field `a` targets. */
  predicate Holds(t: State, a: Action) {
    match a
    case SetSearchTerm(v) => t.searchTerm == v
    case SetFilteredData(v) => t.filteredData == v
    case SetSearchColumn(v) => t.searchColumn == v
    case SetCurrentPage(v) => t.currentPage == v
    case SetEntriesPerPage(v) => t.entriesPerPage == v
    case SetSortColumn(v) => t.sortColumn == v
    case SetVisibleColumns(v) => t.visibleColumns == v
    case Unrecognized(_) => true
  }

  /** The state a fresh table starts in. */
  function InitialState(data: seq<Row>, columns: seq<Column>, defaultEntriesPerPage: int,
                        sortColumnParam: string): (s: State)
    ensures s.searchTerm == [] && s.filteredData == data && s.searchColumn == "all"
    ensures s.currentPage == 1 && s.entriesPerPage == defaultEntriesPerPage
    ensures s.sortColumn == SortSpec(sortColumnParam, Neutral)
    ensures forall k :: k in s.visibleColumns <==> exists c :: c in columns && c.key == k
  {
    State("", data, "all", 1, defaultEntriesPerPage, SortSpec(sortColumnParam, Neutral),
          set c | c in columns :: c.key)
  }

  /** The reducer: a recognised action replaces its one field, any other is a no-op. */
  function Reduce(s: State, a: Action): (r: State)
    ensures a.Unrecognized? ==> r == s
    ensures !a.Unrecognized? ==> AgreeExcept(s, r, Target(a)) && Holds(r, a)
  {
    match a
    case SetSearchTerm(v) => s.(searchTerm := v)
    case SetFilteredData(v) => s.(filteredData := v)
    case SetSearchColumn(v) => s.(searchColumn := v)
    case SetCurrentPage(v) => s.(currentPage := v)
    case SetEntriesPerPage(v) => s.(entriesPerPage := v)
    case SetSortColumn(v) => s.(sortColumn := v)
    case SetVisibleColumns(v) => s.(visibleColumns := v)
    case Unrecognized(_) => s
  }

  /** The two clauses of Reduce's contract pin its result down completely. */
  lemma ReduceDetermined(s: State, a: Action, t: State)
    requires !a.Unrecognized? && AgreeExcept(s, t, Target(a)) && Holds(t, a)
    ensures t == Reduce(s, a)
  {
  }

  /** Of two actions on the same field, the later one wins. */
  lemma LastWriteWins(s: State, a: Action, b: Action)
    requires !a.Unrecognized? && !b.Unrecognized? && Target(a) == Target(b)
    ensures Reduce(Reduce(s, a), b) == Reduce(s, b)
  {
  }

  /** Actions on different fields commute. */
  lemma DistinctFieldsCommute(s: State, a: Action, b: Action)
    requires !a.Unrecognized? && !b.Unrecognized? && Target(a) != Target(b)
    ensures Reduce(Reduce(s, a), b) == Reduce(Reduce(s, b), a)
  {
  }
}
