/**
 * The table controller: the state owned by one mounted table and the event
 * handlers that turn user input into dispatched actions, with the values the
 * table derives from that state for display.
 */
module Table {
  import opened Records
  import opened Reducer
  import opened SearchEngine
  import opened Sorting
  import opened Pagination

  /** The choices of the entries-per-page selector. */
  const PageSizes: seq<int> := [10, 25, 50, 100]

  class DataTable {
    /** The `data` and `columns` props. */
    var data: seq<Row>
    const columns: seq<Column>
    /** The reducer's state. */
    var state: State

    ghost predicate Valid()
      reads this
    {
      && state.entriesPerPage > 0
      && state.currentPage >= 1
      && (forall r :: r in state.filteredData ==> r in data)
    }

    /** Mounting: the initial state built from the props. */
    constructor (data: seq<Row>, columns: seq<Column>, defaultEntriesPerPage: int, sortColumnParam: string)
      requires defaultEntriesPerPage > 0
      ensures Valid()
      ensures this.data == data && this.columns == columns
      ensures state == InitialState(data, columns, defaultEntriesPerPage, sortColumnParam)
    {
      this.data := data;
      this.columns := columns;
      state := InitialState(data, columns, defaultEntriesPerPage, sortColumnParam);
    }

    /** A new `data` prop: the effect resets the filtered rows and nothing else. */
    method ReceiveData(newData: seq<Row>)
      requires Valid()
      modifies this
      ensures Valid()
      ensures data == newData
      ensures state == Reduce(old(state), SetFilteredData(newData))
    {
      data := newData;
      state := Reduce(state, SetFilteredData(newData));
    }

    /**
     * Typing in the search box: the term is stored, then the (debounced)
     * callback stores the full data for an empty query and the search
     * result over the full data otherwise.
     */
    method HandleSearch(value: string)
      requires Valid()
      modifies this`state
      ensures Valid()
      ensures state == Reduce(Reduce(old(state), SetSearchTerm(value)),
                              SetFilteredData(if value == "" then data
                                              else Selected(data, QueryTerms(value), columns, old(state).searchColumn)))
    {
      state := Reduce(state, SetSearchTerm(value));
      var results;
      if value == "" {
        results := data;
      } else {
        results := Search(value, Items(data), columns, state.searchColumn);
        SelectedMembers(data, QueryTerms(value), columns, state.searchColumn);
      }
      state := Reduce(state, SetFilteredData(results));
    }

    /** The search-column selector. */
    method SelectSearchColumn(key: string)
      requires Valid()
      modifies this`state
      ensures Valid()
      ensures state == Reduce(old(state), SetSearchColumn(key))
    {
      state := Reduce(state, SetSearchColumn(key));
    }

    /** The entries-per-page selector; the current page is kept. */
    method SelectEntriesPerPage(count: int)
      requires Valid() && count in PageSizes
      modifies this`state
      ensures Valid()
      ensures state == Reduce(old(state), SetEntriesPerPage(count))
    {
      state := Reduce(state, SetEntriesPerPage(count));
    }

    method HeaderClick(columnKey: string)
      requires Valid()
      modifies this`state
      ensures Valid()
      ensures state.sortColumn.key == columnKey
      ensures state.sortColumn.direction ==
                if old(state).sortColumn.key == columnKey then Cycle(old(state).sortColumn.direction) else Asc
      ensures AgreeExcept(old(state), state, SortColumn)
    {
      var payload := HandleHeaderClick(state.sortColumn, columnKey);
      state := Reduce(state, SetSortColumn(payload));
    }

    method Previous()
      requires Valid()
      modifies this`state
      ensures Valid()
      ensures state == Reduce(old(state), SetCurrentPage(PreviousPage(old(state).currentPage)))
    {
      state := Reduce(state, SetCurrentPage(PreviousPage(state.currentPage)));
    }

    /**
     * Next, with the page count of the sorted rows and the floor of page 1:
     * the corrected update, which agrees with the code whenever there is a page.
     */
    method Next()
      requires Valid()
      modifies this`state
      ensures Valid()
      ensures state == Reduce(old(state), SetCurrentPage(
                ClampedNextPage(old(state).currentPage, TotalPages(|old(state).filteredData|, old(state).entriesPerPage))))
      ensures TotalPages(|old(state).filteredData|, old(state).entriesPerPage) >= 1 ==>
                state.currentPage == NextPage(old(state).currentPage,
                                              TotalPages(|old(state).filteredData|, old(state).entriesPerPage))
    {
      var sorted := SortedData(state.filteredData, state.sortColumn);
      var totalPages := TotalPages(|sorted|, state.entriesPerPage);
      state := Reduce(state, SetCurrentPage(ClampedNextPage(state.currentPage, totalPages)));
    }

    /** What one render derives: the sorted rows, the page count, the rows shown and the status line. */
    method View() returns (sorted: seq<Row>, totalPages: nat, entries: seq<Row>, status: Status)
      requires Valid()
      ensures state.sortColumn.direction == Neutral ==> sorted == state.filteredData
      ensures state.sortColumn.direction != Neutral ==>
                multiset(sorted) == multiset(state.filteredData) && Ordered(sorted, state.sortColumn)
      ensures totalPages == TotalPages(|state.filteredData|, state.entriesPerPage)
      ensures entries == CurrentEntries(sorted, state.currentPage, state.entriesPerPage)
      ensures |entries| <= state.entriesPerPage
      ensures status == StatusLine(state.currentPage, state.entriesPerPage, |state.filteredData|)
    {
      sorted := SortedData(state.filteredData, state.sortColumn);
      totalPages := TotalPages(|sorted|, state.entriesPerPage);
      entries := CurrentEntries(sorted, state.currentPage, state.entriesPerPage);
      status := StatusLine(state.currentPage, state.entriesPerPage, |state.filteredData|);
    }
  }
}
