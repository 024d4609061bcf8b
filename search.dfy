/**
 * The search engine: the rows whose searchable text contains every query
 * term inside one of its white-space separated segments, without
 * duplicates, in the order the rows are first met.
 */
module SearchEngine {
  import opened Text
  import opened Records

  /** The `items` argument: an array of rows, or some other value. */
  datatype Items = Items(rows: seq<Row>) | NotAnArray

  /** `name.toLowerCase().split(/\s+/)` */
  function QueryTerms(name: string): seq<string> {
    Split(Lower(name))
  }

  /** A column takes part in the searchable text. */
  predicate Selects(searchColumn: string, c: Column) {
    searchColumn == "all" || searchColumn == c.key
  }

  /** The piece a column adds to the searchable text. */
  function Piece(row: Row, c: Column, searchColumn: string): string {
    if Selects(searchColumn, c) then " " + Lower(Cell(row, c.key)) else ""
  }

  /** The searchable text `concatenatedData` built from `columns`. */
  function SearchText(row: Row, columns: seq<Column>, searchColumn: string): string
    decreases |columns|
  {
    if columns == [] then []
    else SearchText(row, columns[..|columns| - 1], searchColumn) + Piece(row, columns[|columns| - 1], searchColumn)
  }

  /** `dataSegments.some(segment => segment.includes(term))` */
  predicate TermInSegments(segments: seq<string>, term: string) {
    exists seg :: seg in segments && Includes(seg, term)
  }

  predicate AllTermsFound(terms: seq<string>, segments: seq<string>) {
    forall t :: t in terms ==> TermInSegments(segments, t)
  }

  /** The value of `termFound` once the loop over the terms is done. */
  predicate Matches(row: Row, terms: seq<string>, columns: seq<Column>, searchColumn: string) {
    |terms| > 0 && AllTermsFound(terms, Split(SearchText(row, columns, searchColumn)))
  }

  /** The contents of the result set after `rows` have been visited, in insertion order. */
  function Selected(rows: seq<Row>, terms: seq<string>, columns: seq<Column>, searchColumn: string): seq<Row>
    decreases |rows|
  {
    if rows == [] then []
    else
      var prev := Selected(rows[..|rows| - 1], terms, columns, searchColumn);
      var x := rows[|rows| - 1];
      if Matches(x, terms, columns, searchColumn) && x !in prev then prev + [x] else prev
  }

  /** The loop over the columns that accumulates `concatenatedData`. */
  method ConcatenatedData(item: Row, columns: seq<Column>, searchColumn: string) returns (text: string)
    ensures text == SearchText(item, columns, searchColumn)
  {
    text := "";
    for i := 0 to |columns|
      invariant text == SearchText(item, columns[..i], searchColumn)
    {
      ghost var before := text;
      if searchColumn == "all" || searchColumn == columns[i].key {
        text := text + " " + Lower(Cell(item, columns[i].key));
        assert text == before + (" " + Lower(Cell(item, columns[i].key)));
      }
      assert text == before + Piece(item, columns[i], searchColumn);
      assert columns[..i + 1][..i] == columns[..i];
    }
    assert columns[..|columns|] == columns;
  }

  /** The `for..of` loop over the query terms with its `termFound` flag. */
  method FindTerms(terms: seq<string>, segments: seq<string>) returns (termFound: bool)
    ensures termFound <==> |terms| > 0 && AllTermsFound(terms, segments)
  {
    termFound := false;
    var i := 0;
    while i < |terms|
      invariant 0 <= i <= |terms|
      invariant termFound <==> i > 0
      invariant forall k :: 0 <= k < i ==> TermInSegments(segments, terms[k])
    {
      if exists seg :: seg in segments && Includes(seg, terms[i]) {
        termFound := true;
      } else {
        termFound := false;
        assert terms[i] in terms;
        break;
      }
      i := i + 1;
    }
    if termFound {
      forall t | t in terms ensures TermInSegments(segments, t) {
        var k :| 0 <= k < |terms| && terms[k] == t;
      }
    }
  }

  /** The test the `forEach` callback applies to one item: is `termFound` set at the end? */
  method ItemMatches(item: Row, searchTerms: seq<string>, columns: seq<Column>, searchColumn: string)
    returns (termFound: bool)
    ensures termFound == Matches(item, searchTerms, columns, searchColumn)
  {
    var concatenatedData := ConcatenatedData(item, columns, searchColumn);
    var dataSegments := Split(concatenatedData);
    termFound := FindTerms(searchTerms, dataSegments);
  }

  /** `search(name, items)` */
  method Search(name: string, items: Items, columns: seq<Column>, searchColumn: string)
    returns (results: seq<Row>)
    ensures items.NotAnArray? ==> results == []
    ensures items.Items? ==> results == Selected(items.rows, QueryTerms(name), columns, searchColumn)
  {
    if items.NotAnArray? {
      return [];
    }
    var rows := items.rows;
    var seen: set<Row> := {};
    results := [];
    var searchTerms := Split(Lower(name));
    for i := 0 to |rows|
      invariant results == Selected(rows[..i], searchTerms, columns, searchColumn)
      invariant forall x :: x in seen <==> x in results
    {
      var item := rows[i];
      var termFound := ItemMatches(item, searchTerms, columns, searchColumn);
      SelectedStep(rows, i, searchTerms, columns, searchColumn);
      if termFound && item !in seen {
        seen := seen + {item};
        results := results + [item];
      }
    }
    assert rows[..|rows|] == rows;
  }

  /** Visiting one more item: it is added when it matches and is not in the set yet. */
  lemma SelectedStep(rows: seq<Row>, i: nat, terms: seq<string>, columns: seq<Column>, searchColumn: string)
    requires i < |rows|
    ensures var prev := Selected(rows[..i], terms, columns, searchColumn);
            Selected(rows[..i + 1], terms, columns, searchColumn) ==
              if Matches(rows[i], terms, columns, searchColumn) && rows[i] !in prev then prev + [rows[i]] else prev
  {
    assert rows[..i + 1][..i] == rows[..i];
  }

  // ---------------------------------------------------------------------
  // What the result of a search is

  predicate Distinct<T(==)>(s: seq<T>) {
    forall i, j :: 0 <= i < j < |s| ==> s[i] != s[j]
  }

  /** The position at which `x` first occurs in `s`. */
  function FirstIndex<T(==)>(s: seq<T>, x: T): (k: nat)
    requires x in s
    ensures k < |s| && s[k] == x && x !in s[..k]
  {
    if s[0] == x then 0 else 1 + FirstIndex(s[1..], x)
  }

  /** The elements of `r` appear in the order of their first occurrences in `rows`. */
  predicate InFirstOccurrenceOrder<T(==)>(r: seq<T>, rows: seq<T>) {
    && (forall x :: x in r ==> x in rows)
    && (forall i, j :: 0 <= i < j < |r| ==>
          r[i] in rows && r[j] in rows && FirstIndex(rows, r[i]) < FirstIndex(rows, r[j]))
  }

  lemma FirstIndexAppend<T>(s: seq<T>, x: T, y: T)
    requires y in s
    ensures FirstIndex(s + [x], y) == FirstIndex(s, y)
  {
    var k := FirstIndex(s, y);
    assert (s + [x])[..k] == s[..k];
    FirstIndexUnique(s + [x], y, k);
  }

  lemma FirstIndexUnique<T>(s: seq<T>, y: T, k: nat)
    requires k < |s| && s[k] == y && y !in s[..k]
    ensures FirstIndex(s, y) == k
  {
  }

  /** The search result holds exactly the matching rows. */
  lemma {:induction false} SelectedMembers(rows: seq<Row>, terms: seq<string>, columns: seq<Column>, searchColumn: string)
    ensures forall x :: x in Selected(rows, terms, columns, searchColumn) <==>
                          x in rows && Matches(x, terms, columns, searchColumn)
    decreases |rows|
  {
    if rows != [] {
      var init := rows[..|rows| - 1];
      assert rows == init + [rows[|rows| - 1]];
      SelectedMembers(init, terms, columns, searchColumn);
    }
  }

  /** No row is in the search result twice. */
  lemma {:induction false} SelectedDistinct(rows: seq<Row>, terms: seq<string>, columns: seq<Column>, searchColumn: string)
    ensures Distinct(Selected(rows, terms, columns, searchColumn))
    decreases |rows|
  {
    if rows != [] {
      SelectedDistinct(rows[..|rows| - 1], terms, columns, searchColumn);
    }
  }

  /** The rows of the search result are in the order of their first occurrence in the input. */
  lemma {:induction false} SelectedOrder(rows: seq<Row>, terms: seq<string>, columns: seq<Column>, searchColumn: string)
    ensures InFirstOccurrenceOrder(Selected(rows, terms, columns, searchColumn), rows)
    decreases |rows|
  {
    if rows != [] {
      var init := rows[..|rows| - 1];
      var x := rows[|rows| - 1];
      assert rows == init + [x];
      var prev := Selected(init, terms, columns, searchColumn);
      SelectedOrder(init, terms, columns, searchColumn);
      if Matches(x, terms, columns, searchColumn) && x !in prev {
        SelectedMembers(init, terms, columns, searchColumn);
        OrderAppendNew(prev, init, x);
      } else {
        OrderAppendOld(prev, init, x);
      }
    }
  }

  /** Visiting an element that is already in the input keeps the order of the result. */
  lemma OrderAppendOld<T>(r: seq<T>, rows: seq<T>, x: T)
    requires InFirstOccurrenceOrder(r, rows)
    ensures InFirstOccurrenceOrder(r, rows + [x])
  {
    forall y | y in r ensures FirstIndex(rows + [x], y) == FirstIndex(rows, y) {
      FirstIndexAppend(rows, x, y);
    }
  }

  /** An element met for the first time goes to the end of the result. */
  lemma OrderAppendNew<T>(r: seq<T>, rows: seq<T>, x: T)
    requires InFirstOccurrenceOrder(r, rows) && x !in rows
    ensures InFirstOccurrenceOrder(r + [x], rows + [x])
  {
    OrderAppendOld(r, rows, x);
    FirstIndexUnique(rows + [x], x, |rows|);
    forall y | y in r ensures FirstIndex(rows + [x], y) < |rows| {
      FirstIndexAppend(rows, x, y);
    }
  }

  /**
   * A row is found precisely when each query term occurs inside some segment
   * of its searchable text: the terms are ANDed, the segments ORed.
   */
  lemma MatchesIffEveryTermInSomeSegment(row: Row, name: string, columns: seq<Column>, searchColumn: string)
    ensures Matches(row, QueryTerms(name), columns, searchColumn) <==>
            forall t :: t in QueryTerms(name) ==>
              exists seg :: seg in Split(SearchText(row, columns, searchColumn)) && exists i :: OccursAt(seg, t, i)
  {
    var segments := Split(SearchText(row, columns, searchColumn));
    forall t, seg | seg in segments
      ensures Includes(seg, t) <==> exists i :: OccursAt(seg, t, i)
    {
    }
  }

  /** Only the selected columns' cells contribute to the searchable text. */
  lemma {:induction false} OnlySelectedColumnsCount(r1: Row, r2: Row, columns: seq<Column>, searchColumn: string)
    requires forall c :: c in columns && Selects(searchColumn, c) ==> Cell(r1, c.key) == Cell(r2, c.key)
    ensures SearchText(r1, columns, searchColumn) == SearchText(r2, columns, searchColumn)
    ensures forall terms :: Matches(r1, terms, columns, searchColumn) == Matches(r2, terms, columns, searchColumn)
    decreases |columns|
  {
    if columns != [] {
      OnlySelectedColumnsCount(r1, r2, columns[..|columns| - 1], searchColumn);
    }
  }

  /** How many columns have key `k`. */
  function KeyCount(columns: seq<Column>, k: string): nat {
    if columns == [] then 0 else KeyCount(columns[..|columns| - 1], k) + (if columns[|columns| - 1].key == k then 1 else 0)
  }

  function Repeat(s: string, n: nat): string {
    if n == 0 then [] else Repeat(s, n - 1) + s
  }

  /**
   * With one column picked, the searchable text is that column's lower-cased
   * cell, once per column carrying the key (once when keys are unique).
   */
  lemma {:induction false} OneColumnText(row: Row, columns: seq<Column>, k: string)
    requires k != "all"
    ensures SearchText(row, columns, k) == Repeat(" " + Lower(Cell(row, k)), KeyCount(columns, k))
    decreases |columns|
  {
    if columns != [] {
      var init, c := columns[..|columns| - 1], columns[|columns| - 1];
      OneColumnText(row, init, k);
      assert SearchText(row, columns, k) == SearchText(row, init, k) + Piece(row, c, k);
      if c.key == k {
        assert KeyCount(columns, k) == KeyCount(init, k) + 1;
        assert Piece(row, c, k) == " " + Lower(Cell(row, k));
      } else {
        assert KeyCount(columns, k) == KeyCount(init, k);
        assert Piece(row, c, k) == [];
      }
    }
  }
}
