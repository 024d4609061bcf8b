/**
 * The header-click sort state machine and the `sortedData` derivation: a
 * copy of the filtered rows, left as it is when the direction is neutral and
 * otherwise sorted in place by the string value of the sort column.
 */
module Sorting {
  import opened Text
  import opened Records
  import opened Reducer

  /** Clicking the header of the current sort column: asc -> desc -> neutral -> asc. */
  function Cycle(d: Direction): Direction {
    match d
    case Asc => Desc
    case Desc => Neutral
    case Neutral => Asc
  }

  /** Three clicks on the current sort column restore its direction. */
  lemma CycleHasPeriodThree(d: Direction)
    ensures Cycle(d) != d && Cycle(Cycle(d)) != d && Cycle(Cycle(Cycle(d))) == d
  {
  }

  /** `handleHeaderClick(columnKey)`: the sort specification it dispatches. */
  method HandleHeaderClick(sortColumn: SortSpec, columnKey: string) returns (payload: SortSpec)
    ensures payload.key == columnKey
    ensures sortColumn.key != columnKey ==> payload.direction == Asc
    ensures sortColumn.key == columnKey ==> payload.direction == Cycle(sortColumn.direction)
  {
    var newDirection := Asc;
    if sortColumn.key == columnKey {
      if sortColumn.direction == Asc {
        newDirection := Desc;
      } else if sortColumn.direction == Desc {
        newDirection := Neutral;
      }
    }
    payload := SortSpec(columnKey, newDirection);
  }

  /** The comparator handed to `array.sort` for a non-neutral direction. */
  function Comparator(sortColumn: SortSpec, a: Row, b: Row): int {
    var k := sortColumn.key;
    if sortColumn.direction == Asc then Compare(Cell(a, k), Cell(b, k)) else Compare(Cell(b, k), Cell(a, k))
  }

  /**
   * The comparator's sign: ascending, `a` may precede `b` exactly when its key
   * string is at most `b`'s; descending, the other way round; zero exactly for
   * equal key strings.
   */
  lemma ComparatorSign(sortColumn: SortSpec, a: Row, b: Row)
    ensures var x, y, r := Cell(a, sortColumn.key), Cell(b, sortColumn.key), Comparator(sortColumn, a, b);
            && (sortColumn.direction == Asc ==> (r <= 0 <==> StrLe(x, y)))
            && (sortColumn.direction != Asc ==> (r <= 0 <==> StrLe(y, x)))
            && (r == 0 <==> x == y)
  {
  }

  /** `a` may stay before `b`. */
  predicate InOrder(sortColumn: SortSpec, a: Row, b: Row) {
    Comparator(sortColumn, a, b) <= 0
  }

  predicate Ordered(s: seq<Row>, sortColumn: SortSpec) {
    forall i, j :: 0 <= i < j < |s| ==> InOrder(sortColumn, s[i], s[j])
  }

  /** Of two rows, one may always precede the other. */
  lemma InOrderTotal(sortColumn: SortSpec, a: Row, b: Row)
    ensures InOrder(sortColumn, a, b) || InOrder(sortColumn, b, a)
  {
    StrLeTotal(Cell(a, sortColumn.key), Cell(b, sortColumn.key));
  }

  lemma InOrderTransitive(sortColumn: SortSpec, a: Row, b: Row, c: Row)
    requires InOrder(sortColumn, a, b) && InOrder(sortColumn, b, c)
    ensures InOrder(sortColumn, a, c)
  {
    var k := sortColumn.key;
    if sortColumn.direction == Asc {
      StrLeTransitive(Cell(a, k), Cell(b, k), Cell(c, k));
    } else {
      StrLeTransitive(Cell(c, k), Cell(b, k), Cell(a, k));
    }
  }

  /** Exchanges `a[j - 1]` and `a[j]`. */
  method Swap(a: array<Row>, j: int)
    requires 0 < j < a.Length
    modifies a
    ensures a[..] == old(a[..])[j - 1 := old(a[j])][j := old(a[j - 1])]
    ensures multiset(a[..]) == multiset(old(a[..]))
  {
    a[j - 1], a[j] := a[j], a[j - 1];
  }

  /** The first `i` elements of `s` are ordered. */
  predicate SortedBelow(s: seq<Row>, sortColumn: SortSpec, i: int) {
    i <= |s| && forall p, q :: 0 <= p < q < i ==> InOrder(sortColumn, s[p], s[q])
  }

  /**
   * The inner loop's state: the element at `j` is sinking into `s[..i + 1]`;
   * every other pair there is ordered, and the element may precede all after it.
   */
  predicate Sinking(s: seq<Row>, sortColumn: SortSpec, i: int, j: int) {
    && 0 <= j <= i < |s|
    && (forall p, q :: 0 <= p < q <= i && p != j && q != j ==> InOrder(sortColumn, s[p], s[q]))
    && (forall q :: j < q <= i ==> InOrder(sortColumn, s[j], s[q]))
  }

  /** Moving the sinking element one place down keeps the inner loop's invariant. */
  lemma SinkStep(s: seq<Row>, sortColumn: SortSpec, i: int, j: int)
    requires Sinking(s, sortColumn, i, j) && j > 0
    requires Comparator(sortColumn, s[j - 1], s[j]) > 0
    ensures Sinking(s[j - 1 := s[j]][j := s[j - 1]], sortColumn, i, j - 1)
  {
    InOrderTotal(sortColumn, s[j - 1], s[j]);
  }

  /** When the sinking element has stopped at `j`, the first `i + 1` elements are ordered. */
  lemma InsertionDone(s: seq<Row>, sortColumn: SortSpec, i: int, j: int)
    requires Sinking(s, sortColumn, i, j)
    requires j > 0 ==> InOrder(sortColumn, s[j - 1], s[j])
    ensures SortedBelow(s, sortColumn, i + 1)
  {
    forall p | 0 <= p < j - 1
      ensures InOrder(sortColumn, s[p], s[j])
    {
      InOrderTransitive(sortColumn, s[p], s[j - 1], s[j]);
    }
  }

  /** The in-place sort of the copied array (a stable insertion sort). */
  method SortInPlace(a: array<Row>, sortColumn: SortSpec)
    modifies a
    ensures Ordered(a[..], sortColumn)
    ensures multiset(a[..]) == multiset(old(a[..]))
  {
    var i := 0;
    while i < a.Length
      invariant 0 <= i <= a.Length
      invariant SortedBelow(a[..], sortColumn, i)
      invariant multiset(a[..]) == multiset(old(a[..]))
    {
      var j := i;
      while j > 0 && Comparator(sortColumn, a[j - 1], a[j]) > 0
        invariant 0 <= j <= i
        invariant Sinking(a[..], sortColumn, i, j)
        invariant multiset(a[..]) == multiset(old(a[..]))
      {
        SinkStep(a[..], sortColumn, i, j);
        Swap(a, j);
        j := j - 1;
      }
      InsertionDone(a[..], sortColumn, i, j);
      i := i + 1;
    }
  }

  /** `sortedData`: the filtered rows, copied and, unless neutral, sorted. */
  method SortedData(filteredData: seq<Row>, sortColumn: SortSpec) returns (sorted: seq<Row>)
    ensures |sorted| == |filteredData|
    ensures sortColumn.direction == Neutral ==> sorted == filteredData
    ensures sortColumn.direction != Neutral ==>
              multiset(sorted) == multiset(filteredData) && Ordered(sorted, sortColumn)
  {
    var copy := new Row[|filteredData|](i requires 0 <= i < |filteredData| => filteredData[i]);
    assert copy[..] == filteredData;
    if sortColumn.direction == Neutral {
      return copy[..];
    }
    SortInPlace(copy, sortColumn);
    sorted := copy[..];
    assert |multiset(sorted)| == |multiset(filteredData)|;
  }

  function Reverse<T>(s: seq<T>): (r: seq<T>)
    ensures |r| == |s| && forall i :: 0 <= i < |s| ==> r[i] == s[|s| - 1 - i]
  {
    if s == [] then [] else Reverse(s[1..]) + [s[0]]
  }

  /** Descending order on a column is ascending order read backwards. */
  lemma DescendingIsReversedAscending(s: seq<Row>, key: string)
    ensures Ordered(s, SortSpec(key, Desc)) <==> Ordered(Reverse(s), SortSpec(key, Asc))
  {
    var r := Reverse(s);
    var n := |s|;
    if Ordered(s, SortSpec(key, Desc)) {
      forall i, j | 0 <= i < j < n ensures InOrder(SortSpec(key, Asc), r[i], r[j]) {
        assert r[i] == s[n - 1 - i] && r[j] == s[n - 1 - j];
      }
    }
    if Ordered(r, SortSpec(key, Asc)) {
      forall i, j | 0 <= i < j < n ensures InOrder(SortSpec(key, Desc), s[i], s[j]) {
        assert s[i] == r[n - 1 - i] && s[j] == r[n - 1 - j];
      }
    }
  }
}
