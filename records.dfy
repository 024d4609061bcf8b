/**
 * The caller's records and column descriptors. A record is an object: the
 * table never changes one, but it compares them by identity (the result set
 * of a search), so a record is a class with an immutable map of cells.
 */
module Records {

  class Row {
    /** The string form of each cell, by column key. */
    const cells: map<string, string>

    constructor (cells: map<string, string>)
      ensures this.cells == cells
    {
      this.cells := cells;
    }
  }

  /** A column descriptor `{ key, title }`. */
  datatype Column = Column(key: string, title: string)

  /** `String(item[key])`: a missing key reads as the string "undefined". */
  function Cell(row: Row, key: string): (r: string)
    ensures key in row.cells ==> r == row.cells[key]
    ensures key !in row.cells ==> r == "undefined"
  {
    if key in row.cells then row.cells[key] else "undefined"
  }
}
