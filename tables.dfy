/** A CSV file as pandas reads it: named columns over rows of cells. */
module Tables {
  import opened Wrappers

  /** A cell: blank (NaN), text, or a number. */
  datatype Cell = Blank | Text(text: string) | Number(value: real)

  /** Rows hold one cell per header; a row that is too short reads as blank. */
  datatype Table = Table(headers: seq<string>, rows: seq<seq<Cell>>)

  function CellAt(row: seq<Cell>, column: nat): Cell {
    if column < |row| then row[column] else Blank
  }

  /** The position of the first column called `name`. */
  function IndexOf(headers: seq<string>, name: string): (r: Option<nat>)
    ensures r.None? <==> name !in headers
    ensures r.Some? ==> r.value < |headers| && headers[r.value] == name
    ensures r.Some? ==> forall k :: 0 <= k < r.value ==> headers[k] != name
  {
    if headers == [] then None
    else if headers[0] == name then Some(0)
    else match IndexOf(headers[1..], name)
      case None => None
      case Some(i) => Some(i + 1)
  }
}
