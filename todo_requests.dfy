/**
 * The requests the todo store sends to the Sheets service for its writes.
 *
 * The service itself is not modelled: a write operation's observable
 * output here is the request it builds. Adding and updating both write one
 * row `[id, title, content, due_date]` to the range `A{id}:D{id}`; adding
 * picks `id` as the number of listed records plus two; deleting asks for
 * the zero-based, half-open row interval `[id - 1, id)`.
 */
module TodoRequests {
  import opened Wrappers
  import opened Decimal
  import opened A1Notation
  import opened TodoRecords

  /** A cell value as sent: the id goes as a number, the other columns as text. */
  datatype Cell = Number(n: int) | Text(s: string)

  /** How the service is to interpret the values written; the store always sends 'RAW'. */
  datatype ValueInputOption = Raw

  datatype Request =
    | UpdateValues(range: string, valueInputOption: ValueInputOption, values: seq<seq<Cell>>)
    | DeleteRows(sheetId: int, startIndex: int, endIndex: int)

  /** The id of the sheet's first (and only) tab, which deletions address. */
  const TodoSheetId: int := 0

  /** The row an added todo is written to: one past the listed records and the header. */
  function NewId(todos: seq<Todo>): (id: int)
    ensures id >= FirstDataRow
  {
    |todos| + FirstDataRow
  }

  /** The single-row write that both adding and updating send. */
  function WriteRowRequest(id: int, title: string, content: string, dueDate: string): (r: Request)
    ensures r.UpdateValues? && r.valueInputOption == Raw
    ensures |r.values| == 1 && |r.values[0]| == 4 && r.values[0][0] == Number(id)
  {
    UpdateValues(RowRange(id), Raw, [[Number(id), Text(title), Text(content), Text(dueDate)]])
  }

  /** True when the deletion `r` removes the 1-based sheet row `row`. */
  predicate RemovesSheetRow(r: Request, row: int) {
    r.DeleteRows? && r.startIndex <= row - 1 < r.endIndex
  }

  /**
   * The row deletion sent for `todoId`: its zero-based half-open interval
   * holds one index only, that of the 1-based sheet row `todoId`. Sheet
   * rows are numbered from 1, so for `todoId <= 0` it names no real row.
   */
  function DeleteRowsRequest(todoId: int): (r: Request)
    ensures r.DeleteRows? && r.sheetId == TodoSheetId
    ensures r.endIndex - r.startIndex == 1
    ensures forall row :: RemovesSheetRow(r, row) <==> row == todoId
  {
    DeleteRows(TodoSheetId, todoId - 1, todoId)
  }

  /** The text a later read shows for a cell written with option 'RAW'. */
  function CellText(c: Cell): string {
    match c
    case Number(n) => IntToDecimal(n)
    case Text(s) => s
  }

  /** The texts of a sequence of written cells, cell by cell. */
  function RowText(cells: seq<Cell>): (row: Row)
    ensures |row| == |cells|
    ensures forall k :: 0 <= k < |cells| ==> row[k] == CellText(cells[k])
  {
    if cells == [] then [] else [CellText(cells[0])] + RowText(cells[1..])
  }

  /**
   * A values read leaves out the empty cells at the end of a row: what is
   * returned is the longest prefix that does not end in an empty cell.
   */
  function TrimTrailingEmpty(row: Row): (r: Row)
    ensures |r| <= |row| && r == row[..|r|]
    ensures r == [] || r[|r| - 1] != ""
    ensures forall k :: |r| <= k < |row| ==> row[k] == ""
    decreases |row|
  {
    if row == [] || row[|row| - 1] != "" then row
    else TrimTrailingEmpty(row[..|row| - 1])
  }

  /** The row a later read returns for a row of written cells. */
  function ReadBackRow(cells: seq<Cell>): Row {
    TrimTrailingEmpty(RowText(cells))
  }

  // ---------------------------------------------------------------------
  // Properties of the requests.

  /**
   * A single-row write addresses exactly sheet row `id`, columns A to D,
   * sends one row of as many cells as the range has columns, and puts the
   * same `id` in column A as in the range. Nothing about existing records
   * enters the request: there is no existence check.
   */
  lemma WriteRowTargetsItsId(id: int, title: string, content: string, dueDate: string)
    ensures var r := WriteRowRequest(id, title, content, dueDate);
      r.UpdateValues? && r.valueInputOption == Raw &&
      ParseRange(r.range) == Some(Range(FirstColumn, id, LastColumn, id)) &&
      |r.values| == 1 && |r.values[0]| == ColumnCount(ParseRange(r.range).value) &&
      r.values[0][0] == Number(id)
  {
    RowRangeAddresses(id);
  }

  /**
   * Read back, the written row is a record row exactly when the due date
   * is not empty (an empty last cell is not returned, leaving three
   * cells); then its cells 1, 2 and 3 are the title, content and due
   * date. Column A always reads as the id.
   */
  lemma WrittenRowReadsBack(id: int, title: string, content: string, dueDate: string)
    ensures var row := ReadBackRow(WriteRowRequest(id, title, content, dueDate).values[0]);
      |row| >= 1 && ParseInt(row[0]) == Some(id) &&
      (IsRecordRow(row) <==> dueDate != "") &&
      (dueDate != "" ==> RowToTodo(id, row) == Todo(id, title, content, dueDate))
  {
    var written := RowText(WriteRowRequest(id, title, content, dueDate).values[0]);
    var row := ReadBackRow(WriteRowRequest(id, title, content, dueDate).values[0]);
    assert written[0] == IntToDecimal(id) != "";
    assert row[0] == written[0];
    if dueDate != "" {
      assert row == written;
    } else {
      assert |row| < 4;
    }
    IntRoundTrip(id);
  }

  /**
   * Once sheet row `id` holds what a read returns for the written row,
   * looking `id` up in the listing finds the written record, unless the
   * due date was empty: then the row is too short and nothing is found.
   */
  lemma ListingAfterWrite(values: Grid, id: int, title: string, content: string, dueDate: string)
    requires FirstDataRow <= id <= |values|
    requires values[id - 1] == ReadBackRow(WriteRowRequest(id, title, content, dueDate).values[0])
    ensures FindById(Records(values), id) ==
      if dueDate != "" then Some(Todo(id, title, content, dueDate)) else None
  {
    WrittenRowReadsBack(id, title, content, dueDate);
    LookupReadsTheRow(values, id);
  }

  /**
   * The id an add picks: at least 2; 2 on an empty sheet; on a sheet with
   * a header, at most one past the last row, and one past the last row
   * exactly when no data row is short. Otherwise it is the number of a row
   * that is already on the sheet, which the add then overwrites.
   */
  lemma NewIdBounds(values: Grid)
    ensures NewId(Records(values)) >= FirstDataRow
    ensures values == [] ==> NewId(Records(values)) == FirstDataRow
    ensures values != [] ==> NewId(Records(values)) <= |values| + 1
    ensures values != [] ==>
      (NewId(Records(values)) == |values| + 1 <==> forall k :: 1 <= k < |values| ==> IsRecordRow(values[k]))
    ensures (exists k :: 1 <= k < |values| && !IsRecordRow(values[k])) ==> NewId(Records(values)) <= |values|
  {
    var rows := DataRows(values);
    MapRowsSource(rows, FirstDataRow);
    MapRowsFull(rows, FirstDataRow);
    if values != [] {
      assert forall k :: 1 <= k < |values| ==> values[k] == rows[k - 1];
    }
  }

  /**
   * The row an add writes holds a listed record exactly when that row is
   * already on the sheet with at least four cells; the add then
   * overwrites that record.
   */
  lemma NewIdHitsListedTodo(values: Grid)
    ensures NewId(Records(values)) in Ids(Records(values)) <==>
      NewId(Records(values)) <= |values| && IsRecordRow(values[NewId(Records(values)) - 1])
  {
    NewIdBounds(values);
    RecordsCoverFullRows(values);
  }

  /**
   * Some sheets make an add overwrite a listed record: here a short data
   * row comes before a full one, and the add picks the full row's id.
   */
  lemma AddCanOverwriteListedTodo()
    ensures var values := [["id", "title", "content", "due_date"], ["2"], ["3", "t", "c", "d"]];
      NewId(Records(values)) == 3 && FindById(Records(values), 3) == Some(Todo(3, "t", "c", "d"))
  {
    LookupReadsTheRow([["id", "title", "content", "due_date"], ["2"], ["3", "t", "c", "d"]], 3);
  }
}
