/**
 * Todo records and how they are read off the sheet.
 *
 * The sheet's columns A:D come back from the Sheets service as a grid of
 * rows of strings, row 1 (index 0) being the header. Every later row with
 * at least four cells becomes one record whose id is its 1-based sheet row
 * number; shorter rows are skipped. Records is that mapping as a function;
 * the lemmas below state what it yields, and Manager.TodoManager.GetTodos
 * is the loop that computes it. FindById is the lookup by id that the
 * edit page does on such a list.
 */
module TodoRecords {
  import opened Wrappers

  type Row = seq<string>
  type Grid = seq<Row>

  /** One record: its sheet row number and the cells of columns B, C and D. */
  datatype Todo = Todo(id: int, title: string, content: string, dueDate: string)

  /** The sheet row number of the first data row (row 1 is the header). */
  const FirstDataRow: int := 2

  /** A row becomes a record only when it has cells for all four columns. */
  const CellsPerRecord: nat := 4

  predicate IsRecordRow(row: Row) {
    |row| >= CellsPerRecord
  }

  function RowToTodo(id: int, row: Row): Todo
    requires IsRecordRow(row)
  {
    Todo(id, row[1], row[2], row[3])
  }

  /** The rows after the header (`values[1:]`, empty for an empty grid). */
  function DataRows(values: Grid): (rows: Grid)
    ensures |rows| == if values == [] then 0 else |values| - 1
    ensures forall k :: 0 <= k < |rows| ==> rows[k] == values[k + 1]
  {
    if values == [] then [] else values[1..]
  }

  /**
   * The records read from `rows` when the first of them is sheet row
   * `start`, in row order.
   */
  function MapRows(rows: Grid, start: int): (todos: seq<Todo>)
    ensures |todos| <= |rows|
    decreases |rows|
  {
    if rows == [] then []
    else
      var last := rows[|rows| - 1];
      MapRows(rows[..|rows| - 1], start) +
        (if IsRecordRow(last) then [RowToTodo(start + |rows| - 1, last)] else [])
  }

  /** The todo list that a read of columns A:D returning `values` yields. */
  function Records(values: Grid): (todos: seq<Todo>)
    ensures forall j :: 0 <= j < |todos| ==> FirstDataRow <= todos[j].id <= |values|
  {
    MapRowsSource(DataRows(values), FirstDataRow);
    MapRows(DataRows(values), FirstDataRow)
  }

  /** The positions (0-based, within `rows`) of the rows that become records. */
  ghost function RecordPositions(rows: Grid): set<int> {
    set k | 0 <= k < |rows| && IsRecordRow(rows[k])
  }

  ghost function Ids(todos: seq<Todo>): set<int> {
    set j | 0 <= j < |todos| :: todos[j].id
  }

  ghost predicate StrictlyIncreasingIds(todos: seq<Todo>) {
    forall i, j :: 0 <= i < j < |todos| ==> todos[i].id < todos[j].id
  }

  // ---------------------------------------------------------------------
  // Properties of MapRows, for any first row number.

  /** Each record comes from the row its id names, cells 1, 2 and 3. */
  lemma {:induction false} MapRowsSource(rows: Grid, start: int)
    ensures |MapRows(rows, start)| <= |rows|
    ensures forall j :: 0 <= j < |MapRows(rows, start)| ==>
      var t := MapRows(rows, start)[j];
      start <= t.id < start + |rows| && IsRecordRow(rows[t.id - start]) &&
      t == RowToTodo(t.id, rows[t.id - start])
    decreases |rows|
  {
    if rows != [] {
      var init := rows[..|rows| - 1];
      MapRowsSource(init, start);
      var r := MapRows(rows, start);
      forall j | 0 <= j < |r|
        ensures start <= r[j].id < start + |rows| && IsRecordRow(rows[r[j].id - start])
        ensures r[j] == RowToTodo(r[j].id, rows[r[j].id - start])
      {
        if j < |MapRows(init, start)| {
          assert r[j] == MapRows(init, start)[j];
          assert rows[r[j].id - start] == init[r[j].id - start];
        }
      }
    }
  }

  lemma {:induction false} MapRowsIncreasing(rows: Grid, start: int)
    ensures StrictlyIncreasingIds(MapRows(rows, start))
    decreases |rows|
  {
    if rows != [] {
      var init := rows[..|rows| - 1];
      MapRowsIncreasing(init, start);
      MapRowsSource(init, start);
      var prefix := MapRows(init, start);
      var r := MapRows(rows, start);
      forall i, j | 0 <= i < j < |r| ensures r[i].id < r[j].id {
        assert r[i] == prefix[i];
        if j < |prefix| { assert r[j] == prefix[j]; }
      }
    }
  }

  /** The ids are exactly the row numbers of the rows with four or more cells. */
  lemma {:induction false} MapRowsIds(rows: Grid, start: int)
    ensures Ids(MapRows(rows, start)) == set k | k in RecordPositions(rows) :: start + k
    ensures |MapRows(rows, start)| == |RecordPositions(rows)|
    decreases |rows|
  {
    if rows != [] {
      var n := |rows| - 1;
      var init := rows[..n];
      MapRowsIds(init, start);
      var prefix := MapRows(init, start);
      var r := MapRows(rows, start);
      var extra: set<int> := if IsRecordRow(rows[n]) then {n} else {};
      assert RecordPositions(rows) == RecordPositions(init) + extra by {
        forall k | 0 <= k < n ensures rows[k] == init[k] {}
      }
      assert n !in RecordPositions(init);
      forall j | 0 <= j < |prefix| ensures r[j] == prefix[j] {}
      assert Ids(r) == Ids(prefix) + set k | k in extra :: start + k by {
        if IsRecordRow(rows[n]) {
          assert r[|r| - 1].id == start + n;
          forall x | x in Ids(r) ensures x in Ids(prefix) + {start + n} {
            var j :| 0 <= j < |r| && r[j].id == x;
            if j < |prefix| { assert x == prefix[j].id; }
          }
          forall x | x in Ids(prefix) ensures x in Ids(r) {
            var j :| 0 <= j < |prefix| && prefix[j].id == x;
            assert r[j].id == x;
          }
        } else {
          assert r == prefix;
        }
      }
    }
  }

  /** Every row has a record exactly when no row of the sheet is short. */
  lemma {:induction false} MapRowsFull(rows: Grid, start: int)
    ensures |MapRows(rows, start)| == |rows| <==> forall k :: 0 <= k < |rows| ==> IsRecordRow(rows[k])
    decreases |rows|
  {
    if rows != [] {
      var n := |rows| - 1;
      var init := rows[..n];
      MapRowsFull(init, start);
      MapRowsSource(init, start);
      var prefix := MapRows(init, start);
      if !IsRecordRow(rows[n]) {
        assert |MapRows(rows, start)| == |prefix| <= n;
      } else {
        assert |MapRows(rows, start)| == |prefix| + 1;
        assert forall k :: 0 <= k < n ==> init[k] == rows[k];
      }
    }
  }

  // ---------------------------------------------------------------------
  // The same properties stated for a whole read reply.

  /**
   * The header row is never returned: every id is a data row number, and
   * the record holds cells 1, 2 and 3 of the grid row with that number.
   * A grid with no row after the header yields no record.
   */
  lemma RecordsComeFromTheirRows(values: Grid)
    ensures |values| <= 1 ==> Records(values) == []
    ensures |values| >= 1 ==> |Records(values)| <= |values| - 1
    ensures forall j :: 0 <= j < |Records(values)| ==>
      var t := Records(values)[j];
      FirstDataRow <= t.id <= |values| && IsRecordRow(values[t.id - 1]) &&
      t.title == values[t.id - 1][1] && t.content == values[t.id - 1][2] &&
      t.dueDate == values[t.id - 1][3]
  {
    var rows := DataRows(values);
    MapRowsSource(rows, FirstDataRow);
    forall j | 0 <= j < |Records(values)|
      ensures Records(values)[j].id - 1 < |values|
      ensures values[Records(values)[j].id - 1] == rows[Records(values)[j].id - FirstDataRow]
    {}
  }

  /** Ids are strictly increasing, so no two records share an id. */
  lemma RecordsIncreasing(values: Grid)
    ensures StrictlyIncreasingIds(Records(values))
    ensures forall i, j ::
      0 <= i < |Records(values)| && 0 <= j < |Records(values)| && Records(values)[i].id == Records(values)[j].id
      ==> i == j
  {
    MapRowsIncreasing(DataRows(values), FirstDataRow);
  }

  /**
   * No row is lost but the short ones: an id occurs exactly when it is the
   * number of a data row with at least four cells, and there are as many
   * records as such rows.
   */
  lemma RecordsCoverFullRows(values: Grid)
    ensures forall id :: id in Ids(Records(values)) <==>
      FirstDataRow <= id <= |values| && IsRecordRow(values[id - 1])
    ensures |Records(values)| == |RecordPositions(DataRows(values))|
  {
    var rows := DataRows(values);
    var positions := RecordPositions(rows);
    MapRowsIds(rows, FirstDataRow);
    forall id ensures id in Ids(Records(values)) <==>
      FirstDataRow <= id <= |values| && IsRecordRow(values[id - 1])
    {
      if FirstDataRow <= id <= |values| {
        assert values[id - 1] == rows[id - FirstDataRow];
      }
      assert id in Ids(Records(values)) <==> id - FirstDataRow in positions;
    }
  }

  // ---------------------------------------------------------------------
  // Lookup by id.

  /** `j` is the position of the first record of `todos` with id `id`. */
  ghost predicate IsFirstWithId(todos: seq<Todo>, id: int, j: int) {
    0 <= j < |todos| && todos[j].id == id && forall i :: 0 <= i < j ==> todos[i].id != id
  }

  /** The first record of `todos` whose id is `id`, or None when there is none. */
  function FindById(todos: seq<Todo>, id: int): (r: Option<Todo>)
    ensures r.None? <==> forall j :: 0 <= j < |todos| ==> todos[j].id != id
    ensures r.Some? ==> exists j :: IsFirstWithId(todos, id, j) && todos[j] == r.value
    decreases |todos|
  {
    if todos == [] then None
    else if todos[0].id == id then
      assert IsFirstWithId(todos, id, 0);
      Some(todos[0])
    else
      var r := FindById(todos[1..], id);
      assert r.Some? ==> exists j :: IsFirstWithId(todos, id, j) && todos[j] == r.value by {
        if r.Some? {
          var j :| IsFirstWithId(todos[1..], id, j) && todos[1..][j] == r.value;
          assert todos[j + 1] == todos[1..][j];
          forall i | 1 <= i < j + 1 ensures todos[i].id != id {
            assert todos[i] == todos[1..][i - 1];
          }
          assert IsFirstWithId(todos, id, j + 1);
        }
      }
      r
  }

  /**
   * Looking an id up in the listing is reading its sheet row: the record is
   * found exactly when `id` numbers a data row with at least four cells,
   * and it is then built from that row. Because ids do not repeat, the
   * first match is the only one.
   */
  lemma LookupReadsTheRow(values: Grid, id: int)
    ensures FindById(Records(values), id) ==
      if FirstDataRow <= id <= |values| && IsRecordRow(values[id - 1])
      then Some(RowToTodo(id, values[id - 1]))
      else None
  {
    var todos := Records(values);
    RecordsComeFromTheirRows(values);
    RecordsCoverFullRows(values);
    if FirstDataRow <= id <= |values| && IsRecordRow(values[id - 1]) {
      assert id in Ids(todos);
      var j :| 0 <= j < |todos| && todos[j].id == id;
      var r := FindById(todos, id);
      assert r.Some?;
      assert r.value.id == id;
      assert r.value == RowToTodo(id, values[id - 1]);
    } else {
      forall j | 0 <= j < |todos| ensures todos[j].id != id {
        assert todos[j].id in Ids(todos);
      }
    }
  }
}
