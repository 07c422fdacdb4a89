/**
 * The todo store's adapter object: it holds the handle to the Sheets
 * service, reads the todo list and builds the write requests.
 *
 * The service handle is modelled by whether it is present (`service`).
 * The remote calls are parameters: a read reply is `Some(values)` with the
 * grid that came back, or None when the call raised; a write's
 * `executeSucceeds` says whether its call returned normally. Every
 * operation first returns its "nothing done" value when there is no
 * service, and builds no request then.
 */
module Manager {
  import opened Wrappers
  import opened TodoRecords
  import opened TodoRequests

  /** The list a read yields with `connected` service and reply `reply`. */
  function Listing(connected: bool, reply: Option<Grid>): (todos: seq<Todo>)
    ensures !connected || reply.None? ==> todos == []
  {
    if connected && reply.Some? then Records(reply.value) else []
  }

  class TodoManager {
    /** Whether a Sheets service handle has been built. */
    var service: bool

    /** A new manager has no service yet. */
    constructor ()
      ensures !service
    {
      service := false;
    }

    /** The end of a successful authentication: the service handle is built. */
    method AttachService()
      modifies this
      ensures service
    {
      service := true;
    }

    /**
     * Lists the todos: none without service or when the read fails,
     * otherwise every data row with at least four cells, keyed by its
     * sheet row number.
     */
    method GetTodos(reply: Option<Grid>) returns (todos: seq<Todo>)
      ensures !service || reply.None? ==> todos == []
      ensures service && reply.Some? ==> todos == Records(reply.value)
    {
      if !service {
        return [];
      }
      match reply {
        case None =>
          todos := [];
        case Some(values) =>
          var rows := DataRows(values);
          todos := [];
          for k := 0 to |rows|
            invariant todos == MapRows(rows[..k], FirstDataRow)
          {
            var row := rows[k];
            assert rows[..k + 1][..k] == rows[..k];
            if |row| >= CellsPerRecord {
              todos := todos + [Todo(k + FirstDataRow, row[1], row[2], row[3])];
            }
          }
          assert rows[..|rows|] == rows;
      }
    }

    /**
     * Adds a todo: the row is written at the id one past the listed
     * records and the header. A failed read lists nothing, so the write
     * then goes to row 2.
     */
    method AddTodo(reply: Option<Grid>, title: string, content: string, dueDate: string,
                   executeSucceeds: bool)
      returns (ok: bool, sent: Option<Request>)
      ensures !service ==> !ok && sent == None
      ensures service ==> ok == executeSucceeds
      ensures service ==> sent == Some(WriteRowRequest(NewId(Listing(true, reply)), title, content, dueDate))
    {
      if !service {
        return false, None;
      }
      var todos := GetTodos(reply);
      var newId := |todos| + FirstDataRow;
      sent := Some(WriteRowRequest(newId, title, content, dueDate));
      ok := executeSucceeds;
    }

    /** Overwrites sheet row `todoId`, whether or not a record is there. */
    method UpdateTodo(todoId: int, title: string, content: string, dueDate: string,
                      executeSucceeds: bool)
      returns (ok: bool, sent: Option<Request>)
      ensures !service ==> !ok && sent == None
      ensures service ==> ok == executeSucceeds
      ensures service ==> sent == Some(WriteRowRequest(todoId, title, content, dueDate))
    {
      if !service {
        return false, None;
      }
      sent := Some(WriteRowRequest(todoId, title, content, dueDate));
      ok := executeSucceeds;
    }

    /** Asks for sheet row `todoId` to be removed. */
    method DeleteTodo(todoId: int, executeSucceeds: bool) returns (ok: bool, sent: Option<Request>)
      ensures !service ==> !ok && sent == None
      ensures service ==> ok == executeSucceeds && sent == Some(DeleteRowsRequest(todoId))
    {
      if !service {
        return false, None;
      }
      sent := Some(DeleteRowsRequest(todoId));
      ok := executeSucceeds;
    }
  }
}
