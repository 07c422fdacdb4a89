/**
 * The edit page for one todo: it lists the todos, looks the requested id
 * up, and either reports that no such todo exists, shows the record, or,
 * when a form was submitted, overwrites that row with the form's fields.
 * Page rendering, flash messages and redirects are replaced by the
 * outcome value.
 */
module EditRoute {
  import opened Wrappers
  import opened TodoRecords
  import opened TodoRequests
  import opened Manager

  /** The fields of a submitted edit form. */
  datatype Form = Form(title: string, content: string, dueDate: string)

  datatype EditOutcome =
    | NotFound                                   // "todo not found", back to the list
    | ShowForm(todo: Todo)                       // the form, filled with the record
    | Submitted(ok: bool, sent: Option<Request>) // the update's result and its request

  /**
   * Handles one request for the edit page of `todoId`; `form` is the
   * submitted form on a POST and None on a GET.
   */
  method EditTodo(manager: TodoManager, reply: Option<Grid>, todoId: int, form: Option<Form>,
                  executeSucceeds: bool)
    returns (outcome: EditOutcome)
    ensures FindById(Listing(manager.service, reply), todoId).None? ==> outcome == NotFound
    ensures FindById(Listing(manager.service, reply), todoId).Some? && form.None? ==>
      outcome == ShowForm(FindById(Listing(manager.service, reply), todoId).value)
    ensures FindById(Listing(manager.service, reply), todoId).Some? && form.Some? ==>
      outcome == Submitted(executeSucceeds,
        Some(WriteRowRequest(todoId, form.value.title, form.value.content, form.value.dueDate)))
  {
    var todos := manager.GetTodos(reply);
    var todo := FindById(todos, todoId);
    if todo.None? {
      return NotFound;
    }
    match form {
      case None =>
        outcome := ShowForm(todo.value);
      case Some(f) =>
        var ok, sent := manager.UpdateTodo(todoId, f.title, f.content, f.dueDate, executeSucceeds);
        outcome := Submitted(ok, sent);
    }
  }

  /**
   * What the edit page finds is decided by the sheet row alone: without a
   * service or a successful read nothing is found; otherwise the record is
   * found exactly when `todoId` numbers a data row with at least four
   * cells, and it is that row's record.
   */
  lemma EditFindsTheRow(connected: bool, reply: Option<Grid>, todoId: int)
    ensures !connected || reply.None? ==> FindById(Listing(connected, reply), todoId) == None
    ensures connected && reply.Some? ==>
      var values := reply.value;
      FindById(Listing(connected, reply), todoId) ==
        if FirstDataRow <= todoId <= |values| && IsRecordRow(values[todoId - 1])
        then Some(RowToTodo(todoId, values[todoId - 1]))
        else None
  {
    if connected && reply.Some? {
      LookupReadsTheRow(reply.value, todoId);
    }
  }
}
