# Todo list on a spreadsheet: a Dafny model of the record store

The application keeps a todo list in one Google Sheets spreadsheet. Columns
A to D hold id, title, content and due date, and row 1 is a header. Its
`TodoManager` turns the rows of the sheet into todo records. It also turns
add, update and delete into requests to the Sheets service. A record's id
is its 1-based sheet row number, not a stored key.

This project models that part:

- **Listing** (`Manager.TodoManager.GetTodos`). The loop walks the grid
  that a read of `A:D` returns. It skips the header, numbers the rows from
  2 and drops every row with fewer than four cells. It is proved equal to
  the function `TodoRecords.Records`. The lemmas about `Records` state what
  the listing holds:
  - no header row;
  - ids between 2 and the grid length, strictly increasing;
  - each record built from cells 1, 2 and 3 of its own row;
  - an id for exactly the data rows with four or more cells, and as many
    records as such rows.
- **Writes**. The add, update and delete operations build the one request
  each sends. For add and update that is a single-row write
  `[id, title, content, due_date]` to range `A{id}:D{id}`. For delete it is
  a row deletion with zero-based half-open interval `[id - 1, id)`. Add
  picks `id = (number of listed records) + 2`.
- **Decimal rendering and A1 ranges**. Python's f-string renders the row
  number in decimal (module `Decimal`). A small A1-notation reader
  (`A1Notation.ParseRange`) lets the model state what a built range
  addresses: exactly sheet row `id`, columns A to D.
- **Edit page** (`EditRoute.EditTodo`). It finds the first record with
  the requested id, and reports "not found" when there is none. Because
  ids never repeat, that lookup amounts to reading the sheet row directly
  (`TodoRecords.LookupReadsTheRow`).

The Sheets service is not simulated:

- The service handle is a flag, `TodoManager.service`. With no service,
  every operation returns its empty or `false` result and builds no request.
- A read's reply is a parameter: `Some(values)` with the grid that came
  back, or `None` when the call raised. For the raised case the application
  catches the error and returns `[]`. A reply with no `values` key is the
  empty grid.
- A write's outcome is the parameter `executeSucceeds`. Its result is
  `false` when the call raised, as the application's catch-all gives.
- What each write operation outputs is the request it builds (`sent`).

Files: `wrappers.dfy` (Option), `decimal.dfy`, `a1_notation.dfy`,
`todo_records.dfy` (records, listing specification, lookup),
`todo_requests.dfy` (requests and their properties), `todo_manager.dfy`
(the `TodoManager` class), `edit_route.dfy`.

## Model

| member | source | states |
|---|---|---|
| `TodoRecords.DataRows` | app_production.py:79 | the rows after the header: one fewer than the grid (none for an empty grid), each the grid row one further on |
| `TodoRecords.MapRows` | app_production.py:79-86 | the records of consecutive rows numbered from `start`, in row order; it yields at most one record per row |
| `TodoRecords.Records` | app_production.py:76-87 | the listing of a read grid; every record's id is a data row number of the grid, between 2 and `len(values)` |
| `TodoRequests.NewId` | app_production.py:100 | the add id is two more than the number of listed records, so at least 2 |
| `TodoRequests.WriteRowRequest` | app_production.py:102-105 | a single-row write with option RAW of one row of four cells whose column A is the id |
| `A1Notation.RowRange` | app_production.py:105 | the range string starts with column A followed by the row's decimal text, and its first `:` stands right after that text |
| `Decimal.IntToDecimal` | app_production.py:105 | the decimal text is non-empty, holds only digits and `-`, and starts with `-` exactly for negative numbers |
| `Manager.Listing` | app_production.py:68-69 | without service, or when the read raised, the listing is empty |
| `Manager.TodoManager.constructor` | app_production.py:31-33 | a new manager has no service handle |
| `Manager.TodoManager.AttachService` | app_production.py:63 | after authentication succeeds, the service handle is present |
| `Manager.TodoManager.GetTodos` | app_production.py:66-90 | no service or a failed read gives `[]`; otherwise the loop's result equals `Records(values)`, whose meaning the lemmas below give |
| `Manager.TodoManager.AddTodo` | app_production.py:92-115 | no service: `false` and no request; otherwise the write of `[id, title, content, due_date]` with `id` = listed records + 2 (2 after a failed read), and the result is the write's outcome |
| `Manager.TodoManager.UpdateTodo` | app_production.py:117-136 | no service: `false` and no request; otherwise the same single-row write at the given id, with no existence check, and the result is the write's outcome |
| `Manager.TodoManager.DeleteTodo` | app_production.py:138-165 | no service: `false` and no request; otherwise the row deletion for the given id, and the result is the call's outcome |
| `TodoRecords.MapRowsSource` | app_production.py:79-86 | every record from consecutive rows numbered from `start` has an id inside the numbered range, comes from a row of at least four cells, holds that row's cells 1, 2 and 3, and there are at most as many records as rows |
| `TodoRecords.MapRowsIncreasing` | app_production.py:79-81 | record ids are strictly increasing in row order |
| `TodoRecords.MapRowsIds` | app_production.py:79-80 | the set of ids is exactly `start + k` for each row position `k` with at least four cells, and the number of records equals the number of such rows |
| `TodoRecords.MapRowsFull` | app_production.py:80 | every row yields a record exactly when no row has fewer than four cells |
| `TodoRecords.RecordsComeFromTheirRows` | app_production.py:76-86 | the header is never returned: a grid of at most the header yields `[]`; there are at most `len(values) - 1` records; each id is between 2 and `len(values)`, and its record holds cells 1, 2 and 3 of `values[id - 1]`, a row of at least four cells |
| `TodoRecords.RecordsIncreasing` | app_production.py:79 | ids in a listing are strictly increasing, so no two records share an id |
| `TodoRecords.RecordsCoverFullRows` | app_production.py:79-80 | `id` occurs in the listing if and only if `2 <= id <= len(values)` and `values[id - 1]` has at least four cells; the listing has one record per post-header row with at least four cells |
| `TodoRecords.FindById` | app_production.py:218 | the result is None exactly when no record has the id; otherwise it is the record at the first position holding that id |
| `TodoRecords.LookupReadsTheRow` | app_production.py:217-222 | looking an id up in a listing finds `RowToTodo(id, values[id - 1])` when that id numbers a data row of at least four cells, and nothing otherwise |
| `TodoRequests.NewIdBounds` | app_production.py:99-100 | the add id is at least 2; it is 2 on an empty sheet. With a header it is at most `len(values) + 1`, with equality if and only if every data row has four cells. Any short data row makes it the number of an existing row |
| `TodoRequests.NewIdHitsListedTodo` | app_production.py:99-105 | the row an add writes holds a listed record if and only if that row number is within the sheet and its row has at least four cells |
| `TodoRequests.AddCanOverwriteListedTodo` | app_production.py:99-105 | some sheet makes add overwrite a listed record: on a header, a short row and a full row, add picks row 3, which holds a listed todo |
| `TodoRequests.WriteRowTargetsItsId` | app_production.py:102-105 | the range of a single-row write parses as rows `id`..`id` and columns A..D; one row of four cells is written, one per column of the range, with the same `id` in column A as in the range; option RAW |
| `TodoRequests.TrimTrailingEmpty` | app_production.py:76-80 | a read returns a prefix of the row that does not end in an empty cell, and only empty cells are dropped; this is why rows can come back with fewer than four cells |
| `TodoRequests.WrittenRowReadsBack` | app_production.py:102 | read back, the written row has column A parsing as the id; it is a record row if and only if the due date is not empty, and then it maps to the record `(id, title, content, due_date)` |
| `TodoRequests.ListingAfterWrite` | app_production.py:123-126 | once sheet row `id` holds what a read returns for the written row, the listing's lookup of `id` finds the written record if the due date is not empty, and nothing if it is empty |
| `TodoRequests.DeleteRowsRequest` | app_production.py:145-152 | the deletion addresses sheet 0 with an interval one row wide, and it removes a 1-based sheet row if and only if that row is `todo_id` |
| `A1Notation.RowRangeAddresses` | app_production.py:105 | the string `A{n}:D{n}` parses back to columns A..D of row `n` to row `n`, four columns wide |
| `A1Notation.RowRangeInjective` | app_production.py:126 | distinct row numbers give distinct range strings |
| `Decimal.NatToDecimal` | app_production.py:105 | the decimal text of a natural number is non-empty, all digits, and has a leading `0` only for zero itself |
| `Decimal.IntRoundTrip` | app_production.py:105 | the decimal text of any integer (with `-` for negatives) parses back to that integer |
| `EditRoute.EditTodo` | app_production.py:214-236 | if the lookup finds nothing the result is "not found" and no update is made; on a GET it shows the found record; on a POST it gives the update's outcome and its write request for `todo_id` |
| `EditRoute.EditFindsTheRow` | app_production.py:217-222 | without a service or a successful read the edit page finds nothing; otherwise it finds exactly the record of data row `todo_id`, when that row has four cells |

## Left out

- Authentication: `authenticate` (app_production.py:35-64) loads, checks and refreshes the token and builds an authorization URL. The code exchange in `oauth2callback` (app_production.py:180-198) is left out too. All of these are calls into the Google auth libraries. Only their successful end, building the service handle, is modelled (`AttachService`). The `credentials` field is not modelled.
- File I/O: `token.json`, and writing and removing `temp_credentials.json` (app_production.py:24-28, 37-38, 55-56, 193-198).
- Environment configuration: the secret key, the spreadsheet id, the client credentials, the debug flag and the port. The spreadsheet id is not part of the modelled requests.
- Flask routing, templates, `flash` and `redirect`. Of the routes, only the edit page's lookup and branching is modelled. The other routes are left out:
  - `index` (app_production.py:170-178) first runs `authenticate`, redirects when that returns an authorization URL, and otherwise lists the todos and renders them.
  - `delete_todo` (app_production.py:238-246) calls the manager's delete, flashes the outcome and redirects; it renders nothing.
  - The add branch (app_production.py:200-210) sits inside `oauth2callback`, after the code exchange. That route is registered with Flask's default methods (app_production.py:180), which do not include POST, so a POST gets "405 Method Not Allowed" and the branch never runs. It is the only caller of `add_todo`, so no reachable route adds a todo. `Manager.TodoManager.AddTodo` models the method by itself.
- What the Sheets service does with a request: storing the written row, and shifting rows up after a delete. `ListingAfterWrite` therefore takes the read-back row as a precondition. That row is the written cells' text (a RAW number shown as its decimal text) with trailing empty cells dropped. Because of this, the model does not show the ids shifting after a delete.
- Error causes: every exception is folded into the `None` read reply or `executeSucceeds = false`. The printed error messages are not modelled.
- The deletion request's body is not claimed to be well formed. It spells the dimension key `'discension'` (app_production.py:150), and line 163 is corrupted text. `DeleteRowsRequest` models only the sheet id and the index arithmetic.
- Concurrency: the shared `todo_manager` instance (app_production.py:168), and two adds computing the same id.
- Ids in the model are unbounded integers. The routes only pass non-negative ids, from Flask's `<int:...>` converter. The manager's methods accept any integer, and so do the model's. Sheet rows are numbered from 1, so a range or deletion built for an id of 0 or less names no real row.
