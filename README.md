# Equipment and loan engine of the inventory service

This project models the equipment-and-loan engine of the inventory backend
(`backend/server.py`), with the database abstracted away. The engine is a
sequential state machine over four collections, plus a read-only list of
user accounts that is used only to find the admins:

- equipments;
- loans;
- equipment history;
- notifications.

Each mutating HTTP handler is a method of one class, `Inventory.Store`; the
read-only handlers are functions in module `Queries`. The store keeps the
collections as sequences and hands out fresh ids from one counter. The
handlers' exits are:

- 404 is `NotFound`.
- 400 is `BadRequest`.
- 403 is `Forbidden`.
- An uncaught exception is `ServerError`.

Every handler states:

- when it fails, and with which error;
- that nothing is written on an error path, where the code checks before it
  writes;
- the whole new state on success.

Every handler also keeps the store invariant `Valid`:

- asset tags are unique;
- equipment and loan ids are distinct and below the counter (history and
  notification ids are drawn from the same counter but are not part of the
  invariant);
- a loan is stored as Devolvido exactly when its return date is set.

What the handlers write is specified by pure functions in module `Queries`.
The lemmas beside those functions prove the properties the service relies
on. Examples:

- the loan check is exactly "every tag exists and is not Emprestado";
- status writes touch only the listed equipment;
- a loan listing rewrites exactly the overdue Pendente loans;
- import counts add up, and import keeps tags unique;
- marking a notification read is idempotent.

Module `Scenarios` calls the handlers on concrete stores and proves the
outcome of each call sequence. Each one pins down a behaviour that a user of
the service might expect to be otherwise, for example that delete would
refuse equipment on an open loan.

Files:

- `domain.dfy` (module `Domain`): the stored documents, request bodies,
  error exits and constants.
- `queries.dfy` (module `Queries`): database lookups, the read-only handlers,
  the specification functions, and their lemmas.
- `store.dfy` (module `Inventory`): the `Store` class and its handlers.
- `scenarios.dfy` (module `Scenarios`): handler calls on concrete stores, with their proved outcomes.

How the model represents the source:

- **Lookups.** `find_one`, `update_one` and `delete_one` act on the first
  matching document (`Queries.FindFirst`). `find` with a query is an
  order-preserving filter.
- **Query parameters.** A parameter that is absent or empty is the empty
  string, which matches Python's truthiness test.
- **Dates and the clock.** Dates and "now" are integers on one clock.
- **Text search.** The case-insensitive `$regex` search is an abstract
  `Matcher` parameter.
- **Message texts.** The description texts of history entries and the
  notification messages are datatypes that carry their parameters.
- **Statuses.** Equipment status stays a free string, because the code
  accepts any value. Loan status is a datatype, because only the code
  writes it.

## Model

| member | source | states |
|---|---|---|
| Queries.FindFirst | backend/server.py:216 | The document `find_one`, `update_one` and `delete_one` act on: the result is the first position satisfying the query, and there is none exactly when no document satisfies it (also used at lines 271, 295, 341, 397, 414 and 464). |
| Queries.Filter | backend/server.py:255 | `find` with a query: the result holds exactly the documents satisfying the query and is no longer than the collection (also used at lines 333 and 389). |
| Queries.FilterSize | backend/server.py:620-626 | The number of documents a filter returns is the number of positions whose document satisfies the query. |
| Queries.TagIndex | backend/server.py:216-218 | The lookup by asset tag finds a record exactly when some equipment carries the tag, and the record it finds carries that tag. |
| Queries.EquipmentIndex | backend/server.py:271-273 | The lookup by id fails exactly when no equipment has the id; otherwise the record found has it. |
| Queries.LoanIndex | backend/server.py:414-416 | The lookup of a loan by id fails exactly when no loan has the id; otherwise the loan found has it. |
| Queries.TagIndexExact | backend/server.py:216 | When tags are unique, the lookup by a record's tag finds that record, and its id is that record's id. |
| Queries.InsertLoanKeepsRegistry | backend/server.py:347-348 | Storing a loan under the next fresh id keeps loan ids distinct and fresh. It also keeps Devolvido stored exactly when a return date is set. |
| Queries.RemoveKeepsRegistry | backend/server.py:295-297 | Removing one record keeps asset tags unique and ids fresh. |
| Queries.NewEquipment | backend/server.py:220-221 | The created record carries every requested field and the fresh id, has no termo, and takes `now` as its creation and modification time. Its status is the requested one, or Disponível when none is given (default at line 77). |
| Queries.FromRow | backend/server.py:558-570 | An imported record carries every field of its row and the fresh id, has no termo, and takes `now` as its creation and modification time. |
| Queries.ApplyUpdate | backend/server.py:275-278 | Each of the seven updatable fields takes the supplied value when one is given and keeps the stored value otherwise. The id, tag, termo and creation time never change. The modification time is always set. |
| Queries.EmptyUpdateOnlyTouches | backend/server.py:275-278 | An update that supplies no field changes only the modification time. |
| Queries.UpdateIdempotent | backend/server.py:275-278 | Applying the same update twice equals applying it once. |
| Queries.StatusSet | backend/server.py:351-355 | The per-tag status write (also lines 431-434) yields one record per stored record. What each becomes is stated by `StatusSetEffect`, and that ids and tags are kept by `StatusSetKeepsRegistry`. |
| Queries.Logged | backend/server.py:357-363 | The history entries of the loan and return loops (also lines 436-442): exactly one per handled tag, in list order. What each entry holds is stated by `LoggedEntries`. |
| Queries.LoggedEntries | backend/server.py:357-363 | Entry j of those entries records tag j: it takes id first+j, names the id of an equipment carrying that tag, and carries the loop's action, description, user and time (also lines 436-442). |
| Queries.StatusSetEffect | backend/server.py:351-355 | The per-tag status write changes exactly the equipment whose tag is listed, and only its status and modification time. Every other record is unchanged. |
| Queries.StatusSetKeepsRegistry | backend/server.py:351-355 | Status writes keep every record's tag and id, so lookups by tag, tag uniqueness and id freshness are preserved. |
| Queries.FirstMissing | backend/server.py:430-442 | The return loop's stopping point: every tag before it is carried by some equipment, and the tag at it (if any) is not. |
| Queries.LoanablePassesAll | backend/server.py:340-357 | A tag list that passes the loan check has no missing tag, so the write loop handles all of it. |
| Queries.Loanable | backend/server.py:341-345 | The per-tag check: the first equipment carrying the tag exists and is not Emprestado. `LoanableIff` restates it without the lookup. |
| Queries.LoanableIff | backend/server.py:341-345 | With unique tags, a tag passes exactly when some equipment carries it in a status other than Emprestado; any other status, Manutenção included, passes. |
| Queries.LoanCheck | backend/server.py:340-345 | The check passes exactly when every listed tag exists and is not Emprestado. Otherwise the result is the error of the first failing tag: 404 if the tag is unknown, 400 if it is loaned. |
| Queries.FirstFailureShift | backend/server.py:340-345 | When the first tag passes, the first failure of the rest is the first failure of the whole list. |
| Queries.LoanCheckFailsOn | backend/server.py:340-345 | Any unknown or Emprestado tag in the list makes the check fail. A failure is always a 404 or a 400. |
| Queries.NewLoan | backend/server.py:347 | A new loan copies the requested loan date, requester, department, due date and tags, takes the fresh id and `now` as its creation time, is Pendente and has no return date (defaults at lines 98-99). |
| Queries.MatchingLoans | backend/server.py:380-389 | The listing returns exactly the stored loans whose stored status matches the filter and whose name or department matches the search. |
| Queries.Refreshed | backend/server.py:393-401 | After the rewrite, no loan is a Pendente loan past its due date. A loan is Atrasado exactly when it was Atrasado or was overdue. A loan is Devolvido afterwards exactly when it was before. Only the status can change, and only for Pendente loans. |
| Queries.RefreshAll | backend/server.py:401-403 | The list `get_loans` returns: one loan per matching loan, in the same order. Its content is stated by `ListedLoansCurrent`. |
| Queries.RefreshIn | backend/server.py:397-400 | The stored loans after the per-loan `update_one` calls: one per stored loan, with the same id and return date, and Devolvido exactly when it was Devolvido. |
| Queries.RefreshMatching | backend/server.py:389-401 | The stored loans after a listing: each matching loan is rewritten and every other loan is left as it was. |
| Queries.RefreshInKeepsRegistry | backend/server.py:393-401 | The overdue rewrite keeps loan ids fresh, and keeps Devolvido stored exactly when a return date is set. |
| Queries.RefreshInLookup | backend/server.py:397-400 | With distinct ids, the rewrite by id finds the listed loan's own record. |
| Queries.RefreshInExtend | backend/server.py:393-401 | Rewriting one more listed loan changes only that loan's record, and only to Atrasado when it is overdue. |
| Queries.RefreshAgreesWithDerivation | backend/server.py:393-401 | Just after a listing, the stored status equals the status derived from the dates, provided Devolvido is stored exactly with a return date and the clock has not gone back. |
| Queries.RefreshLater | backend/server.py:393-401 | Listing at one time and then at a later one stores the same as listing only at the later one. |
| Queries.ListedLoansCurrent | backend/server.py:374-403 | A listing returns the matching loans, in order and with their ids. None of them is a Pendente loan past its due date, and none of them becomes Pendente. |
| Queries.Notices | backend/server.py:677-683 | One notification per recipient, with consecutive fresh ids. |
| Queries.Admins | backend/server.py:677 | Exactly the accounts whose role is admin. |
| Queries.MarkRead | backend/server.py:462-468 | At most one notification changes: the first with this id that belongs to the user, and only its read flag. Without such a notification nothing changes; with one, it ends up read. |
| Queries.MarkReadIdempotent | backend/server.py:462-468 | Marking a notification read twice equals marking it once. |
| Queries.FindFirstRespects | backend/server.py:464-467 | Two collections on which the query agrees at every position give the same first match. |
| Queries.InsertNewestFirst | backend/server.py:456-459 | Inserting into a newest-first list keeps it newest first and adds exactly the new element. |
| Queries.SortNewestFirst | backend/server.py:456-459 | The sort gives a newest-first permutation of its input. |
| Queries.NotificationsOf | backend/server.py:454-460 | Returns exactly the user's own notifications, newest first, each as often as it is stored. |
| Queries.ListEquipments | backend/server.py:232-256 | Returns exactly the equipment matching every given filter, where the search is over tag, serial, brand and model. With no filter it returns the whole collection in order. |
| Queries.AllMatch | backend/server.py:255 | A query that every document satisfies returns the whole collection. |
| Queries.WithStatus | backend/server.py:620-623 | `count_documents` by equipment status: exactly the equipment in that status, and as many as there are positions holding one. |
| Queries.AvailableEquipments | backend/server.py:638-645 | Exactly the equipment in status Disponível. |
| Queries.HistoryOf | backend/server.py:331-334 | Exactly the entries recorded for the equipment id. |
| Queries.FilterAppend | backend/server.py:333 | Filtering a collection extended by one document extends the filtered result by that document when it matches. |
| Queries.HistoryOfAppend | backend/server.py:163-170 | Recording an entry appends it to its own equipment's history and leaves every other equipment's history as it was. |
| Queries.StatusCountsBounded | backend/server.py:620-623 | Equipment counted under three distinct statuses is never counted twice. |
| Queries.WithLoanStatus | backend/server.py:625-626 | `count_documents` by loan status: exactly the loans in that status, and as many as there are positions holding one. |
| Queries.LoanCountsBounded | backend/server.py:625-626 | Active and overdue loans are disjoint. |
| Queries.Stats | backend/server.py:618-635 | The total is the collection size. Each of the five other counters is the number of positions whose equipment or loan holds its status. Available, loaned and maintenance together never exceed the total, and active plus overdue never exceed the number of loans. |
| Queries.SpreadsheetNames | backend/server.py:519-520 | The file-name test `IsSpreadsheetName` accepts any name ending in `.xlsx` or `.xls` and refuses `.pdf`, `.csv` and the upper-case `.XLSX`, since the test is case-sensitive. |
| Queries.MissingColumnsOf | backend/server.py:527-534 | Exactly the required columns the spreadsheet lacks. |
| Queries.FilterNone | backend/server.py:534 | A query no element satisfies finds nothing. |
| Queries.NoMissingColumns | backend/server.py:534-539 | A spreadsheet holding every required column passes the column check. |
| Queries.AcceptedRows | backend/server.py:546-556 | The rows the import inserts are at most the input rows. Which rows they are is stated by `ImportStep`, `AcceptedRowsFresh` and `AcceptedTags`. |
| Queries.RejectedRows | backend/server.py:546-556 | The errors the import reports are at most one per input row. Which rows they are is stated by `ImportStep` and `RejectedLines`. |
| Queries.RejectedLines | backend/server.py:553-555 | Each reported error names a spreadsheet line from 2 up to the last row's line, and the tag of the row on that line. |
| Queries.RowAccepted | backend/server.py:549-556 | The duplicate rule, stated against the registry as it was before the import: a row is inserted when neither that registry nor an earlier row carries its tag. `RowAcceptedLive` ties it to the code's live check. |
| Queries.RowAcceptedLive | backend/server.py:549-556 | The live check of row i, against the registry holding the rows accepted before it, passes exactly when `RowAccepted` holds for row i. |
| Queries.ImportCountsAddUp | backend/server.py:542-583 | Every row is either inserted or reported, so successes plus errors equal the number of rows. |
| Queries.RowAcceptedPrefix | backend/server.py:546-556 | Whether a row is inserted depends only on the rows before it. |
| Queries.AcceptedRowsFresh | backend/server.py:546-571 | Inserted rows carry distinct tags that were not in the registry, and each is one of the input rows. |
| Queries.Inserted | backend/server.py:557-571 | The records the import inserts: one per accepted row, in row order. Their tags and ids are stated by `InsertedTags` and `InsertedIdsFresh`. |
| Queries.ImportLogged | backend/server.py:573-579 | The `created` entries the import writes: one per inserted record. `InsertedAppend` states each entry's ids and content. |
| Queries.InsertedAppend | backend/server.py:568-577 | One more inserted row appends one record and its `created` entry, with the next two fresh ids. |
| Queries.ImportStep | backend/server.py:546-556 | One more row extends the inserted rows by that row when it is accepted. Otherwise it extends the errors by that row's tag and spreadsheet line. |
| Queries.AcceptedTagsSound | backend/server.py:546-556 | Every tag an inserted row carries was absent from the registry and comes from the input. |
| Queries.AcceptedTagsComplete | backend/server.py:546-571 | Every input tag the registry lacked ends up carried by an inserted row, even when later rows repeat it. |
| Queries.AcceptedTags | backend/server.py:546-556 | The inserted rows carry exactly the rows' tags that the registry lacked. |
| Queries.InsertedTags | backend/server.py:546-571 | After an import, the registry carries exactly its former tags and the rows' tags. |
| Queries.InsertedIdsFresh | backend/server.py:568-571 | Imported records get ids that are fresh and distinct from every other record's. |
| Queries.ImportKeepsTagsUnique | backend/server.py:546-571 | Importing keeps asset tags unique. |
| Queries.ReportOf | backend/server.py:586-591 | The report's counts add up to the row count and the success count is the number of inserted rows. At most 10 errors are listed, and they are the first errors in row order. |
| Queries.StampAdvance | backend/server.py:351-363 | One step of the per-tag loop moves the loop state forward by one tag and keeps tags unique and ids fresh. |
| Inventory.Store.Record | backend/server.py:163-170 | `create_history_entry` appends one entry with a fresh id. |
| Inventory.Store.Notify | backend/server.py:155-161 | `create_notification` appends one unread notification with a fresh id. |
| Inventory.Store.CreateEquipment | backend/server.py:213-230 | A duplicate tag fails with 400 and nothing changes. Otherwise exactly one record and one `created` entry are appended. |
| Inventory.Store.UpdateEquipment | backend/server.py:265-288 | An unknown id gives 404 and nothing changes. Otherwise only that record is overwritten, one `updated` entry is appended, and the record is returned. |
| Inventory.Store.DeleteEquipment | backend/server.py:290-299 | A non-admin gets 403 and an unknown id gets 404, with nothing changed. Otherwise exactly that record is removed, with no open-loan check and no history entry. |
| Inventory.Store.UploadTermo | backend/server.py:301-329 | The upload succeeds exactly when the id exists and the file is a PDF. An unknown id gives 404 and a non-PDF gives 400, with nothing changed. Otherwise the termo reference and modification time are set and one `termo_uploaded` entry is appended. |
| Inventory.Store.CheckLoanable | backend/server.py:340-345 | The check loop returns exactly the loan check's outcome and writes nothing. |
| Inventory.Store.SetStatusEach | backend/server.py:351-363 | The per-tag write loop handles tags up to the first missing one. For those tags it sets the status and appends one entry per tag. |
| Inventory.Store.StampTag | backend/server.py:352-363 | One pass of the per-tag loop keeps the loop state and the store invariant. |
| Inventory.Store.InsertLoan | backend/server.py:347-348 | Stores a new Pendente loan under the next fresh id. |
| Inventory.Store.OpenLoan | backend/server.py:340-363 | Fails exactly when the check fails, with its error, and then nothing is written. Otherwise it stores the loan, marks every listed equipment Emprestado, and appends one `loaned` entry per tag. |
| Inventory.Store.CreateLoan | backend/server.py:337-372 | Same as OpenLoan, plus exactly one notification to the acting user naming the tag count. |
| Inventory.Store.NotifyEach | backend/server.py:677-683 | Appends one notification per recipient, in order. |
| Inventory.Store.CreatePublicLoanRequest | backend/server.py:647-685 | Same checks and writes as the staff path, recorded under the public requester, plus exactly one notification per admin. |
| Inventory.Store.ReturnLoan | backend/server.py:412-451 | An unknown loan gives 404 and a Devolvido loan gives 400, with nothing changed. Otherwise the loan is stored Devolvido with the date, each listed equipment is set Disponível whatever its status, and one `returned` entry is appended per tag. If a tag is no longer carried, the handler fails with 500 after the earlier writes. |
| Inventory.Store.ListLoans | backend/server.py:374-403 | Returns the matching loans refreshed. Exactly the matching overdue Pendente loans are stored as Atrasado. |
| Inventory.Store.RefreshListed | backend/server.py:394-401 | One pass of the listing loop returns the refreshed loan and rewrites only its stored record. |
| Inventory.Store.MarkNotificationRead | backend/server.py:462-468 | The notifications become `MarkRead` of the old ones; an unknown id is a silent no-op. |
| Inventory.Store.ImportEquipments | backend/server.py:513-595 | A non-spreadsheet name or a missing column gives 400 before any row is read, and nothing changes. Otherwise the accepted rows are inserted with their entries and the report is returned. |
| Inventory.Store.ImportRows | backend/server.py:542-591 | The row loop inserts exactly the accepted rows, in order, and returns their report. |
| Inventory.Store.ImportOne | backend/server.py:546-584 | One row: a tag already present, including one inserted earlier in the same file, is reported with its spreadsheet line. Otherwise the row is inserted. |
| Inventory.Store.InsertImported | backend/server.py:568-577 | Inserting one accepted row with its `created` entry extends the import state and keeps the invariant. |
| Scenarios.MaintenanceLentAndReleased | backend/server.py:340-345 | An item in Manutenção is lent, and its return leaves it Disponível. |
| Scenarios.DeleteWhileLent | backend/server.py:290-299 | A lent item can be deleted. Its loan's return then fails with 500, with the loan already stored as Devolvido. |
| Scenarios.DuplicateTagLoan | backend/server.py:340-372 | A loan listing one tag twice is accepted, writes two `loaned` entries, and counts two items in its notification. |
| Scenarios.EditedToLent | backend/server.py:265-288 | Editing an item's status to Emprestado makes it unloanable with 400 although no loan holds it. |
| Scenarios.DuplicatesReport | backend/server.py:546-556 | For the example rows, the accepted and rejected rows are exactly the expected ones. |
| Scenarios.AcceptSkipAcceptSkip | backend/server.py:546-556 | Of four rows, when the first and third are accepted, exactly those two are inserted and the others are reported at lines 3 and 5. |
| Scenarios.ImportWithDuplicates | backend/server.py:546-591 | A tag already registered and a tag repeated within the file are both reported by line (3 and 5); the other two rows are inserted. |

## Left out

- Authentication, tokens and password hashing (backend/server.py:132-210): the acting user is a parameter, and 401 exits are not modelled.
- The single-record reads `get_equipment` and `get_loan` (lines 258-263, 405-410) are not modelled. They only look up a record by id, and that lookup is modelled as `EquipmentIndex` and `LoanIndex`.
- Database I/O is not modelled. Collections are sequences and every handler is one atomic step. The `to_list(100/1000)` result caps are ignored.
- Concurrency is not modelled. The check-then-set of the loan handlers spans separate awaits, so two concurrent requests can both pass the check.
- Spreadsheet parsing and writing through pandas is not modelled: rows arrive parsed, and the header is a set of column names. The export and template endpoints (lines 470-511, 597-615) are out of scope.
- Per-row exceptions caught inside the import loop (lines 583-585) are not modelled. They come from value conversion and database failures.
- `Inventory.Store.ImportEquipments`: a missing column is reported as `MissingColumns`. The code raises this 400 inside its `try`, so the outer handler re-raises it as a 400 with the "Erro ao processar arquivo" prefix; only the detail text differs.
- The termo file contents and base64 encoding are not modelled. The termo is an opaque reference.
- Regular-expression semantics are not modelled. Search is a `Matcher` parameter.
- The clock, uuids and ISO date parsing are replaced by an integer `now`, integer dates and a fresh-id counter. The error and message texts are datatypes carrying their parameters.
- `Queries.HistoryOf`: entries come back in stored (insertion) order. The query at line 333 has no sort, so MongoDB does not guarantee this order; the same holds for the other unsorted `find` listings.
- `Queries.SortNewestFirst`: the order among notifications created at the same instant is not stated, because the database does not fix it.
- The frontend is out of scope.

Behaviour that one might expect to be otherwise; the model follows the code:

- delete does not refuse equipment on an open loan (`Scenarios.DeleteWhileLent`);
- a return sets every listed equipment to Disponível whatever its status (`Scenarios.MaintenanceLentAndReleased`);
- only Emprestado blocks a loan;
- a tag may be listed twice (`Scenarios.DuplicateTagLoan`);
- an update may set any status, including Emprestado (`Scenarios.EditedToLent`), and only the supplied fields change;
- loan status is stored and rewritten by the listing, not derived on every read (`Queries.RefreshAgreesWithDerivation` states when the two agree);
- the dashboard counts stored loan statuses;
- the equipment search also matches the serial number;
- import checks only tag duplicates and the required columns, and accepts any value in the enum-like fields;
- the domain error exits are 404, 400 and 403: a duplicate tag is a 400, not a 409 conflict.
