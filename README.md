# LibraryPyApi core in Dafny

This project models the rules in the LibraryPyApi library backend, a FastAPI service over
PostgreSQL. The model covers four parts:

- **Loan ledger.** An issue is one loan of one book to one customer. The model covers create,
  return, update and delete of an issue, and the sweep that marks late open loans `overdue`.
  The sweep runs before `get_all_issues` and `get_active_issues`. The customer's loans and the
  reminders report are listed without it.
- **Reports.** These are the reminders report (open loans past their due date, with
  `days_overdue`) and the history of one book. Each has a CSV export with its header, its rows,
  the `Not returned` cell and the export's file name.
- **Showcase.** This is the ordered list of books on the front page. Setting it checks that
  every requested book exists. It then drops repeated ids, keeping first occurrences, and
  replaces every row, giving positions 1, 2, ... . Reading it lists the books by position.
- **Customers.** The ledger's customer table (`app/reports`) has a unique email, a partial
  update, 404s and a name search. Deleting a customer who has loans fails at commit. The separate customer registry (`app/customers`) gives ids
  `"C"` plus the count of customers, overwrites every field on edit, and answers the listing
  with the id filter intersected with the name filter.

How the model represents the system:

- Every table keyed by a serial integer is a `map` from id to record.
- A `SELECT` without `ORDER BY` lists rows in ascending id order.
- `ORDER BY` is a stable insertion sort on a lexicographic key.
- Dates are proleptic Gregorian ordinals, as Python's `date.toordinal()` gives them.
- The day the clock reads is a parameter.

Where the source changes state in place, the model does too:

- `IssueLedger.Ledger`, `LedgerCustomers.CustomerTable`, `Showcase.ShowcaseTable` and
  `Registry.CustomerRegistry` are classes whose methods update their fields.
- The loops of the source are methods with loop invariants: the scan for an open loan, the
  sweep, the showcase validation and de-duplication, and the two CSV writers.

Each method is proved against a function on values, and the properties are proved about those
functions.

Files:

- `outcomes.dfy`: `Option` and `Result`.
- `text.dfy`: `ILIKE`, decimal rendering and parsing, and zero padding.
- `calendar.dfy`: `YYYY-MM-DD` dates.
- `sequences.dfy`: table listings and filters.
- `sorting.dfy`: `ORDER BY` keys and a stable sort.
- `library.dfy`: books, ledger customers and HTTP errors.
- `issues.dfy` and `issue_ledger.dfy`: the loan ledger.
- `reports.dfy` and `reports_export.dfy`: the reports and their CSV exports.
- `showcase.dfy`: the showcase.
- `ledger_customers.dfy`: the ledger's customers.
- `customers.dfy`: the customer registry.

Where the code and the documented behaviour of the system disagree, the model follows the code.

- **Return status after the sweep.** The documented behaviour lets an `overdue` loan become only
  `returned_late`. The code decides the return status only by comparing the return date with
  `return_until` (`app/reports/services/issue_service.py:128-131`). An overdue loan returned
  with a date on or before its (possibly updated) due date therefore becomes
  `returned_on_time`, and `Issues.Allowed` admits that.
- **Status codes.** The documented behaviour calls the duplicate-loan, already-returned and
  duplicate-email refusals conflicts. The code answers each of them with 400.

## Model

| member | source | states |
|---|---|---|
| Library.StatusCodeClasses | app/reports/services/issue_service.py:27-48 | missing book, customer or issue answers 404; the duplicate loan, second return and known email answer 400; a unique-index or NOT NULL refusal at commit answers 500 |
| Library.AlreadyIssuedNamesIssue | app/reports/services/issue_service.py:45-48 | the duplicate-loan message begins with its fixed prefix and the blocking issue's id can be read back from it |
| Library.ShowcaseMissingNamesBook | app/books/services/showcase_service.py:46-49 | the showcase 404 message names the missing book id, which reads back from the text |
| Issues.StatusNameInjective | app/reports/models/issue.py:18 | the four statuses are stored as four different texts |
| Issues.ActiveIssuesComplete | app/reports/repositories/issue_repository.py:46-58 | a row is listed as active exactly when it has no return date, whatever its status |
| Issues.ActiveIssuesSound | app/reports/repositories/issue_repository.py:46-58 | every listed active loan is an open row of the table |
| Issues.FirstActiveFor | app/reports/services/issue_service.py:42-48 | the scan finds nothing exactly when no open loan has the book, and otherwise reports the id of an open loan of that book |
| Issues.FirstActiveAt | app/reports/services/issue_service.py:43-48 | the scan stops at the first open loan of the book |
| Issues.IssuesByCustomerSpec | app/reports/repositories/issue_repository.py:61-92 | exactly the customer's loans that pass the `current`/`history`/no filter, each once, latest issue date first |
| Issues.AllWithDetails | app/reports/services/issue_service.py:70-83 | one item per loan, in order; item k carries loan k's id, dates, status and notes, its book's title, its customer's name and its librarian's username |
| Issues.Swept | app/reports/repositories/issue_repository.py:106-121 | the sweep keeps every key of the table |
| Issues.CreateChecksOrder | app/reports/services/issue_service.py:26-39 | an unknown book is reported before an unknown customer |
| Issues.CreateBlockedByActive | app/reports/services/issue_service.py:42-48 | with book and customer present, creation fails exactly when the book is on an open loan, and the error names such a loan |
| Issues.CreateRecord | app/reports/services/issue_service.py:51-61 | a new loan is open, `issued`, under the new id, and copies book, customer, librarian, dates and notes |
| Issues.ReturnRules | app/reports/services/issue_service.py:114-135 | 404 for an unknown loan and 400 for a returned one; otherwise late exactly when the return date is after the due date (the due date itself is on time), the return date is set, notes change only when non-empty ones are sent, and nothing else changes |
| Issues.ReturnOnce | app/reports/services/issue_service.py:121-125 | a second return of the same loan is refused |
| Issues.UpdateRules | app/reports/services/issue_service.py:147-157 | 404 exactly for an unknown loan; 500 exactly when `return_until` is sent as null, which its NOT NULL column refuses; otherwise only the sent `return_until` and `notes` change, in any state |
| Issues.DeleteRules | app/reports/services/issue_service.py:163-172 | 404 for an unknown loan; otherwise exactly that row is removed |
| Issues.SweepMarksOverdue | app/reports/repositories/issue_repository.py:106-121 | after the sweep every open loan whose due date is before today is `overdue` |
| Issues.SweepFrame | app/reports/repositories/issue_repository.py:109-119 | returned loans and loans not yet due are untouched, and the sweep changes only statuses |
| Issues.SweepIdempotent | app/reports/repositories/issue_repository.py:106-121 | sweeping twice on one day equals sweeping once |
| Issues.StepPreservesConsistent | app/reports/services/issue_service.py:18-172 | every request keeps ids equal to keys, at most one open loan per book, and status agreeing with the return date |
| Issues.StepStatusTransitions | app/reports/services/issue_service.py:108-160 | no request moves a status backwards or clears a return date; returned loans are final |
| Issues.StepErrorsLeaveTable | app/reports/services/issue_service.py:18-172 | a refused request is refused for the documented reason and changes nothing |
| IssueLedger.SweepKeysSelected | app/reports/repositories/issue_repository.py:109-116 | the sweep selects distinct ids of open, late, not yet overdue loans |
| IssueLedger.SweepKeysComplete | app/reports/repositories/issue_repository.py:109-116 | every such loan is selected |
| IssueLedger.FindActiveLoan | app/reports/services/issue_service.py:42-48 | the loop returns what the scan specification returns |
| IssueLedger.MarkOverdue | app/reports/repositories/issue_repository.py:118-119 | the loop marks exactly the selected loans `overdue` and keeps the rest |
| IssueLedger.SweepTable | app/reports/repositories/issue_repository.py:106-121 | select then mark equals the sweep |
| IssueLedger.Ledger.CreateIssue | app/reports/services/issue_service.py:18-62 | the table after `create_issue` is the old one plus the new loan on success and unchanged on error, keeping the ledger consistent |
| IssueLedger.Ledger.ReturnBook | app/reports/services/issue_service.py:108-138 | the loan is rewritten in place as the return rules say, or the table is unchanged |
| IssueLedger.Ledger.UpdateIssue | app/reports/services/issue_service.py:141-160 | the loan is patched in place, or the table is unchanged (404, or 500 for a null `return_until`) |
| IssueLedger.Ledger.DeleteIssue | app/reports/services/issue_service.py:163-172 | 404 exactly for an unknown id; the row is removed |
| IssueLedger.Ledger.CheckOverdue | app/reports/repositories/issue_repository.py:106-121 | the table becomes the swept table |
| IssueLedger.Ledger.GetAllIssues | app/reports/services/issue_service.py:65-83 | sweeps, then lists every loan with its names |
| IssueLedger.Ledger.GetActiveIssues | app/reports/services/issue_service.py:175-193 | sweeps, then lists the open loans with their names |
| IssueLedger.Ledger.IssueById | app/reports/services/issue_service.py:86-105 | 404 exactly for an unknown id, otherwise an item carrying every column of the loan, its book's title, its customer's name and its librarian's username |
| IssueLedger.Ledger.CustomerIssues | app/reports/services/issue_service.py:196-224 | 404 exactly for an unknown customer, otherwise item k shows the k-th of the customer's loans in the listing's order, with its names |
| IssueLedger.CustomerItemsSpec | app/reports/services/issue_service.py:208-224 | the items show exactly the ids of the customer's loans, each once, latest issue date first |
| IssueLedger.ReadAfterSweepShowsOverdue | app/reports/services/issue_service.py:175-178 | the listing after the sweep shows no open late loan that is not `overdue` |
| Reports.OverdueFieldFallback | app/reports/repositories/reports_repository.py:50-61 | `title`, `customer` and `date_of_issue` select their fields, and every other text sorts by `return_until` |
| Reports.OverdueIssuesSpec | app/reports/repositories/reports_repository.py:14-70 | exactly the open loans due before the query day whose customer name and book title contain each given non-empty filter, each once, in the chosen order (descending only for `desc`) |
| Reports.OverdueRowsAreLate | app/reports/repositories/reports_repository.py:33-34 | every listed loan is open and due before the query day |
| Reports.OverdueDateOrder | app/reports/repositories/reports_repository.py:56-67 | with a date field the dates are ascending, or descending for `desc` |
| Reports.RemindersSpec | app/reports/services/reports_service.py:25-47 | one item per listed loan in the same order, `total` counts them, `days_overdue` is the days from the due date to today and at least 1 |
| Reports.RowsBlind | app/reports/repositories/reports_repository.py:27-35 | tables that differ only in statuses list the same rows up to status |
| Reports.OverdueIssuesBlind | app/reports/repositories/reports_repository.py:27-67 | the overdue report does not look at the status column |
| Reports.RemindersIgnoreStatus | app/reports/services/reports_service.py:25-47 | two tables that differ only in statuses give the same reminders |
| Reports.RemindersIgnoreSweep | app/reports/services/reports_service.py:25-27 | running the sweep before the reminders changes nothing in them, so its absence is harmless |
| Reports.BookHistorySpec | app/reports/repositories/reports_repository.py:73-119 | no history exactly for an unknown book; otherwise the book and exactly its loans, each once, sorted by the chosen key |
| Reports.CustomerHistoryIgnoresOrder | app/reports/repositories/reports_repository.py:99-114 | sorting by customer gives the same list for every `order`, names ascending |
| Reports.HistoryReturnDateOrder | app/reports/repositories/reports_repository.py:101-112 | by return date the open loans come last ascending and first descending, and dates are in order |
| Reports.HistoryDateOfIssueOrder | app/reports/repositories/reports_repository.py:103-112 | the default and unknown keys sort by issue date, latest first for `desc` |
| Reports.BookHistoryReportSpec | app/reports/services/reports_service.py:59-91 | 404 exactly for an unknown book; otherwise the book's id, title and subtitle, `total_issues` equal to the number of items, and one item per loan in order |
| ReportsExport.RemindersDefaults | app/reports/routers/reports_router.py:39-40 | the reminders default to `return_until`, ascending |
| ReportsExport.HistoryDefaults | app/reports/routers/reports_router.py:103-104 | the history defaults to `date_of_issue`, descending |
| ReportsExport.ExportReminders | app/reports/routers/reports_router.py:59-70 | the header row, then one row per item in order |
| ReportsExport.ExportHistory | app/reports/routers/reports_router.py:121-132 | the header row, then one row per history item in order |
| ReportsExport.ReminderRowReadsBack | app/reports/routers/reports_router.py:64-70 | five cells; both dates read back from `YYYY-MM-DD` and the last cell reads back as `days_overdue` |
| ReportsExport.ReturnDateCellReadsBack | app/reports/routers/reports_router.py:129 | the cell is `Not returned` exactly for an open loan, and otherwise reads back as the return date |
| ReportsExport.HistoryRowReadsBack | app/reports/routers/reports_router.py:126-132 | five cells; dates and status read back as the item's |
| ReportsExport.StatusReadsBack | app/reports/routers/reports_router.py:131 | the status cell reads back as the status |
| ReportsExport.HistoryFilenameSpec | app/reports/routers/reports_router.py:136 | `book_history_`, the title with each space turned into `_`, then `.csv`; no space remains |
| ReportsExport.HistoryFilenameRecoversTitle | app/reports/routers/reports_router.py:136 | for a title without `_` the title can be recovered from the file name |
| ReportsExport.ExportRemindersReport | app/reports/routers/reports_router.py:37-78 | one row per loan of the overdue report, in the report's order |
| ReportsExport.ExportHistoryReport | app/reports/routers/reports_router.py:100-141 | 404 for an unknown book; otherwise one row per loan of the history and the file name from the title |
| Showcase.FirstMissing | app/books/services/showcase_service.py:43-49 | nothing is missing exactly when every requested id is a book; a reported id is not a book |
| Showcase.FirstMissingAt | app/books/services/showcase_service.py:43-49 | the reported id is the first one that is not a book |
| Showcase.FindMissing | app/books/services/showcase_service.py:43-49 | the loop reports what the validation specification reports |
| Showcase.Dedup | app/books/services/showcase_service.py:52-57 | the de-duplicated list holds exactly the requested ids |
| Showcase.DedupDistinct | app/books/services/showcase_service.py:52-57 | it has no repetitions |
| Showcase.DedupOrder | app/books/services/showcase_service.py:52-57 | it keeps the order of first occurrences |
| Showcase.DedupIdentity | app/books/services/showcase_service.py:52-57 | a list without repetitions is left unchanged |
| Showcase.DedupExample | app/books/services/showcase_service.py:52-57 | `[3, 3, 7]` becomes `[3, 7]` |
| Showcase.DedupIds | app/books/services/showcase_service.py:52-57 | the loop with its `seen` set computes the de-duplicated list |
| Showcase.Written | app/books/repositories/showcase_repository.py:27-32 | the inserted rows have the consecutive new ids |
| Showcase.WrittenAt | app/books/repositories/showcase_repository.py:27-32 | the `i`-th requested book is stored at position `i + 1` |
| Showcase.WrittenPairs | app/books/repositories/showcase_repository.py:18-34 | after a write the table holds exactly one row per requested book, in its position |
| Showcase.WrittenWellformed | app/books/models/showcase.py:9-11 | writing a list without repetitions keeps ids keyed and `book_id` unique |
| Showcase.WrittenRows | app/books/repositories/showcase_repository.py:27-32 | listed by id, the written rows are already in position order |
| Showcase.ReadAfterWrite | app/books/repositories/showcase_repository.py:37-53 | reading after writing existing ids gives their books in the written order |
| Showcase.ReadAfterWriteIds | app/books/repositories/showcase_repository.py:37-53 | the ids read back are exactly the ids written, in order |
| Showcase.ShortSpec | app/books/services/showcase_service.py:23-28 | a short entry keeps id and title; authors are absent exactly for a book without authors |
| Showcase.ShortList | app/books/services/showcase_service.py:19-34 | `total` counts the entries, one per book in order |
| Showcase.ShowcaseTable.Clear | app/books/repositories/showcase_repository.py:12-15 | every row is deleted |
| Showcase.ShowcaseTable.SetBooks | app/books/repositories/showcase_repository.py:18-34 | the table becomes exactly the written rows for the ids |
| Showcase.ShowcaseTable.GetShowcase | app/books/services/showcase_service.py:15-34 | the short entries of the showcase books by position |
| Showcase.ShowcaseTable.SetShowcase | app/books/services/showcase_service.py:37-63 | 404 naming the first missing id with no write; otherwise the table holds the de-duplicated ids at positions 1, 2, ... and the answer lists their books in that order |
| LedgerCustomers.CreateRules | app/reports/services/customer_service.py:12-32 | create fails exactly for a known email; otherwise the row carries the request's fields, the new id and today's date |
| LedgerCustomers.CreateKeepsInvariant | app/reports/models/customer.py:11-18 | a successful create keeps ids keyed and emails unique |
| LedgerCustomers.GetRules | app/reports/services/customer_service.py:40-47 | 404 exactly when no row has the id; otherwise the customer with that id |
| LedgerCustomers.UpdateRules | app/reports/services/customer_service.py:55-69 | 404 exactly for an unknown id; 500 exactly when the request sends an email another customer holds, and no other error; otherwise each sent field is written, each unsent field kept, and id and registration date never change |
| LedgerCustomers.OwnEmailNeverClashes | app/reports/models/customer.py:16 | an update that does not send an email is never refused by the unique index |
| LedgerCustomers.PatchNothing | app/reports/services/customer_service.py:64-66 | an update sending nothing leaves the customer unchanged |
| LedgerCustomers.PatchIdempotent | app/reports/services/customer_service.py:64-66 | the same update twice equals it once |
| LedgerCustomers.UpdateKeepsInvariant | app/reports/models/customer.py:16 | a successful update keeps ids keyed and emails unique |
| LedgerCustomers.DeleteFreesEmail | app/reports/services/customer_service.py:72-80 | after a delete the customer's email can be registered again |
| LedgerCustomers.SearchSpec | app/reports/repositories/customer_repository.py:32-36 | search lists each customer whose name contains the query ignoring case, once |
| LedgerCustomers.SearchEmptyIsAll | app/reports/services/customer_service.py:50-52 | the empty query lists every customer |
| LedgerCustomers.CustomerTable.Create | app/reports/services/customer_service.py:12-32 | the table gains the new customer under the next id, or is unchanged for a known email |
| LedgerCustomers.CustomerTable.Get | app/reports/services/customer_service.py:40-47 | 404 exactly for an unknown id, otherwise the row |
| LedgerCustomers.CustomerTable.Update | app/reports/services/customer_service.py:55-69 | the row is patched in place, or the table is unchanged |
| LedgerCustomers.DeleteRules | app/reports/services/customer_service.py:72-80 | 404 exactly for an unknown id; 500 exactly when some loan refers to the customer, since the ORM sets its NOT NULL `customer_id` to NULL; otherwise only that row goes, the invariants hold and every loan still refers to a customer |
| LedgerCustomers.CustomerTable.Delete | app/reports/services/customer_service.py:72-80 | the table loses the row as `DeleteOutcome` says, or is unchanged with its 404 or 500 |
| LedgerCustomers.CustomerTable.SearchByName | app/reports/services/customer_service.py:50-52 | the customers whose name contains the query, each once |
| Registry.IdNumberOf | app/customers/repositories/customer_repository.py:14-17 | the number in an id `C<n>` reads back as `n` |
| Registry.IdForInjective | app/customers/repositories/customer_repository.py:14-17 | different counts give different ids |
| Registry.NumberedIdsDistinct | app/customers/repositories/customer_repository.py:14-17 | in a table built by `add_customer` no two customers share an id |
| Registry.NumberedSameId | app/customers/repositories/customer_repository.py:14-17 | in such a table a customer is determined by its id |
| Registry.NumberedIncreasing | app/customers/repositories/customer_repository.py:14-17 | the numbers of the ids increase along the table |
| Registry.FirstWithId | app/customers/repositories/customer_repository.py:61-63 | the lookup finds nothing exactly when no row has the id, and otherwise the first such row |
| Registry.EditRules | app/customers/repositories/customer_repository.py:60-75 | the edit fails exactly for an unknown id; otherwise the customer with the id is overwritten with the request, no other customer changes, and the table stays numbered |
| Registry.EditIdempotent | app/customers/repositories/customer_repository.py:65-70 | repeating an edit changes nothing more |
| Registry.NoFilterListsAll | app/customers/services/customer_service.py:16-24 | with neither filter every customer is listed, in table order |
| Registry.SelectedWithinIdList | app/customers/services/customer_service.py:31 | nothing outside the id filter's list is listed |
| Registry.SelectedSpec | app/customers/services/customer_service.py:15-31 | a customer is listed exactly when its id contains the id query and its name the name query (each ignoring case, each only when given) |
| Registry.SelectedIncreasing | app/customers/services/customer_service.py:31 | the selection keeps the table's order |
| Registry.SelectedInOrder | app/customers/services/customer_service.py:31-35 | the listed ids are in increasing order of their numbers |
| Registry.CustomerRegistry.Add | app/customers/repositories/customer_repository.py:13-28 | the new customer gets `C` and the count before the insert, carries the request's fields, is appended, and shares its id with no earlier customer |
| Registry.CustomerRegistry.Edit | app/customers/repositories/customer_repository.py:60-75 | overwrites the customer with the id and nothing else, or changes nothing when the id is unknown |
| Text.ILikeIsSubstring | app/reports/repositories/reports_repository.py:38-47 | for a query without `%` or `_`, `ILIKE '%q%'` is case-insensitive substring containment |
| Text.EmptyQueryMatchesAll | app/reports/repositories/customer_repository.py:34 | the empty query matches every text |
| Text.IntToStringRoundTrip | app/reports/routers/reports_router.py:69 | a rendered integer reads back as itself |
| Text.NatToStringInjective | app/customers/repositories/customer_repository.py:17 | different counts render as different digit strings |
| Calendar.FormatDateRoundTrip | app/reports/routers/reports_router.py:67-68 | a date rendered as `YYYY-MM-DD` has ten characters and reads back as itself |
| Calendar.FormatDateInjective | app/reports/routers/reports_router.py:128-130 | different dates render as different texts |
| Sorting.SortBySorted | app/reports/repositories/reports_repository.py:64-67 | the sort orders by the key, ascending or descending, and is a permutation |

## Left out

- Database plumbing is not modelled: sessions, `commit`/`refresh`, eager loading and transactions. Each repository is an operation on an in-memory table.
- Concurrent requests are not modelled. In particular, two simultaneous creates for one book are out of scope.
- Authentication, routers other than the CSV exports, and the HTTP wiring are left out.
- Clocks are parameters:
  - `today` for the sweep and the customer registration date.
  - `queryDay` and `today` for the two separate clock reads of the reminders report.
- `ILIKE` is `LIKE` with ASCII case folding. `%` and `_` in user queries act as wildcards, as written. The backslash escape and locale-specific case folding are not modelled.
- Row order without `ORDER BY` is ascending id for integer keys, and insertion order for the customer registry.
- Ties under `ORDER BY` keep that order. PostgreSQL does not guarantee that order.
- Text keys (titles and customer names) sort by code point, as `Sorting.TextKey` orders them. The database collation, which may order `"apple"` before `"Banana"`, is not modelled.
- Reports.OverdueIssues: a `customer_name` filter with `sort_by="customer"`, or a `book_title` filter with `sort_by="title"`, joins the same relationship twice. The model assumes the ORM emits the join once and returns the sorted list. It does not model a database refusal of the repeated table.
- NULL return dates sort last ascending and first descending, as PostgreSQL does by default.
- CSV quoting by Python's `csv.writer` is not modelled. A file is its header and its rows of cell texts.
- The reminders file name is fixed and not modelled.
- A loan whose book, customer or librarian row is missing shows the empty text in its names. Foreign keys rule such a loan out. For the ledger's customers, `LedgerCustomers.DeleteRules` shows that a delete keeps every loan's customer.
- Schema validation is left out: `EmailStr` and the pydantic type checks.
- Column length limits and an explicit `null` sent for the ledger customer's `name` or `email` are left out. The database would refuse those.
- The `cover_urls` of a showcase entry are left out. `BookCover` has no `cover_url` attribute, so that projection cannot run as written.
- The registry's model keys on `key`, not `id`. The model follows the repository, which filters on `id`.
- The registry's `zip` and `phone` are integers, as in its request schema. The text type of the model's columns is not modelled.
- Registry.CustomerRegistry.Edit: an unknown id makes the source dereference a missing row and fail with an unhandled error. The model returns `None` and changes nothing.
- Registry.CustomerRegistry.Add: the model has no delete, as the registry has none. Deleting customers outside this code would make `"C"+count` reuse an id.
- Showcase.ShowcaseTable.SetBooks: it requires the ids to be distinct. Its only caller passes the de-duplicated list, and `book_id` is unique.
- The `status` query argument that `app/reports/routers/issue_router.py:58` passes to `get_customer_issues` is left out. That service takes no such argument. The repository filter is modelled directly, in `Issues.IssuesByCustomer`.
- Dates are limited to years 1 to 9999, as Python's `date` is.
