# HRMS core in Dafny

A model of the service layer of a small human-resources API, HRMS. The API is a FastAPI application over MongoDB. Three parts are modelled:

- The input checks and the identifier generator in `app/utils/validators.py`.
- The employee service in `app/services/employee_service.py`: create, list, look up, delete with cascade, and count.
- The attendance service in `app/services/attendance_service.py`: mark (an upsert keyed by employee and date), the joined report, one employee's history, and two counts.

The database becomes a `Database` object with two collections, `employees` and `attendance`. Each collection is a sequence of documents in collection order. Its invariant, `Database.Valid`, states the three unique indexes that `connect_db` creates (`app/database.py:30-32`). It also states that every stored document is one the services could have written.

The operations that change the store (create, delete, mark) are methods with `modifies db`. Mark and delete state their new collections through specification functions (`Upsert`, `WithoutEmployee`, `WithoutRecordsOf`), and lemmas state what those functions guarantee. Create states its new collection directly: the old one with the new employee appended. The read-only queries are functions of the collections' contents. The report is the exception: it is a method with a loop, as in the source.

Errors are `Failure(HttpError(status, detail))` values with the source's status codes and detail strings. A duplicate-key rejection by an index surfaces as the application's generic 500 "Internal server error" (`app/main.py:65-71`).

Modules and files:

| file | module | contents |
|---|---|---|
| `results.dfy` | `Results` | `Option`, `Result`, `HttpError`, status codes |
| `order.dfy` | `Order` | MongoDB's string order (lexicographic by code point), an insertion sort with its sortedness and permutation lemmas |
| `decimal.dfy` | `Decimal` | `\d`, Python's `str(n)` and `zfill`, the value of a digit string |
| `validators.dfy` | `Validators` | the four checks and the identifier generator |
| `store.dfy` | `Store` | documents, `find_one` lookups, the index invariants, `Database` |
| `attendance_service.dfy` | `AttendanceService` | mark, report, history, counts |
| `employee_service.dfy` | `EmployeeService` | create, list, lookup, delete, count |
| `scenario.dfy` | `Scenario` | hire, mark twice, read back, delete |

## Model

| member | source | states |
|---|---|---|
| Validators.ValidEmail | app/utils/validators.py:5-8 | an accepted address has at least six characters and ends in a letter |
| Validators.ValidEmailIffPattern | app/utils/validators.py:5-8 | an address is accepted exactly when it can be cut into a non-empty `[a-zA-Z0-9._%+-]` run, '@', a `[a-zA-Z0-9.-]` run, '.', and two or more letters ending the string (both directions) |
| Validators.EmailSplitDecided | app/utils/validators.py:5-8 | every cut of an address that the pattern describes is accepted |
| Validators.ValidEmailHasOneAt | app/utils/validators.py:7 | an accepted address holds exactly one '@' |
| Validators.ValidDate | app/utils/validators.py:11-17 | on a `\d{4}-\d{2}-\d{2}` string, the check passes exactly when its year, month and day form a real date: year 1 to 9999, month 1 to 12, day within the month, leap years included |
| Validators.ValidDateIffIsoDate | app/utils/validators.py:11-17 | a `\d{4}-\d{2}-\d{2}` string passes the `strptime` check exactly when it is the ISO form of a real calendar date (year 1 to 9999, month 1 to 12, day within the month, leap years included) |
| Validators.IsoFormatFields | app/utils/validators.py:11-17 | the ISO form of a real date has the schema's shape and reads back as the same year, month and day |
| Validators.DateOrderIsChronological | app/services/attendance_service.py:117-119 | on shaped dates, the string order MongoDB sorts by is calendar order (both directions) |
| Validators.ValidStatus | app/utils/validators.py:20-23 | the accepted strings are exactly the names of the four statuses |
| Validators.ParseStatus | app/utils/validators.py:20-23 | a status is recognised exactly when it is one of "Present", "Absent", "Half Day", "Leave", and the recognised value names the input |
| Validators.StatusNameRoundTrip | app/utils/validators.py:20-23 | each of the four statuses is accepted and parses back to itself |
| Validators.ValidEmployeeIdFormat | app/utils/validators.py:26-29 | an accepted identifier has at least six characters; one whose digits are padded to three places and no further, and denote n >= 1, is exactly the identifier the generator gives for count n - 1 |
| Validators.GenerateEmployeeId | app/utils/validators.py:32-34 | the identifier is "EMP" and digits that denote count + 1, zero-padded to three places and no further |
| Validators.GeneratedIdFormat | app/utils/validators.py:26-34 | a generated identifier matches `^EMP\d{3,}$` and its digits denote count + 1 |
| Validators.GeneratedIdInjective | app/utils/validators.py:32-34 | different counts give different identifiers |
| Validators.GeneratedIdExamples | app/utils/validators.py:32-34 | counts 0, 9 and 999 give EMP001, EMP010 and EMP1000 |
| Decimal.ToDecimal | app/utils/validators.py:34 | `str(n)` is a non-empty run of digits with no leading zero |
| Decimal.ZFill | app/utils/validators.py:34 | `zfill` gives the larger of the width and the input's length, every added character is '0', and digits stay digits |
| Decimal.ZFillKeepsInput | app/utils/validators.py:34 | `zfill` keeps its input as the suffix of the result |
| Decimal.ToDecimalValue | app/utils/validators.py:34 | `str(n)` reads back as `n` |
| Decimal.ZFillValue | app/utils/validators.py:34 | `zfill` keeps the number a digit string denotes |
| Decimal.ValueInjective | app/utils/validators.py:34 | two digit strings of one length that denote the same number are equal |
| Decimal.LexLessIsNumericLess | app/services/attendance_service.py:85 | on digit strings of one length, string order is numeric order (both directions) |
| Order.LexLessTransitive | app/services/attendance_service.py:85 | the string order is transitive |
| Order.LexLessTotal | app/services/attendance_service.py:85 | any two different strings are ordered one way or the other |
| Order.LexLessAsymmetric | app/services/attendance_service.py:85 | the string order is asymmetric |
| Order.SortBy | app/services/attendance_service.py:85 | sorting keeps exactly the same documents (a permutation) |
| Order.SortBySorted | app/services/attendance_service.py:85 | for a total, transitive order, every pair of sorted documents is in order |
| Store.FindEmployee | app/services/employee_service.py:75 | the lookup returns the first employee with the identifier, and nothing exactly when no employee has it |
| Store.EmailInUse | app/services/employee_service.py:24-25 | under the email index, the email lookup finds a document exactly when inserting another employee with that email would break the index |
| Store.FindRecord | app/services/attendance_service.py:42-45 | the lookup returns the first record with the employee and date, and nothing exactly when none has both |
| Store.Database.constructor | app/database.py:30-32 | a new database is empty and satisfies the three unique indexes |
| AttendanceService.MarkAttendance | app/services/attendance_service.py:15-68 | checks run in order (date 400, status 400, unknown employee 404), and a failure leaves the store unchanged; on success the collection becomes the upsert of the record, where a new record is stamped with the first clock reading and the response carries the second; the indexes and the employees are kept |
| AttendanceService.Upsert | app/services/attendance_service.py:41-61 | a mark adds at most one record; afterwards a record with the marked employee and date carries the new status, and every record under another key is kept |
| AttendanceService.UpsertLeavesOneRecord | app/services/attendance_service.py:41-61 | after a mark, the (employee, date) index still holds, and exactly one record has the key, with the new status |
| AttendanceService.UpsertUpdatesInPlace | app/services/attendance_service.py:47-52 | re-marking a key changes only that record's status: it keeps its place and its stored creation time, and every other record stays put |
| AttendanceService.UpsertAppends | app/services/attendance_service.py:53-61 | marking a new key appends one record stamped with the marking time and keeps the others |
| AttendanceService.UpsertFrame | app/services/attendance_service.py:41-61 | records under any other key occur as often after a mark as before |
| AttendanceService.UpsertLastWins | app/services/attendance_service.py:41-61 | marking a key twice equals marking it once with the second status and the first time |
| AttendanceService.UpsertIdempotent | app/services/attendance_service.py:41-61 | repeating a mark with the same status changes nothing |
| AttendanceService.EmployeeName | app/services/attendance_service.py:76-96 | the joined name is "Unknown" when no employee has the record's identifier, and otherwise the full name of an employee that has it |
| AttendanceService.EmployeeNameJoin | app/services/attendance_service.py:76-96 | with unique identifiers, a row's name is that of the one employee with its identifier, or "Unknown" when there is none |
| AttendanceService.ReportOrderIsTotalPreorder | app/services/attendance_service.py:85 | the (date descending, creation time descending) order is total and transitive |
| AttendanceService.GetAllAttendance | app/services/attendance_service.py:70-102 | one row per record; each row keeps its record's identifier, date, status and creation time, and the rows' records are exactly the collection (a permutation); every name is the join; and rows are ordered by date and then creation time, newest first |
| AttendanceService.ReportNewestFirst | app/services/attendance_service.py:85 | in the report, no row's date is earlier in the calendar than a later row's |
| AttendanceService.RecordsOf | app/services/attendance_service.py:117-119 | the filter keeps every record of the employee, as often as it occurs, and no other |
| AttendanceService.DateOrderIsTotalPreorder | app/services/attendance_service.py:119 | date-descending order is total and transitive |
| AttendanceService.GetAttendanceByEmployee | app/services/attendance_service.py:104-129 | 404 exactly when no employee has the identifier; otherwise exactly that employee's records, latest date first |
| AttendanceService.GetPresentCountToday | app/services/attendance_service.py:131-139 | the count never exceeds the number of records |
| AttendanceService.PresentCountIsEmployeesPresent | app/services/attendance_service.py:131-139 | with the (employee, date) index, the count equals the number of distinct employees marked "Present" that day |
| AttendanceService.GetTotalAttendance | app/services/attendance_service.py:141-145 | with the (employee, date) index, the total equals the number of distinct (employee, date) pairs |
| EmployeeService.CreateEmployee | app/services/employee_service.py:11-52 | a malformed email gives 400, then a taken one 409, and both leave the store unchanged; otherwise the identifier comes from the count; if it is taken, the index rejects the insert and the result is a 500 with no change; else exactly one employee is appended, stamped with the creation time, and returned; indexes and record references are kept |
| EmployeeService.AppendKeepsConsistent | app/services/employee_service.py:31-44 | appending a well-formed employee whose identifier and email are free keeps the indexes, and every record still resolves to an employee |
| EmployeeService.SequentialIdsGiveFreshId | app/services/employee_service.py:31-33 | while the identifiers on file are EMP001 up to the count, the generated identifier is free |
| EmployeeService.AppendKeepsSequentialIds | app/services/employee_service.py:31-44 | creating an employee keeps the identifiers within EMP001 up to the count |
| EmployeeService.DeleteThenCreateCollides | app/services/employee_service.py:31-33 | after EMP001 of [EMP001, EMP002] is deleted, the next generated identifier is EMP002, which is already taken |
| EmployeeService.MaxIdNumber | app/utils/validators.py:32-34 | the result is the largest number carried by an identifier on file |
| EmployeeService.NextEmployeeIdIsFresh | app/utils/validators.py:32-34 | one past the largest number on file is a well-formed identifier that no employee holds |
| EmployeeService.NextEmployeeIdAfterDelete | app/utils/validators.py:32-34 | on the collision state above, the corrected generator gives EMP003 |
| EmployeeService.GetAllEmployees | app/services/employee_service.py:54-69 | every employee exactly once (a permutation), newest first |
| EmployeeService.GetEmployeeById | app/services/employee_service.py:71-89 | 404 exactly when no employee has the identifier; otherwise an employee with it, and with unique identifiers the only one |
| EmployeeService.OnlyMatch | app/database.py:30 | under the identifier index, a found employee is the only one with its identifier |
| EmployeeService.GetTotalEmployees | app/services/employee_service.py:112-116 | with the identifier index, the total equals the number of distinct identifiers |
| EmployeeService.WithoutEmployee | app/services/employee_service.py:105 | `delete_one` removes at most one employee, adds none, and keeps every employee with another identifier |
| EmployeeService.WithoutRecordsOf | app/services/employee_service.py:107-108 | the cascade removes every record of the employee and keeps every other record as often as it occurs |
| EmployeeService.WithoutEmployeeRemovesOne | app/services/employee_service.py:104-105 | deleting an existing employee leaves one fewer, none with the identifier, and every other employee; both employee indexes still hold |
| EmployeeService.WithoutRecordsKeepsUniqueKeys | app/services/employee_service.py:107-108 | the cascade keeps the (employee, date) index |
| EmployeeService.RemoveKeepsConsistent | app/services/employee_service.py:91-110 | deleting an employee with its records keeps the store consistent, and every remaining record still resolves |
| EmployeeService.DeleteEmployee | app/services/employee_service.py:91-110 | an unknown identifier gives 404 with no change; otherwise the employee and all its records are removed, the confirmation is returned, and indexes and references are kept |
| EmployeeService.DeleteLeavesNoAttendance | app/services/employee_service.py:91-110 | after a delete, that employee's history is a 404 and no record names it |
| Scenario.Hire | app/services/employee_service.py:31-52 | on an empty database the first employee created gets EMP001 |
| Scenario.MarkFirst | app/services/attendance_service.py:53-68 | the first mark of a day adds one record stamped with the first clock reading, and the response carries the second |
| Scenario.MarkAgain | app/services/attendance_service.py:47-68 | a second mark of that day replaces the status and keeps the first time, while the response carries the new time |
| Scenario.HireMarkDelete | app/services/attendance_service.py:104-129 | hiring, marking a day twice and reading the history gives one record with the second status; after the delete, the history is a 404 |

## Left out

- The HTTP layer is left out: routes, request parsing, `main.py`, and the database connection and its configuration. Each service call becomes a call with the collections, or with the `Database` object.
- Concurrency is left out. The services are `async`, so two marks of one key could race between `find_one` and `insert_one`; the model runs each operation alone.
- The clock is a parameter. Each `datetime.utcnow()` becomes a natural supplied by the caller. `MarkAttendance` takes two, `now` for the stored record (`app/services/attendance_service.py:59`) and `responseTime` for the response (`:67`), because the source reads the clock twice. Calendar timestamps are naturals, ordered as MongoDB orders dates.
- AttendanceService.MarkAttendance: requires its date to have the `\d{4}-\d{2}-\d{2}` shape, because the request schema (`app/schemas/attendance_schema.py:8`) rejects other strings before the service runs. `strptime`'s leniency on other shapes (one-digit months, for example) is not modelled.
- EmployeeService.CreateEmployee: requires a name of 1 to 100 characters and a department of 1 to 50, as the request schema enforces (`app/schemas/employee_schema.py:8-10`). The schema's own `EmailStr` check is not modelled; the service's email check is.
- `\d` is modelled as the ASCII digits, where Python's `re` also accepts other Unicode decimal digits. `$` is modelled as end of string, where Python's `$` also matches before one final newline.
- Strings are sequences of characters with no Unicode normalisation. MongoDB's binary string comparison is modelled as code-point order, with which UTF-8 byte order agrees.
- The order of documents with equal sort keys is left unspecified. MongoDB does not promise one, so the lemmas state only the sort order and the permutation.
- The report's `$unwind` of several matching employees is left out, because the identifier index excludes it. A record with no employee gets "Unknown", as in the source.
- EmployeeService.CreateEmployee: keeps the count-based generator as written, including its 500 after a deletion (see Findings). The corrected generator is modelled and proved fresh, but the operation does not use it.
- `validate_employee_id_format` (`app/utils/validators.py:26-29`) is not called by the services. It appears as the predicate `ValidEmployeeIdFormat`, which the store invariant and `GeneratedIdFormat` use.
- Response schemas (`EmployeeResponse`, `AttendanceResponse`) are represented by the stored document types. The report rows are `ReportRow`.

## Findings

The count-based generator promises a unique identifier ("Generate unique employee ID based on count"), but after a deletion it can reuse a live one. When the identifiers on file are EMP001 to EMPn, deleting any of them except EMPn leaves the next generated identifier, EMPn, in use. The index then rejects the insert, and because a failed create does not change the count, every create with a well-formed, unused email fails with a 500 until a further deletion changes the count.

| source | as written | input that shows it | evidently intended | confidence | as-written member | corrected member |
|---|---|---|---|---|---|---|
| app/services/employee_service.py:31-33 | the identifier is `EMP` + `str(count + 1).zfill(3)` | employees [EMP001, EMP002], delete EMP001, then create: the count is 1, so EMP002 is generated again and the insert is rejected | a fresh identifier, for example one past the largest number on file | high (proved; not executed) | EmployeeService.DeleteThenCreateCollides | EmployeeService.NextEmployeeIdIsFresh |
