# TimeSh timesheet service: a Dafny model

TimeSh records when employees check in and check out of their positions. It
keeps employees, departments, positions, assignments (employee ↔ position
with a rate) and timesheets in a relational store. Administrators manage
this data and read a monthly report. The export endpoint produces a worklog
document for every employee.

This project models the logic of the service and proves its properties:

- **Attendance recorder** (`TimesheetService`, `TimesheetRoutes`).
  - Check-in upserts the record of an (employee, position, date) key and clears its check-out.
  - Check-out updates that record, or fails with the not-found message.
  - The by-date and by-month reads are filter-and-sort specifications.
  - The routes check required fields and the `YYYY-MM` guard, and map errors to status codes.
- **Administration** (`AdminService`, `AdminRoutes`).
  - Listing employees with their positions, departments and positions.
  - Inserts with the unique constraints of the store.
  - The monthly report: a half-open month range, inner-join existence, ordering by (department, name, date) and a seven-column projection.
  - The bearer guard, the required-field predicates, the `duplicate key value` → 409 mapping and the four deletes with their 404 rule.
- **Worklog export** (`WorklogExport`, `ExportAuth`).
  - The handler's three loops: group attendance by (employee, position), file assignments per employee, emit one block per employee.
  - They are proved equal to folds, and the folds to an independent reference document.
  - Properties proved: grouping, order, counts and the `"unknown"` GUID fallback.
  - The Basic-auth guard is modelled with its credential split.
- **Client date formatter** (`ClientFormat`): `formatDate` with zero padding.

Supporting modules:

- `Wrappers`: `Option`, `Result`.
- `Text`: code-point string order, prefix and substring tests, JavaScript `split`/`join`, decimal rendering, `padStart`.
- `Calendar`: dates, the month range, the `^\d{4}-\d{2}$` guard, the store's reading of `${month}-01`.
- `Query`: `WHERE` as a filter, `DELETE … RETURNING` as a partition, `ORDER BY` as an insertion sort proved sorted and a permutation; the order of tied rows is left unspecified, as in SQL.
- `Schema`: rows, the store as a `Database` class, its unique constraints, lookups by business key.
- `Request`: JSON field values with JavaScript truthiness, replies, guard outcomes.

How the code is modelled:

- State-changing services are methods with `modifies db` on the `Database` object. Each is proved against a function that gives the new tables, and the properties are lemmas about those functions.
- The export's loops are methods with loop invariants.
- The route handlers are functions from request fields and the service's outcome to a status and a body.

Where the service's written description and its code differ, the model follows the code:

- The by-date timesheet read answers 400 for an empty parameter, which the description does not list.
- A month such as `2025-13` passes the route guard and then fails in the store with 500, not 400.
- An employee's posts keep the order in which `posts[pos_id]` keys were first set. A JavaScript engine lists integer-like keys first; see Left out.

## Model

| member | source | states |
|---|---|---|
| Query.Sort | backend/src/services/adminService.js:25 | `ORDER BY`: the result is a permutation of the rows (same multiset) and sorted by the comparator, for any total preorder |
| Query.Partition | backend/src/routes/admin.js:152-153 | a `DELETE … RETURNING` pass: the kept rows are exactly the rows failing the condition, and the returned rows are exactly those meeting it, both in table order |
| Query.Filter | backend/src/services/timesheetService.js:66 | `WHERE`: a row is in the result exactly when it is in the input and meets the condition |
| Query.FilterCount | backend/src/services/timesheetService.js:66 | `WHERE` keeps each row that meets the condition as many times as the input holds it, and no other row |
| Query.FilterDistinctBy | backend/src/routes/admin.js:152-153 | removing rows from a table keeps a unique key unique |
| Text.SplitJoin | backend/src/routes/export.js:15 | `split(sep)` of a join of separator-free pieces gives the pieces back |
| Text.JoinSplit | backend/src/routes/export.js:15 | joining the pieces of `split(sep)` with `sep` gives the original string |
| Text.PaddedValue | public/scripts/admin.js:4-5 | `padStart(w, '0')` of `String(n)` with `n < 10^w` is exactly `w` digits that read back as `n` |
| Calendar.InMonthIff | backend/src/services/timesheetService.js:85 | the half-open range `[${month}-01, +1 month)` holds exactly the dates of that calendar month |
| Calendar.ParseMonth | backend/src/services/timesheetService.js:88 | the store's reading of `${month}-01` yields only months 1..12 of years 1..9999 |
| Calendar.MonthTextRoundTrip | backend/src/routes/admin.js:242 | every real month written `YYYY-MM` passes the guard and is read back as itself |
| Calendar.Month13PassesGuard | backend/src/routes/admin.js:242-243 | "2025-13" matches `^\d{4}-\d{2}$`, yet the store cannot read it |
| ClientFormat.FormatDate | public/scripts/admin.js:2 | the result is empty exactly when the input is falsy |
| ClientFormat.FormatDateDecodes | public/scripts/admin.js:3-7 | the output is two digits of the day, '-', two digits of the 1-based month, '-', then the year, and each part decodes back to its value |
| ClientFormat.JanuaryIsOne | public/scripts/admin.js:5 | `getMonth()` = 0 renders as month "01" |
| Schema.FindByUsername | backend/src/routes/export.js:21-23 | `rows[0]` of the username query: an employee with that username, or none when no employee has it |
| TimesheetService.FindRecord | backend/src/services/timesheetService.js:14-15 | the lookup by (emp_id, pos_id, date_work) finds a record with that key, or none when no record has it |
| TimesheetService.LookupAfterReplace | backend/src/services/timesheetService.js:22 | updating the record of a key keeps the keys unique and changes that key's record only |
| TimesheetService.LookupAfterAppend | backend/src/services/timesheetService.js:26 | inserting a record with a new key keeps the keys unique and adds that key's record only |
| TimesheetService.CheckInEffect | backend/src/services/timesheetService.js:12-32 | after check-in the key has exactly one record, checked in at the time with a NULL check-out. It inserts (with the next serial id) only when no record existed and keeps the id of an existing one. No other key and no other table changes |
| TimesheetService.RepeatedCheckIn | backend/src/services/timesheetService.js:14-27 | a second check-in on the same key adds no record; it leaves the second time and no check-out on the first one's record |
| TimesheetService.CheckOutEffect | backend/src/services/timesheetService.js:42-52 | check-out fails exactly when the key has no record, with 'Timesheet record not found for check-out update', and creates nothing. Otherwise it sets check_out, keeps check_in and the id, and changes nothing else |
| TimesheetService.CreateCheckIn | backend/src/services/timesheetService.js:12-32 | the method's new store is the check-in function of the old one, keeps the constraints, and returns the stored record |
| TimesheetService.UpdateCheckOut | backend/src/services/timesheetService.js:42-52 | the method fails with the not-found message and leaves the store unchanged exactly when the check-out function fails; otherwise its new store is that function's and it returns the stored record |
| TimesheetService.WithTitles | backend/src/services/timesheetService.js:84 | `JOIN positions`: a row is a record with the title of its position, and records without a position drop out |
| TimesheetService.WithTitlesCount | backend/src/services/timesheetService.js:84 | the join yields each record that has a position as many times as the input holds it, with that position's title |
| TimesheetService.ByEmpAndDate | backend/src/services/timesheetService.js:61-71 | exactly the employee's records of that date that have a position, each with its title and as many times as the table holds it, ordered by pos_id |
| TimesheetService.ByEmpAndMonth | backend/src/services/timesheetService.js:80-90 | exactly the employee's records with `${month}-01` ≤ date_work < the next month's first day that have a position, each as many times as the table holds it, ordered by date_work then pos_id |
| TimesheetService.ByDateThenPosIdIsTotalPreorder | backend/src/services/timesheetService.js:86 | `ORDER BY t.date_work, t.pos_id` is a total preorder |
| TimesheetRoutes.CheckInReply | backend/src/routes/timesheet.js:5-19 | 400 exactly when emp_id, pos_id, date_work or check_in_time is falsy; 201 with the service's record exactly when all are present and the service succeeds; 500 otherwise |
| TimesheetRoutes.CheckOutReply | backend/src/routes/timesheet.js:21-38 | 400 exactly when a field is falsy; 200 with the record on success; 404 with the message exactly when the error message is the not-found message; 500 for any other error |
| TimesheetRoutes.CheckInAnswersStoredRecord | backend/src/routes/timesheet.js:12-14 | a complete check-in answers 201 with the record the store then holds under the key, checked in and not checked out |
| TimesheetRoutes.CheckOutOfMissingRecordIs404 | backend/src/routes/timesheet.js:28-35 | a complete check-out on a key with no record answers 404 with the not-found message |
| TimesheetRoutes.ByDateReply | backend/src/routes/timesheet.js:40-54 | 400 exactly when a parameter is empty; 500 exactly when the store cannot read the date; 200 exactly otherwise, with the service's records of that employee and date, ordered by pos_id |
| TimesheetRoutes.ByMonthReply | backend/src/routes/timesheet.js:56-74 | 400 exactly when a parameter is empty or the month fails `^\d{4}-\d{2}$` (before any query); 500 exactly when the store cannot read the month; 200 exactly otherwise, with the service's records of that employee and month |
| TimesheetRoutes.Month13IsServerError | backend/src/routes/timesheet.js:63-72 | "2025-13" gets past the guard and the route answers 500 |
| AdminRoutes.AdminGuard | backend/src/routes/admin.js:7-23 | admits exactly when the header starts with "Bearer ", the token verifies and its role is 'admin'; 403 exactly when it verifies with another role; 401 otherwise |
| AdminRoutes.InsertReply | backend/src/routes/admin.js:56-63 | 400 exactly when a required field is missing; 201 with the inserted row on success; 409 exactly when the error message contains 'duplicate key value'; 500 for any other error |
| AdminRoutes.AssignPositionReply | backend/src/routes/admin.js:131-143 | 400 when emp_id or pos_id is falsy or assigned_rate is undefined; 201 on success; every error is 500 (no conflict case) |
| AdminRoutes.ZeroRateAccepted | backend/src/routes/admin.js:113 | total_rate and assigned_rate are checked against undefined only, so a rate of 0 passes although it is falsy |
| AdminRoutes.DuplicateKeyValueIsConflict | backend/src/routes/admin.js:59 | every unique-violation message of the store contains 'duplicate key value' |
| AdminRoutes.TakenKeyAnswers409 | backend/src/routes/admin.js:56-63 | adding an employee, department or position whose unique key is taken answers 409 |
| AdminRoutes.DeleteEmployee | backend/src/routes/admin.js:146-162 | 400 exactly for an empty emp_id, with the store unchanged. Otherwise the employees table loses exactly the rows with that emp_id; 404 exactly when there were none and 200 exactly when there were some, echoing the deleted emp_id; the constraints still hold |
| AdminRoutes.DeleteDepartment | backend/src/routes/admin.js:165-181 | the same rule for departments by guid |
| AdminRoutes.DeletePosition | backend/src/routes/admin.js:184-200 | the same rule for positions by pos_id |
| AdminRoutes.ReadId | backend/src/routes/admin.js:209 | the integer cast of `:id` succeeds exactly for a non-empty digit string of value at most 2147483647, and gives that value |
| AdminRoutes.DeleteAssignment | backend/src/routes/admin.js:203-219 | 400 exactly for an empty id; 500 exactly when a non-empty id cannot be cast, with the store unchanged; otherwise the rows with that id are removed, with 404 exactly when there were none and 200 exactly when there were some, echoing the id; the constraints still hold |
| AdminRoutes.MonthlyReportReply | backend/src/routes/admin.js:240-252 | 400 exactly when the month is missing or fails the guard; 500 exactly when the store cannot read it; 200 exactly otherwise, with the service's report of that month |
| AdminRoutes.MonthlyReport13IsServerError | backend/src/routes/admin.js:242-246 | "2025-13" passes the report's guard and the route answers 500 |
| AdminService.PositionsOf | backend/src/services/adminService.js:12-23 | an employee's aggregated positions are exactly the (pos_id, title, rate) of the employee's assignments whose position exists |
| AdminService.PositionsOfCount | backend/src/services/adminService.js:12-23 | each aggregated element occurs once per assignment row of the employee that joins a position and yields it, so two identical assignments give two elements |
| AdminService.AllEmployees | backend/src/services/adminService.js:5-29 | one row per employee, a permutation of the employees' listings, ordered by full_name |
| AdminService.EveryEmployeeListed | backend/src/services/adminService.js:12-20 | every employee is listed, and an employee without assignments has positions = [] |
| AdminService.AllDepartments | backend/src/services/adminService.js:43-47 | every department once (a permutation), ordered by name |
| AdminService.AllPositions | backend/src/services/adminService.js:49-53 | every position once (a permutation), ordered by title |
| AdminService.InsertEmployeeEffect | backend/src/services/adminService.js:31-41 | the insert fails with a duplicate-key error exactly when the emp_id or the username is taken. Otherwise it appends the employee, with role 'employee' when none is supplied, and keeps the constraints |
| AdminService.InsertDepartmentEffect | backend/src/services/adminService.js:55-60 | a department insert fails with a duplicate-key error exactly when its guid is taken; otherwise it appends the row, keeps the constraints and changes no other table |
| AdminService.InsertPositionEffect | backend/src/services/adminService.js:62-67 | a position insert fails with a duplicate-key error exactly when its pos_id is taken; otherwise it appends the row, keeps the constraints and changes no other table |
| AdminService.InsertAssignmentEffect | backend/src/services/adminService.js:69-74 | an assignment insert always adds a row with a fresh id after the old rows, advances the serial value and changes no other table; nothing deduplicates (employee, position) |
| AdminService.AddEmployee | backend/src/services/adminService.js:31-41 | the method's store and result are those of the insert function |
| AdminService.AddDepartment | backend/src/services/adminService.js:55-60 | the method's store and result are those of the insert function |
| AdminService.AddPosition | backend/src/services/adminService.js:62-67 | the method's store and result are those of the insert function |
| AdminService.AssignPosition | backend/src/services/adminService.js:69-74 | the method appends the assignment with the next serial id and returns it |
| AdminService.AssignmentCount | backend/src/services/adminService.js:88 | the number of joined assignment rows is the number of assignment rows linking the employee and the position, positive exactly when there is one |
| AdminService.MonthlyReport | backend/src/services/adminService.js:76-96 | a row is in the report exactly when it is the seven-column projection of a timesheet in the month with a matching assignment, employee, position and department. Every row is in the half-open month range, and the report is sorted by (department_name, full_name, date_work). Each row occurs once per pair of a timesheet of the month projecting to it and an assignment linking that timesheet's employee and position |
| AdminService.JoinRowsCount | backend/src/services/adminService.js:86-92 | the joined rows of the month's timesheets hold each row as many times as the join's pairs of timesheet and linking assignment produce it |
| AdminService.ReportOrderIsTotalPreorder | backend/src/services/adminService.js:92 | `ORDER BY d.name, e.full_name, t.date_work` is a total preorder |
| AdminService.MonthlyReportJoin | backend/src/services/adminService.js:86-91 | a row is in the report exactly when some timesheet, employee, assignment, position and department satisfy the five joins and the date range and project to it |
| WorklogExport.GuidOr | backend/src/routes/export.js:93 | `department_guid \|\| 'unknown'` is never empty: the guid when truthy, "unknown" otherwise |
| WorklogExport.GroupAttendance | backend/src/routes/export.js:83-107 | the first loop's dictionary is the grouping fold of the attendance rows |
| WorklogExport.CollectAssignments | backend/src/routes/export.js:109-130 | the second loop's dictionary is the roster fold of the assignment rows |
| WorklogExport.EmitEmployees | backend/src/routes/export.js:132-139 | the third loop emits one block per roster key, in key order |
| WorklogExport.BuildExport | backend/src/routes/export.js:83-139 | the handler's three loops compute the export document |
| WorklogExport.GroupsMatch | backend/src/routes/export.js:84-107 | a key has a group exactly when some row has that key. The group's GUID, posId and rate come from the key's first row (later rows only append), and it holds one worklog per row of the key, in row order |
| WorklogExport.RosterMatchesReference | backend/src/routes/export.js:109-130 | after the second loop the employees are the distinct emp_ids in first-appearance order. Each entry is named after the first assignment row, and its posts are the distinct pos_ids in first-appearance order, each stored by the last assignment row of its key |
| WorklogExport.ExportMatchesReference | backend/src/routes/export.js:83-139 | the document equals the independent reference document built from first and last rows and first-appearance orders |
| WorklogExport.ExportBlocks | backend/src/routes/export.js:110-139 | exactly one block per distinct emp_id of the assignment rows, in first-appearance order, with full_name and date_of_birth from that employee's first assignment row |
| WorklogExport.NoAssignmentsNoEmployees | backend/src/routes/export.js:132-139 | without assignment rows the document is empty, whatever the attendance |
| WorklogExport.ExportPost | backend/src/routes/export.js:86-129 | a block's posts are its employee's distinct pos_ids in first-appearance order. Each post's key has an assignment, its GUID is never empty, and it holds all of its key's worklogs. With attendance it is seeded by the key's first attendance row; without, it is the last assignment's GUID and rate with worklogs = [] |
| WorklogExport.EveryAssignmentHasPost | backend/src/routes/export.js:110-130 | every assignment row yields a post with its pos_id in the block of its emp_id |
| WorklogExport.WorklogCount | backend/src/routes/export.js:101-139 | the document's total worklog count equals the number of attendance rows whose (emp_id, pos_id) has an assignment row; unassigned groups are not emitted |
| WorklogExport.EveryRowCovered | backend/src/routes/export.js:84-139 | when every attendance key is assigned, the total worklog count equals the number of attendance rows |
| WorklogExport.StringKey | backend/src/routes/export.js:85 | the handler's key `${emp_id}-${pos_id}` has a '-' right after the emp_id |
| WorklogExport.StringKeyMergesGroups | backend/src/routes/export.js:85-106 | rows of ("A-1", "2") and ("A", "1-2") fall into one string-keyed group holding both worklogs, while the pair key keeps them apart |
| WorklogExport.StringKeyInjective | backend/src/routes/export.js:85 | when emp_ids contain no '-', equal string keys mean equal (emp_id, pos_id) pairs |
| ExportAuth.SplitCredentials | backend/src/routes/export.js:15 | the destructured `split(':')`: without a colon the whole text is the user part and there is no password; otherwise the user part runs to the first colon and the password part from there to the end or to the next colon |
| ExportAuth.SplitOfColonPassword | backend/src/routes/export.js:15 | "admin:pa:ss" is read as user "admin" with password "pa" |
| ExportAuth.SplitAtFirstColon | backend/src/routes/export.js:15 | a split at the first colon (section 2 of RFC 7617): none exactly when there is no colon, else a colon-free user part and the rest |
| ExportAuth.SplitAtFirstColonRoundTrip | backend/src/routes/export.js:15 | a colon-free user name and any password come back from `user:password` |
| ExportAuth.SplitsAgree | backend/src/routes/export.js:15 | with no colon in either part, both splits read the same user name and password |
| ExportAuth.Authenticate | backend/src/routes/export.js:17-38 | 401 when a part is empty or missing; admits exactly when a user has the name, the password matches its hash and its role is 'admin'; 403 exactly when it matches with another role; 401 otherwise |
| ExportAuth.ExportGuard | backend/src/routes/export.js:7-39 | 401 without a "Basic " header; admits only an admin employee whose name is the split's user part and whose hash matches the split's password part |
| ExportAuth.RfcExportGuard | backend/src/routes/export.js:7-39 | the guard with the first-colon split: admits only an admin whose `name:password` is the decoded credentials with a matching password |
| ExportAuth.GuardsAgree | backend/src/routes/export.js:15-17 | with no colon in user name or password both guards decide alike |
| ExportAuth.ColonInPasswordRejected | backend/src/routes/export.js:15-31 | an admin whose password is "pa:ss" is answered 401 by the guard as written |
| ExportAuth.ColonInPasswordAdmitted | backend/src/routes/export.js:15-31 | the same admin is admitted when the credentials are split at the first colon |

## Left out

- HTTP plumbing is not modelled: Fastify, headers, `Content-Disposition`, logging. Handlers are functions returning a status and a body.
- The export route's 500 on a failing query (backend/src/routes/export.js:145-150) is not modelled; the aggregation receives the two query results as rows.
- The SQL engine is not modelled. Tables are sequences of rows. The export's two queries, and their `ORDER BY`, are inputs given as rows.
- Ties under `ORDER BY` are unspecified in the store. The model's insertion sort puts tied rows in some fixed order, and its contracts state only sortedness and permutation.
- Strings compare by code point; the store's collation is not modelled.
- Base64 decoding, bcrypt hashing and comparison, and JWT signing and verification are library calls. They are parameters (`decode`, `matches`, `verify`) or an opaque hash.
- `new Date(...)` parsing, time zones and `toLocaleDateString('ru-RU')` are not modelled. Dates are (year, month, day) values, and the ru-RU form is written `DD.MM.YYYY` from them. The client formatter receives the `getFullYear`/`getMonth`/`getDate` results.
- The check-then-write race in `createCheckIn` is a concurrency matter; the model is sequential.
- JavaScript lists integer-like object keys first in `for…in` and `Object.values`. The model keeps insertion order for the export's dictionaries.
- JavaScript prototype keys (an emp_id such as "constructor") are not modelled.
- AdminService.PositionsOf: the order of `JSON_AGG` is unspecified in the store, so the contract states which elements occur and how often (PositionsOfCount), not their order.
- AdminService.NewEmployee: the role is an optional string. The destructuring default `role = 'employee'` applies only when the role is undefined, and a JSON `null` role would bypass it and reach the insert as NULL; that case is not modelled.
- Foreign keys, cascades and the store's reaction to deleting a referenced row are not modelled; a delete removes the matching rows only.
- The store's integer cast of `:id` is modelled for plain digit strings only; signs and surrounding whitespace are not.
- `GET /assignments` and `GET /employee/:emp_id/positions` are plain join-and-sort reads like the modelled ones and are not modelled.
- The GET routes that only forward a listing (`/employees`, `/departments`, `/positions`) are not modelled as replies; their services are.
- Rates are opaque reals; the client's `parseFloat` and any arithmetic are not modelled.
- `emp_info` in the first export loop is never read back, so the model does not build it.
- AddEmployeeReply, AddDepartmentReply and AddPositionReply have no contract of their own; they are `InsertReply` applied to each route's fields and conflict text, and TakenKeyAnswers409 states their conflict case.
- Calendar.RuDate: its contract states only the length of the `DD.MM.YYYY` text, because the ru-RU rendering is a stand-in for the locale library.
- Calendar.ParseMonth: the store's reading of year 0000 and of days is stated only as far as the month routes use it.

## Findings

| source | as written | input that shows it | evidently intended | confidence | as-written member | corrected member |
|---|---|---|---|---|---|---|
| backend/src/routes/export.js:85 | groups attendance by the string `${emp_id}-${pos_id}` | rows for ("A-1", "2") and ("A", "1-2") share the key "A-1-2" and land in one group | group by the (emp_id, pos_id) pair | not executed | WorklogExport.StringKeyMergesGroups | WorklogExport.GroupsMatch |
| backend/src/routes/export.js:15 | `const [username, password] = credentials.split(':')` keeps only the text between the first and second colon | "admin:pa:ss" is checked as password "pa" and answered 401 | split at the first colon, as section 2 of RFC 7617 defines | not executed | ExportAuth.ColonInPasswordRejected | ExportAuth.ColonInPasswordAdmitted |
