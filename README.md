# EduCheck attendance backend — Dafny model

This project models the request handlers of the EduCheck backend
(`server.js`). Students register and log in, look up a class by its rotating
`random_code`, and mark attendance. For sequential calls, a mark is
recorded at most once per (class_id, reg_no) and comes back with instructor
comments. Lecturers read the roster of a class by its code.

The MySQL tables `user`, `classes`, `attendance`, `comment_table` and
`csv_table` are sequences of rows held in the class `Server.Database`, in
table order. Each handler is one operation on them that returns a response
value: one datatype variant per HTTP status, with the payload fields.

- `values.dfy`: `Values` holds JSON request values (`Undefined`, `Null`,
  booleans, integers, strings), JavaScript truthiness (`!x`), and `SqlEq`,
  the comparison a `WHERE col = ?` performs. NULL equals nothing. The driver
  sends `undefined` as NULL. `Query.First` is `results[0]`: the first
  matching row, in table order.
- `tables.dfy`: one row type per table.
- `comments.dfy`: the comment lookup of `/mark-attendance`.
- `directory.dfy`: `POST /get-class-id`.
- `report.dfy`: `GET /attendance/:random_code`.
- `ledger.dfy`: `POST /mark-attendance` as a function on the attendance
  table (`Mark`), whose contract states each branch. Lemmas cover the at-most-one-mark
  invariant (for one call and for any sequence of calls), for repeated calls,
  and for how a mark changes the report.
- `credentials.dfy`: `POST /register` (`Register`) and `POST /login`
  (`Login`). bcrypt's hash and compare are function parameters. The token is
  represented by the claims it would be signed over.
- `server.dfy`: the `Database` class. Its methods `Register` and
  `MarkAttendance` perform the handlers' steps with early returns. Each is
  proved equal to the function above, and each is proved to change only its
  own table. Two client methods replay the end-to-end scenario of
  registration, login, marking and the report.

## Model

| member | source | states |
|---|---|---|
| Query.First | server.js:234-240 | the index returned is the first row satisfying the WHERE clause, in table order; none exactly when no row satisfies it |
| CommentLookup.FindComments | server.js:347-355 | the comments come from the first `comment_table` row whose `reg_no` matches and whose `csv_id` belongs to a `csv_table` row of the class; both are null when no row qualifies |
| CommentLookup.NoBatchNoComments | server.js:347-355 | a student with no comment row, or a class with no uploaded batch, gets two null comments |
| CommentLookup.OtherStudentAtHeadIgnored | server.js:350-352 | a comment row of another student placed first does not change the result |
| CommentLookup.OtherStudentsIgnored | server.js:350-352 | a comment row of another student inserted at any position never changes the result |
| ClassDirectory.Resolve | server.js:234 | the code matches a row only by exact equality with a non-null code, and the matched row is the first with that code |
| ClassDirectory.GetClassId | server.js:231-244 | 404 exactly when no class row carries the code; otherwise the class_id of the first row that does |
| ClassDirectory.MissingCodeNotFound | server.js:232-237 | an absent or null `random_code` gives 404 |
| ClassDirectory.CodeMatchIsExact | server.js:234 | "ABC" matches neither "abc" nor "ABC " |
| AttendanceReport.RegNosOf | server.js:408-415 | a value is in the roster exactly when some attendance row of the class carries it as reg_no; the roster is no longer than the table |
| AttendanceReport.RegNosAppend | server.js:408-415 | the roster of concatenated tables is the concatenation of the rosters, so table order is kept |
| AttendanceReport.GetReport | server.js:392-421 | 404 exactly when no class has the code; otherwise 200 with the roster of the first such class and its subject_code, scheduled_time and venue |
| AttendanceReport.RosterOfUnmarkedClass | server.js:408-415 | a class with no attendance row has an empty roster |
| AttendanceReport.EmptyRosterIsNotAnError | server.js:408-421 | the class a code resolves to, when it has no marks, gives 200 with an empty roster, whatever marks other classes have, even ones sharing the code |
| AttendanceReport.ReportAgreesWithDirectory | server.js:396-411 | the report resolves a code exactly when `/get-class-id` does, and lists the marks of the class_id that route returns |
| AttendanceLedger.FindMark | server.js:358-361 | the index returned is the first attendance row for (class_id, reg_no); none exactly when there is no such row |
| AttendanceLedger.Mark | server.js:338-385 | 400 exactly when class_id, reg_no or device_time is falsy; 409 exactly when the fields are present and a mark for the pair exists, with the attended_at of the first such row; neither changes the table; otherwise exactly the row (class_id, reg_no, device_time) is appended under the next id and 201 echoes device_time and that id; 409 and 201 both carry the comment lookup's result |
| AttendanceLedger.MarkPreservesUniqueness | server.js:358-376 | one call keeps at most one mark per (class_id, reg_no) |
| AttendanceLedger.MarkIdIsFresh | server.js:373-381 | the attendance_id of a new mark differs from every stored one, and ids stay below the counter |
| AttendanceLedger.MarkTwice | server.js:358-385 | repeating a complete call gives 409 with the timestamp the first call stored or reported, identical comments, and no new row |
| AttendanceLedger.DuplicateTimestampIsPersisted | server.js:358-370 | under the invariant, the 409 timestamp is the attended_at of the one stored mark for the pair |
| AttendanceLedger.MarkExtendsRoster | server.js:372-376 | a new mark appends its reg_no to its own class's roster and changes no other roster; a rejected call changes no roster |
| AttendanceLedger.UniqueMarksDistinctRoster | server.js:408-415 | under the invariant, no registration number appears twice in a roster |
| AttendanceLedger.RunMarksPreservesUniqueness | server.js:358-376 | any sequence of calls keeps at most one mark per (class_id, reg_no) |
| AttendanceLedger.RunMarksOnlyAppends | server.js:372-376 | a sequence of calls keeps every earlier row in place |
| AttendanceLedger.RunMarksRecordsEveryRequest | server.js:358-376 | after a sequence of calls, every request with all three fields truthy has a mark for its pair |
| Credentials.FindUser | server.js:122-125 | the index returned is the first account with the email; none exactly when no account has it |
| Credentials.Register | server.js:112-186 | 400 exactly when name, email or password is falsy; 409 exactly when the fields are present and the email is known; 500 exactly when, beyond that, the password is not a string bcrypt can hash; none of these adds a user; otherwise one row is appended with the hashed password, role_id 50, provider 'local' and a null auth_id, and 201 returns role_id 50 with token claims id, name, email, role 50 and 1h |
| Credentials.Login | server.js:188-219 | "user not found" exactly when no account has the email; 500 exactly when the password or the first such account's stored hash is not a string; otherwise "invalid credentials" exactly when compare rejects, and success carries that account's id, name and role |
| Credentials.RegisterPreservesInvariants | server.js:122-153 | registration keeps emails unique and user ids below the counter, and a new account's id differs from every stored one |
| Credentials.RegisterThenLogin | server.js:136-215 | after registering, login succeeds exactly when the password is a string that compare accepts against the stored hash, and then names the new student with role 50; registering the email again gives 409 |
| Server.Database.Register | server.js:112-186 | the response and the new `user` table are those of `Credentials.Register`, no other table changes, unique emails stay unique, and a new account's id differs from every stored one |
| Server.Database.MarkAttendance | server.js:338-390 | the response and the new attendance table are those of `AttendanceLedger.Mark`, no other table changes, at most one mark per pair stays so, and a new mark's id differs from every stored one |

## Left out

- Express routing, JSON body parsing, the fallback 404 route and `app.listen`
  are framework plumbing. Each handler takes its body fields as arguments.
  The report's path parameter is a string, as Express delivers it.
- The MySQL pool, dotenv configuration, the startup connection check and
  `process.exit` are I/O and environment.
- bcrypt is not modelled. The hash and compare functions are parameters
  over strings. The salt from `genSalt(10)` is a parameter of each
  registration. bcrypt refuses any argument that is not a string, and the
  model keeps that refusal as the 500 outcome: a non-string password in
  `/register`, and a non-string password or stored NULL hash in `/login`.
- JWT signing is not modelled. Responses carry the claims and the "1h"
  lifetime that would be signed; the secret and the signature are left out.
- 500 responses from driver failures and signing exceptions are left out.
  Two consequences go uncaptured: a failing query gives 500 instead of the
  modelled answer, and if signing failed after the INSERT in `/register`,
  the client would get 500 while the user row stays stored.
- Concurrency is left out: the race between the SELECT and the INSERT in
  `/mark-attendance` and `/register`. Uniqueness is proved only for
  sequential calls. `server.js` has no handling of a constraint
  violation on insert, so the model has none.
- The model compares every value exactly and never converts types. MySQL
  behaves differently in three ways the model ignores: collation (the default
  one ignores case, and can ignore trailing spaces), numeric/string coercion,
  and converting column types on read (for example the return format of a
  DATETIME `attended_at`). A stored value comes back unchanged in the model.
- Rows are returned in table order. The queries in `server.js` have no
  ORDER BY, so "first row" means the first in insertion order.
- JSON arrays, objects and non-integer numbers (including NaN) are not
  request values here. Numbers are integers.
- The `message`/`error` texts and the constant `success: true` field are not
  modelled; each is fixed by the response variant.
- `device_time` is never parsed or validated. It is stored as given.
- `GET /classes` is a select-all without logic.
- The commented-out older handlers are dead code.
