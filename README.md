# GymPoint enrollments and students, modelled in Dafny

This project models the two controllers at the heart of the GymPoint backend, a gym
management HTTP service:

- The **student directory** (`StudentController`). It creates student rows, lists them
  twenty per page, and updates them. E-mail addresses stay unique across the table.
- The **enrollment manager** (`EnrollmentController`). It creates, lists, updates and
  soft-cancels enrollments of students in plans. Creating or updating computes three
  columns: the start (end of the chosen day), the end (the plan's length in months later)
  and the price (monthly price times length). Neither accepts a date in the past. Neither
  accepts a period that overlaps an active enrollment of the same student.

Each controller is a class whose field `table` is the data-store table as a sequence of
rows. The mutating actions are methods; the listings are functions. A response is a
`Response` value: `Ok(body)`, `Error(status, key, message)` with the status code and the
one-entry JSON body, or `Aborted` when a data-store call throws and the action writes no
response. Every method is specified by a pure `…Outcome` function of the old table and the
request. Lemmas then prove what the source promises about those functions: error order,
derived columns, and that the table invariants are preserved.

Files:

- `http.dfy`: request fields (`Absent`, `Invalid`, `Present(v)`) and responses.
- `tables.dfy`: `Find`, the row lookup behind `findByPk` and `findOne`.
- `dates.dfy`: integer timestamps. The date library's `endOfDay` and `addMonths` are kept
  abstract as the two functions of a `Calendar`. The only assumption is `Forward`:
  `addMonths(t, m) >= t` for every `m >= 0`.
- `students.dfy`: the student directory.
- `enrollments.dfy`: the enrollment manager.

The invariants:

- Student directory: no two rows share an e-mail address, and ids increase along the table.
- Enrollment manager: every period has `start <= end`, and ids increase along the table.
  The active (not cancelled) enrollments of any one student have pairwise separated
  half-open periods `[start, end)`.

Two behaviours of the code are easy to miss:

- The create schema for enrollments marks no field as required. A request without
  `student_id` or `plan_id` therefore gets past validation and fails the lookup with 401.
  A request without `start_date` reaches the overlap query with an invalid date; the model
  answers it with `Aborted`.
- A query string `q` that is empty counts as "no query" (`!q` in the source). Such a
  request gets the name-ordered listing.

## Model

| member | source | states |
|---|---|---|
| `Tables.Find` | src/app/controllers/EnrollmentController.js:108-111 | the lookup returns a row that satisfies the condition and no earlier row does; it returns None exactly when no row does |
| `Students.StoreOutcome` | src/app/controllers/StudentController.js:6-34 | create succeeds exactly when the schema holds and no row has the e-mail; it then yields the six sent fields with the new id; failures are 400, validation before the e-mail check |
| `Students.UpdateOutcome` | src/app/controllers/StudentController.js:67-100 | validation fails with 400, an unknown id with 401; for a valid request and a known id (ids unique), the answer is 401 "Email já cadastrado" exactly when a sent e-mail differs from the row's own and some row holds it, and otherwise success with the row's new value: the old one with every sent field overwritten |
| `Students.StoreKeepsInvariant` | src/app/controllers/StudentController.js:21-33 | appending the created student keeps e-mails unique and ids increasing |
| `Students.UpdateKeepsInvariant` | src/app/controllers/StudentController.js:85-99 | replacing the updated row keeps e-mails unique and ids unchanged |
| `Students.SortByName` | src/app/controllers/StudentController.js:47-51 | the listing order is ascending by name and is a permutation of the table |
| `Students.InsertByName` | src/app/controllers/StudentController.js:48 | inserting into a name-sorted list keeps it sorted and adds exactly that row |
| `Students.FilterByName` | src/app/controllers/StudentController.js:55-59 | a row is kept exactly when it is in the table and its name contains q ignoring letter case; no row is kept more often than the table holds it |
| `Students.QueryCaseIrrelevant` | src/app/controllers/StudentController.js:56 | the search ignores letter case in both the query and the name: queries or names equal once lowered match alike |
| `Students.Window` | src/app/controllers/StudentController.js:49-50 | a page holds at most 20 rows, row i of the page is row offset+i of the list, and a page is short only when the list is exhausted |
| `Students.StudentDirectory.Index` | src/app/controllers/StudentController.js:36-65 | 400 exactly for an invalid q, so the "not found" branch is never taken; Aborted exactly for a negative offset; otherwise at most 20 rows of the table; without q a name-sorted window at offset (page-1)*20 (page defaults to 1); with q only matching rows |
| `Students.StudentDirectory.Store` | src/app/controllers/StudentController.js:6-34 | answers as StoreOutcome; on success the table gains exactly the new row; on failure it is unchanged; the invariant is kept |
| `Students.StudentDirectory.Update` | src/app/controllers/StudentController.js:67-100 | answers as UpdateOutcome; on success only the found row changes; on failure nothing changes; the invariant is kept |
| `Enrollments.Derive` | src/app/controllers/EnrollmentController.js:34-36 | under a forward calendar the computed start is not after the computed end |
| `Enrollments.StoreOutcome` | src/app/controllers/EnrollmentController.js:12-64 | success implies: known student and plan; start is endOfDay of the sent date and not before now; end is addMonths(start, plan.length); price is plan.price * plan.length; no table row conflicts with the new period |
| `Enrollments.UpdateOutcome` | src/app/controllers/EnrollmentController.js:98-158 | never Aborted; success implies the row found has the id, keeps its id and cancellation, and gets the sent student and plan with the same derived start, end and price as create; no row with another id conflicts |
| `Enrollments.CancelOutcome` | src/app/controllers/EnrollmentController.js:163-170 | 401 exactly when no row has the id; with unique ids, 400 "Esta matrícula já foi cancelada" exactly when the row is already cancelled, and success exactly when it exists and is active |
| `Enrollments.StoreErrorPrecedence` | src/app/controllers/EnrollmentController.js:19-57 | validation (400), then unknown student (401), then unknown plan (401), then a missing date (Aborted), then past date (400), then an overlapping active row (401), and a request passing every check is accepted with the derived columns; once a check fails, the inputs only later checks read do not change the answer |
| `Enrollments.UpdateErrorPrecedence` | src/app/controllers/EnrollmentController.js:105-151 | update checks validation (400), then the enrollment id (401), then student (401), then plan (401), then past date (400), then an overlapping active row with another id (401); a request passing every check rewrites the found row with the derived columns |
| `Enrollments.ConflictMeansSharedInstant` | src/app/controllers/EnrollmentController.js:41-52 | for a non-empty existing period, the overlap query fires exactly when an active row of the student shares an instant of its half-open period with the new closed period; a zero-length row (a plan of length 0) conflicts exactly when its point lies after the new start and no later than the new end |
| `Enrollments.ConflictBoundaries` | src/app/controllers/EnrollmentController.js:45-50 | a row ending exactly at the new start does not conflict; a row starting exactly at the new end does |
| `Enrollments.SeparatedMeansDisjoint` | src/app/controllers/EnrollmentController.js:41-57 | two non-empty periods are separated exactly when their half-open ranges share no instant |
| `Enrollments.NoConflictSeparates` | src/app/controllers/EnrollmentController.js:54-57 | an active row of the same student that the query lets through is separated from the new period |
| `Enrollments.StoreKeepsConsistent` | src/app/controllers/EnrollmentController.js:41-64 | appending the created row keeps periods well-formed, ids increasing, and active periods of each student separated |
| `Enrollments.UpdateKeepsConsistent` | src/app/controllers/EnrollmentController.js:132-158 | replacing the updated row keeps the same invariant, because the only row the query skips is the row itself |
| `Enrollments.CancelKeepsConsistent` | src/app/controllers/EnrollmentController.js:169-174 | stamping canceled_at keeps the invariant |
| `Enrollments.EnrollmentManager.Index` | src/app/controllers/EnrollmentController.js:89-96 | an error (400) exactly when the table is empty, otherwise the whole table |
| `Enrollments.EnrollmentManager.Store` | src/app/controllers/EnrollmentController.js:12-87 | answers as StoreOutcome; on success appends exactly one row with a fresh id and queues one confirmation e-mail; on failure changes nothing; keeps the invariant |
| `Enrollments.EnrollmentManager.Update` | src/app/controllers/EnrollmentController.js:98-161 | answers as UpdateOutcome; on success only the found row changes; on failure nothing changes; queues no e-mail; keeps the invariant |
| `Enrollments.EnrollmentManager.Delete` | src/app/controllers/EnrollmentController.js:163-179 | unknown id is 401, an already cancelled row is 400 with no change; otherwise canceled_at := now on that row only, the row stays in the table; keeps the invariant |

## Left out

- The authentication middleware (src/app/middlewares/authMiddleware.js) is not part of this model. It checks that a header is present and hands the token to the JWT library.
- The date library is abstract. `endOfDay` and `addMonths` are functions of the calendar, assumed only to move forward. `parseISO` is folded into the request: a present `start_date` is the timestamp it parses to. A date the schema accepts is assumed to parse. The formatted dates of the e-mail are dropped.
- The e-mail job is recorded as an entry appended to `outbox`. The queue's delivery and retries are out of scope.
- A create without `start_date`, and a listing whose page gives a negative offset, reach the data store with an invalid value. The data store throws and the action does not catch it; the model records this as `Aborted`. A non-numeric `page` is not modelled.
- Only the named fields of a request body are modelled. The `...req.body` spread of any other field into the row is not.
- A student update without `email` issues a lookup for an undefined e-mail. The model checks uniqueness only when a sent e-mail differs from the current one.
- The SQL `iLike` pattern treats `%` and `_` in `q` as wildcards. The model matches `q` literally. Case folding covers the ASCII letters only.
- Ordering by name compares characters by code point; the database's collation is not modelled. Ties keep table order. Without `q` the listing is ordered, and with `q` it comes in table order.
- A plan of length 0 gives a zero-length enrollment (start == end). It covers no instant, yet the overlap query still rejects a new period of the same student that reaches its point from strictly before.
- Prices, ages, weights and heights are integers; decimal values are not modelled.
- The manager's student and plan tables are fixed maps given at construction. They are not linked to the student directory's table.
- Requests run one after another. The race between the overlap query and the insert of two concurrent creates is not modelled.
- Students.FilterByName: states which rows are kept and how often, not that they stay in table order.
- Plan lengths are non-negative (`length: nat`); a negative `length` read from the plan table is not modelled.
