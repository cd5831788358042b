# Attendance management: a verified model of the roster and attendance tables

The system is a small school attendance tracker. Signed-in staff keep a roster
of students, mark each student Present or Absent for a date, and read reports:
the rows of one date, the rows of a date range, a per-student tally, and a
dashboard with counts and the share of Present rows.

This project models that logic in Dafny as operations on an in-memory database:

- `Models` (models.dfy): the `User`, `Student` and `Attendance` rows, the VARCHAR widths,
  and the constraints the database checks at commit. These are primary keys, the
  unique roll number, the unique nullable email, NOT NULL, the column widths and the
  foreign key. The module also holds the delete-orphan cascade and the row filter
  that the queries use.
- `Store` (store.dfy): class `Database`. It holds the two tables as `seq` fields
  that the handlers reassign, plus the key allocators. `Commit` applies the staged
  tables only when every constraint holds; otherwise it leaves the tables as they were.
- `Web` (web.dfy): the request session (`"user_id" in session` becomes
  `SignedIn`) and the handler outcomes: login redirect, form page, warning and
  redirect back, success, 404, and server error.
- `Ordering` (ordering.dfy): `ORDER BY roll_number` as an insertion sort under
  code-point lexicographic order, proved sorted and a permutation.
- `StudentRoutes` (students.dfy): add, list, edit and delete. Each one that changes
  state is a method on the `Database` whose contract gives every outcome and the new state.
- `AttendanceRoutes` (attendance.dfy): marking is a loop over the roster
  (`WalkRoster`), proved against the function `Stage`. The lemmas prove that
  marking covers the roster and is idempotent. They also prove it never adds a row
  for a (student, date) pair that already has one, whatever rows were stored before. The reports are functions.
- `MainRoutes` (dashboard.dfy): the dashboard figures. The percentage is an exact
  rational.

Modelling choices:

- Columns that are NOT NULL but that a handler can leave unset are `Option` in the
  rows. These are a student's name (edit copies the raw form field) and an
  attendance status (the form may lack `status_<id>`). The commit refuses the
  missing value. A commit that raises ends the request with the server-error
  page, and the transaction is rolled back.
- A date is an integer day number. The form's date arrives as `Option<Date>`,
  where `None` means a missing or empty field.
- Form fields are `Option<string>`. A blank text field is the empty string, not
  `None`. As a consequence the unique email constraint refuses a second student
  whose email was left blank (`SecondBlankEmailRefused`).
- The marking loop's existence query flushes the session first, so it also sees
  the rows the same walk added earlier. `Stage` checks against
  `existing + before` for this reason.
- Keys come from counters (`nextStudentId`, `nextRecordId`) that start at 1 and
  advance only on a successful commit (see "## Left out" on key values).
- A report line carries the student's key next to its name. The key is the
  grouping column, and the per-student properties are stated with it.

The handlers validate less than one might expect, and the model follows them as
written. Adding a student checks only for a duplicate roll number. A duplicate email is not caught
by the handler: it reaches the commit, and the unique constraint makes the
request fail with a server error instead of a warning. Editing does not validate
either: a missing name makes the commit fail on NOT NULL. The attendance
blueprint is not registered by the application factory (app/__init__.py:16-18).
Its handlers are modelled as written.

## Model

| member | source | states |
|---|---|---|
| `Models.UserWithEmail` | app/auth/routes.py:13 | the lookup by email returns a user with that email, or None when no user has it; when the users table satisfies its unique constraints (the unique `email` column, app/models.py:9-10), the result is the only user with that email |
| `Models.Select` | app/attendance/routes.py:92-94 | a filter query returns exactly the rows that satisfy the condition, never more rows than the table, and keeps primary keys distinct |
| `Models.SelectCounts` | app/attendance/routes.py:74 | a filter query returns each selected row exactly as often as the table holds it, and no unselected row |
| `Models.Cascade` | app/models.py:33-37 | after deleting a student, the attendance rows left are exactly the rows of other students, and their keys stay distinct |
| `Models.CascadeKeepsOthers` | app/models.py:48-52 | the cascade keeps every row of another student with its multiplicity and keeps no row of the deleted student |
| `Models.RemoveAt` | app/students/routes.py:73 | deleting the k-th roster entry shortens the roster by one and shifts the later entries down, in order |
| `Models.RemoveAtKeepsRoster` | app/models.py:27-30 | removing a student keeps roll numbers, keys and emails pairwise distinct and every row's NOT NULL and width constraints |
| `Models.CascadeKeepsSchema` | app/models.py:33-52 | deleting a student together with its attendance rows preserves every constraint, including the foreign key |
| `Models.SchemaAdmitsDoubleMark` | app/models.py:43-55 | the schema admits two rows for the same student and date: no unique constraint covers that pair |
| `Store.Database.Commit` | app/students/routes.py:35 | the commit succeeds exactly when the staged tables satisfy every constraint; on success they replace the tables, otherwise nothing changes |
| `Ordering.InsertByRoll` | app/attendance/routes.py:31 | inserting into a roster sorted by roll number keeps it sorted and adds exactly that student |
| `Ordering.OrderByRoll` | app/attendance/routes.py:31 | the roster ordered by roll number is sorted and is a permutation of the students |
| `StudentRoutes.FindStudent` | app/students/routes.py:55 | the lookup by key returns a position holding that key, and returns None exactly when no student has that key |
| `StudentRoutes.AddStudentCommits` | app/students/routes.py:29-35 | a new student with a fresh key and an unused roll number commits exactly when its columns fit and its email, if any, is unused |
| `StudentRoutes.EditStudentCommits` | app/students/routes.py:57-60 | overwriting a student's name and email commits exactly when the name is present, the columns fit and no other student has the email |
| `StudentRoutes.SecondBlankEmailRefused` | app/students/routes.py:18-35 | when one student already has a blank email, adding another student with a blank email cannot commit |
| `StudentRoutes.AddStudent` | app/students/routes.py:11-40 | a caller who is not signed in gets the login redirect and no change; GET shows the form; a missing or empty roll number or name is rejected with no change; an existing roll number is rejected with no change; otherwise exactly one student with the next key and the given roll number, name and email is appended, unless the commit fails on email or width (server error, no change); the constraints still hold afterwards |
| `StudentRoutes.ListStudents` | app/students/routes.py:43-48 | a signed-in caller sees every student, unfiltered; anyone else gets the login redirect |
| `StudentRoutes.EditStudent` | app/students/routes.py:51-65 | an unknown key gives 404 and no change; a POST replaces only the target's name and email, leaving its key and roll number, the other students and all attendance rows as they were, unless the commit fails (server error, no change) |
| `StudentRoutes.DeleteStudent` | app/students/routes.py:68-77 | an unknown key gives 404 and no change; otherwise exactly that student is removed together with all of its attendance rows, and the other students and rows are kept |
| `AttendanceRoutes.Stage` | app/attendance/routes.py:40-56 | the marking walk adds no more rows than the roster has students; each added row has the next key, the chosen date and that student's submitted status verbatim; it belongs to a roster student who had no row for the date |
| `AttendanceRoutes.StageOnePerStudent` | app/attendance/routes.py:43-56 | no two rows added by one walk belong to the same student, whatever rows were stored before |
| `AttendanceRoutes.StageMarksRoster` | app/attendance/routes.py:40-56 | after the walk, every roster student has a row for the date |
| `AttendanceRoutes.AppendUnmarkedKeepsSingle` | app/attendance/routes.py:48-56 | adding a row for an unmarked (student, date) pair keeps every pair to at most one row |
| `AttendanceRoutes.StageKeepsSingleMarks` | app/attendance/routes.py:43-56 | if no (student, date) pair has two rows before the walk, none has two after it |
| `AttendanceRoutes.StageAddsNoSecondMark` | app/attendance/routes.py:43-56 | whatever rows were stored before, no added row repeats the (student, date) pair of a stored row or of another added row |
| `AttendanceRoutes.StageOfMarkedIsEmpty` | app/attendance/routes.py:43-49 | a walk over students who are all marked for the date adds nothing |
| `AttendanceRoutes.MarkTwiceAddsNothing` | app/attendance/routes.py:31-56 | marking the same date a second time with the same roster adds no row, whatever statuses are submitted |
| `AttendanceRoutes.MarkCoversEveryStudent` | app/attendance/routes.py:31-56 | walking the roster in roll-number order leaves every student with a row for the date |
| `AttendanceRoutes.MarkCommits` | app/attendance/routes.py:51-58 | the marking commit succeeds exactly when every added row has a status that is present and at most 10 characters; the keys stay below the advanced allocator |
| `AttendanceRoutes.WalkRoster` | app/attendance/routes.py:40-56 | the loop collects exactly the rows `Stage` describes |
| `AttendanceRoutes.MarkAttendance` | app/attendance/routes.py:27-62 | no sign-in gives the login redirect; a missing date is rejected; otherwise the stored rows stay untouched and exactly the walk's rows are appended, so every student ends up marked for the date; no added row repeats the (student, date) pair of any earlier row, and a table with one row per pair keeps that property; a missing or over-long status fails the whole commit with no change |
| `AttendanceRoutes.ViewAttendance` | app/attendance/routes.py:66-80 | without a date the page is empty; with a date it shows exactly the rows of that date, each as many times as the table holds it |
| `AttendanceRoutes.DateReport` | app/attendance/routes.py:83-101 | with both bounds the page shows exactly the rows with start <= date <= end, bounds included, each as many times as the table holds it; with either bound missing it is empty |
| `AttendanceRoutes.PresentAbsentBound` | app/attendance/routes.py:18-22 | a student's Present rows plus its Absent rows are at most all of its rows |
| `AttendanceRoutes.TallyOf` | app/attendance/routes.py:19-21 | a student's tally carries its key and name, and its present and absent counts add up to at most its row count |
| `AttendanceRoutes.Tallies` | app/attendance/routes.py:18-22 | every entry is the tally of a student with at least one row, and every student with at least one row has its tally in the report |
| `AttendanceRoutes.TalliesDistinct` | app/attendance/routes.py:22 | when student keys are distinct, the grouped report has at most one entry per student |
| `AttendanceRoutes.StudentReport` | app/attendance/routes.py:14-24 | an entry exists for a student exactly when the student has a row; each entry is the tally of a student in the table, and its present and absent counts are its exact Present and Absent counts and add up to at most its row count; there is one entry per student |
| `MainRoutes.DistinctDates` | app/routes.py:20-22 | the set holds exactly the dates that carry a row, and has at most as many elements as there are rows |
| `MainRoutes.Percentage` | app/routes.py:29-32 | the percentage is 0 when there are no rows; otherwise it equals present * 100 / total exactly, and lies between 0 and 100 when present <= total |
| `MainRoutes.Dashboard` | app/routes.py:14-39 | no sign-in gives the login redirect; otherwise the figures are the number of students, the number of distinct dates (at most the row count), the number of rows, the number of rows with status exactly "Present" (at most the row count), and that count's exact percentage of the rows, within [0, 100] |
| `MainRoutes.ThreeOfFourIsSeventyFive` | app/routes.py:29-32 | three Present rows out of four give exactly 75 percent |

## Left out

- Login and logout (app/auth/routes.py) and `User.set_password` / `check_password`: they depend on werkzeug password hashing and on session cookies. A session is modelled only by whether it holds a user id. No handler writes the users table, so its constraints are a predicate (`UsersHold`) plus the lookup by email.
- Blueprint registration and the app factory (app/__init__.py), and the index route that redirects to the login page (app/routes.py:9-11): plumbing with no state.
- Rendering, flash messages and URLs: these become the `Outcome` and `Page` values. The GET page of the marking form is `FormShown` without its roster content.
- `round(attendance_percentage, 2)`: floating point. The dashboard gives the exact ratio.
- The `created_at` and `marked_at` timestamps: they come from the wall clock.
- The race between two concurrent marks of the same date: the model is sequential.
- Parsing the form's date string into a date: the date arrives already parsed, or missing.
- VARCHAR widths: the model refuses every value longer than its column. SQLite, for one, does not enforce widths at all. On such a backend the width conditions in `AddStudent`, `EditStudent` and `MarkAttendance` would not fail a commit. PostgreSQL and MySQL make one exception: a value whose characters past the width are all spaces is stored cut down to the width. For example, a status of "Present" followed by four spaces is saved as "Present   ". The model gives a server error instead. The same holds for the roll number, name and email columns.
- String order: `ORDER BY roll_number` is modelled as code-point order (a binary collation). Other collations would order the roster, and so the keys of the new rows, differently.
- Result order of the queries without `ORDER BY` (student list, view, date report, student report): the source leaves it unspecified. The model returns table order. `ListStudents` states that order as its result, as one backend might return it. The report contracts state which rows appear and how often, not in which order.
- Failure midway through the marking loop: a flush that raises in the middle of the walk and a commit that raises after it both end with the server error and no change. The model reports both at the commit.
- Key values: `AddStudent`, `Stage` and `MarkAttendance` promise exact keys: the next value of a counter that advances only on a successful commit and never reuses a key. Real backends differ. PostgreSQL sequences are not rolled back, so a failed commit leaves a gap. SQLite's `INTEGER PRIMARY KEY` takes the largest key plus one, so it hands out the key of a deleted highest student again. Only the key values are idealised. Freshness, distinctness and the foreign key hold on either backend.
- `DeleteStudent`: the cascade is the ORM's delete-orphan cascade. The database-level `ON DELETE CASCADE` gives the same tables and is not modelled separately.
