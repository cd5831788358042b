/** The three tables of the attendance schema (users, students, attendance) as
    row values, with the column constraints the database enforces at commit.
    A column that is NOT NULL in the schema but can be left unset by a handler
    (a student's name, an attendance status) is an Option here, so that the
    missing value reaches the commit, where the constraint refuses it. */
module Models {

  datatype Option<T> = None | Some(value: T)

  /** A calendar date as a day number: only the order of dates matters. */
  type Date = int

  /** VARCHAR widths of the schema's string columns. */
  const UsernameWidth: nat := 50
  const UserEmailWidth: nat := 120
  const RollWidth: nat := 20
  const NameWidth: nat := 100
  const StudentEmailWidth: nat := 120
  const StatusWidth: nat := 10

  /** The status values the reports count. */
  const Present: string := "Present"
  const Absent: string := "Absent"

  /** A login identity; the password hash and timestamps are not modelled. */
  datatype User = User(id: nat, username: string, email: string)

  /** A roster entry. `id` is the primary key, `roll` the human-assigned roll number. */
  datatype Student = Student(id: nat, roll: string, name: Option<string>, email: Option<string>)

  /** One status of one student on one date. */
  datatype Attendance = Attendance(id: nat, studentId: nat, date: Date, status: Option<string>)

  predicate FitsIn(v: Option<string>, width: nat) {
    v.Some? ==> |v.value| <= width
  }

  // ---------------------------------------------------------------------------
  // users

  /** NOT NULL, width and UNIQUE constraints of the users table. */
  predicate UsersHold(us: seq<User>) {
    && (forall u | u in us :: |u.username| <= UsernameWidth && |u.email| <= UserEmailWidth)
    && (forall i, j | 0 <= i < j < |us| :: us[i].id != us[j].id)
    && (forall i, j | 0 <= i < j < |us| :: us[i].username != us[j].username)
    && (forall i, j | 0 <= i < j < |us| :: us[i].email != us[j].email)
  }

  /** The first user with the given email, as a lookup by email returns it. */
  function UserWithEmail(us: seq<User>, email: string): (r: Option<User>)
    ensures r.Some? ==> r.value in us && r.value.email == email
    ensures r.None? ==> forall u | u in us :: u.email != email
    ensures UsersHold(us) ==> forall u | u in us && u.email == email :: r == Some(u)
  {
    if us == [] then None
    else if us[0].email == email then
      assert UsersHold(us) ==> forall j | 0 < j < |us| :: us[j].email != email;
      Some(us[0])
    else
      assert UsersHold(us) ==> UsersHold(us[1..]) by {
        if UsersHold(us) {
          forall i, j | 0 <= i < j < |us[1..]|
            ensures us[1..][i].email != us[1..][j].email
                 && us[1..][i].username != us[1..][j].username
                 && us[1..][i].id != us[1..][j].id
          {
            assert us[1..][i] == us[i + 1] && us[1..][j] == us[j + 1];
          }
        }
      }
      UserWithEmail(us[1..], email)
  }

  // ---------------------------------------------------------------------------
  // students and attendance

  /** NOT NULL and width constraints of one students row. */
  predicate StudentRowOk(s: Student) {
    |s.roll| <= RollWidth && s.name.Some? && FitsIn(s.name, NameWidth) && FitsIn(s.email, StudentEmailWidth)
  }

  /** NOT NULL and width constraints of one attendance row. */
  predicate AttendanceRowOk(a: Attendance) {
    a.status.Some? && FitsIn(a.status, StatusWidth)
  }

  predicate StudentIdsDistinct(ss: seq<Student>) {
    forall i, j | 0 <= i < j < |ss| :: ss[i].id != ss[j].id
  }

  predicate RollsDistinct(ss: seq<Student>) {
    forall i, j | 0 <= i < j < |ss| :: ss[i].roll != ss[j].roll
  }

  /** UNIQUE on a nullable column: any number of NULLs, no repeated value. */
  predicate EmailsDistinct(ss: seq<Student>) {
    forall i, j | 0 <= i < j < |ss| && ss[i].email.Some? :: ss[i].email != ss[j].email
  }

  predicate RecordIdsDistinct(rs: seq<Attendance>) {
    forall i, j | 0 <= i < j < |rs| :: rs[i].id != rs[j].id
  }

  predicate HasStudent(ss: seq<Student>, id: nat) {
    exists s | s in ss :: s.id == id
  }

  /** The foreign key from attendance.student_id to students.id. */
  predicate RecordsOwned(ss: seq<Student>, rs: seq<Attendance>) {
    forall a | a in rs :: HasStudent(ss, a.studentId)
  }

  /** Every constraint the database checks when a transaction commits.
      There is deliberately no constraint on (student, date) pairs. */
  predicate SchemaHolds(ss: seq<Student>, rs: seq<Attendance>) {
    && (forall s | s in ss :: StudentRowOk(s))
    && StudentIdsDistinct(ss)
    && RollsDistinct(ss)
    && EmailsDistinct(ss)
    && (forall a | a in rs :: AttendanceRowOk(a))
    && RecordIdsDistinct(rs)
    && RecordsOwned(ss, rs)
  }

  /** Every stored key lies below the next key the allocator hands out. */
  predicate KeysBelow(ss: seq<Student>, rs: seq<Attendance>, nextStudentId: nat, nextRecordId: nat) {
    (forall s | s in ss :: s.id < nextStudentId) && (forall a | a in rs :: a.id < nextRecordId)
  }

  /** The state every committed database is in. */
  predicate Consistent(ss: seq<Student>, rs: seq<Attendance>, nextStudentId: nat, nextRecordId: nat) {
    SchemaHolds(ss, rs) && KeysBelow(ss, rs, nextStudentId, nextRecordId)
  }

  /** True when a student already has a row for a date. */
  predicate IsMarked(rs: seq<Attendance>, studentId: nat, date: Date) {
    exists a | a in rs :: a.studentId == studentId && a.date == date
  }

  /** At most one row per (student, date) pair: what the marking handler aims
      for, not a constraint of the schema. */
  predicate SingleMarks(rs: seq<Attendance>) {
    forall i, j | 0 <= i < j < |rs| :: rs[i].studentId != rs[j].studentId || rs[i].date != rs[j].date
  }

  // ---------------------------------------------------------------------------
  // row selection, used by the cascade and by the queries

  /** The rows of `rs` that satisfy `keep`, in table order. */
  function Select(rs: seq<Attendance>, keep: Attendance -> bool): (r: seq<Attendance>)
    ensures forall a :: a in r <==> a in rs && keep(a)
    ensures |r| <= |rs|
    ensures RecordIdsDistinct(rs) ==> RecordIdsDistinct(r)
  {
    if rs == [] then []
    else
      var rest := Select(rs[1..], keep);
      assert rs == [rs[0]] + rs[1..];
      RecordIdsDistinctTail(rs);
      if keep(rs[0]) then
        var r := [rs[0]] + rest;
        assert RecordIdsDistinct(rs) ==> RecordIdsDistinct(r) by {
          if RecordIdsDistinct(rs) {
            forall i, j | 0 <= i < j < |r| ensures r[i].id != r[j].id {
              if i == 0 { assert r[j] in rest; }
              else { assert r[i] == rest[i - 1] && r[j] == rest[j - 1]; }
            }
          }
        }
        r
      else rest
  }

  /** Select keeps every selected row exactly as often as the table holds it. */
  lemma {:induction false} SelectCounts(rs: seq<Attendance>, keep: Attendance -> bool)
    ensures forall a :: multiset(Select(rs, keep))[a] == if keep(a) then multiset(rs)[a] else 0
  {
    if rs != [] {
      SelectCounts(rs[1..], keep);
      assert rs == [rs[0]] + rs[1..];
    }
  }

  lemma RecordIdsDistinctTail(rs: seq<Attendance>)
    requires rs != []
    ensures RecordIdsDistinct(rs) ==> RecordIdsDistinct(rs[1..]) && forall a | a in rs[1..] :: a.id != rs[0].id
  {
  }

  /** The attendance rows that survive deleting the student `id`
      (the relationship's delete-orphan cascade). */
  function Cascade(rs: seq<Attendance>, id: nat): (r: seq<Attendance>)
    ensures forall a :: a in r <==> a in rs && a.studentId != id
    ensures RecordIdsDistinct(rs) ==> RecordIdsDistinct(r)
  {
    Select(rs, (a: Attendance) => a.studentId != id)
  }

  /** The cascade leaves every other student's rows as they were, with their multiplicity. */
  lemma CascadeKeepsOthers(rs: seq<Attendance>, id: nat)
    ensures forall a: Attendance | a.studentId != id :: multiset(Cascade(rs, id))[a] == multiset(rs)[a]
    ensures forall a: Attendance | a.studentId == id :: a !in Cascade(rs, id)
  {
    SelectCounts(rs, (a: Attendance) => a.studentId != id);
  }

  /** The roster without its `k`-th entry. */
  function RemoveAt(ss: seq<Student>, k: nat): (r: seq<Student>)
    requires k < |ss|
    ensures |r| == |ss| - 1
    ensures forall i | 0 <= i < |r| :: r[i] == ss[if i < k then i else i + 1]
  {
    ss[..k] + ss[k + 1..]
  }

  /** Removing a roster entry keeps the roster constraints. */
  lemma RemoveAtKeepsRoster(ss: seq<Student>, k: nat)
    requires k < |ss|
    requires (forall s | s in ss :: StudentRowOk(s)) && StudentIdsDistinct(ss) && RollsDistinct(ss) && EmailsDistinct(ss)
    ensures var r := RemoveAt(ss, k);
            (forall s | s in r :: StudentRowOk(s)) && StudentIdsDistinct(r) && RollsDistinct(r) && EmailsDistinct(r)
  {
  }

  /** Deleting a student together with its rows keeps every schema constraint. */
  lemma CascadeKeepsSchema(ss: seq<Student>, rs: seq<Attendance>, k: nat)
    requires SchemaHolds(ss, rs) && k < |ss|
    ensures SchemaHolds(RemoveAt(ss, k), Cascade(rs, ss[k].id))
  {
  }

  /** The schema admits two rows for the same student and date. */
  lemma SchemaAdmitsDoubleMark()
    ensures var ss := [Student(1, "R1", Some("Ada"), None)];
            var rs := [Attendance(1, 1, 0, Some(Present)), Attendance(2, 1, 0, Some(Absent))];
            SchemaHolds(ss, rs) && !SingleMarks(rs)
  {
    var ss := [Student(1, "R1", Some("Ada"), None)];
    var rs := [Attendance(1, 1, 0, Some(Present)), Attendance(2, 1, 0, Some(Absent))];
    assert HasStudent(ss, 1) by { assert ss[0] in ss; }
    assert forall a | a in rs :: a.studentId == 1 && AttendanceRowOk(a);
    assert !(rs[0].studentId != rs[1].studentId || rs[0].date != rs[1].date);
  }
}
