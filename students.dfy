/** The student directory: add, list, edit and delete, each behind the login guard. */
module StudentRoutes {
  import opened Models
  import opened Store
  import opened Web

  /** The add form's fields; a field the request does not carry is None. */
  datatype StudentForm = StudentForm(roll: Option<string>, name: Option<string>, email: Option<string>)

  /** The edit form's fields. */
  datatype EditForm = EditForm(name: Option<string>, email: Option<string>)

  /** A form value that passes a truthiness test: present and not empty. */
  predicate Given(v: Option<string>) {
    v.Some? && v.value != ""
  }

  /** Some student already carries this roll number (exact match). */
  predicate RollTaken(ss: seq<Student>, roll: string) {
    exists s | s in ss :: s.roll == roll
  }

  /** Some student already carries this (non-null) email. */
  predicate EmailTaken(ss: seq<Student>, email: Option<string>) {
    email.Some? && exists s | s in ss :: s.email == email
  }

  /** Some student other than the `k`-th carries this (non-null) email. */
  predicate EmailTakenByOther(ss: seq<Student>, k: nat, email: Option<string>) {
    email.Some? && exists j | 0 <= j < |ss| && j != k :: ss[j].email == email
  }

  /** The position of the student with primary key `id`, or None: the lookup behind the 404. */
  function FindStudent(ss: seq<Student>, id: nat): (k: Option<nat>)
    ensures k.Some? ==> k.value < |ss| && ss[k.value].id == id
    ensures k.None? <==> !HasStudent(ss, id)
  {
    if ss == [] then None
    else if ss[0].id == id then Some(0)
    else
      assert ss == [ss[0]] + ss[1..];
      match FindStudent(ss[1..], id)
      case None => None
      case Some(j) => Some(j + 1)
  }

  /** Appending a student with a fresh key and a fresh roll number commits exactly
      when its columns fit and its email, if any, is not already in use. */
  lemma AddStudentCommits(ss: seq<Student>, rs: seq<Attendance>, s: Student)
    requires SchemaHolds(ss, rs)
    requires forall t | t in ss :: t.id < s.id
    requires !RollTaken(ss, s.roll)
    ensures SchemaHolds(ss + [s], rs) <==> StudentRowOk(s) && !EmailTaken(ss, s.email)
  {
    var ss' := ss + [s];
    assert forall i | 0 <= i < |ss| :: ss'[i] == ss[i] && ss[i] in ss;
    if StudentRowOk(s) && !EmailTaken(ss, s.email) {
      forall a | a in rs ensures HasStudent(ss', a.studentId) {
        var t :| t in ss && t.id == a.studentId;
        assert t in ss';
      }
    }
    if EmailTaken(ss, s.email) {
      var t :| t in ss && t.email == s.email;
      var i :| 0 <= i < |ss| && ss[i] == t;
      assert ss'[i].email.Some? && ss'[i].email == ss'[|ss|].email;
    }
  }

  /** Overwriting the `k`-th student's name and email commits exactly when the new
      name is present, the columns fit and no other student carries the email. */
  lemma EditStudentCommits(ss: seq<Student>, rs: seq<Attendance>, k: nat, s: Student)
    requires SchemaHolds(ss, rs) && k < |ss|
    requires s.id == ss[k].id && s.roll == ss[k].roll
    ensures SchemaHolds(ss[k := s], rs) <==> StudentRowOk(s) && !EmailTakenByOther(ss, k, s.email)
  {
    var ss' := ss[k := s];
    if StudentRowOk(s) && !EmailTakenByOther(ss, k, s.email) {
      forall t | t in ss' ensures StudentRowOk(t) {
        var i :| 0 <= i < |ss'| && ss'[i] == t;
        if i != k { assert ss[i] in ss; }
      }
      forall i, j | 0 <= i < j < |ss'| && ss'[i].email.Some? ensures ss'[i].email != ss'[j].email {
        if i == k { assert j != k && ss[j].email != s.email; }
        else if j == k { assert ss[i].email != s.email; }
      }
      forall a | a in rs ensures HasStudent(ss', a.studentId) {
        var t :| t in ss && t.id == a.studentId;
        var i :| 0 <= i < |ss| && ss[i] == t;
        assert ss'[i].id == t.id && ss'[i] in ss';
      }
    }
    if !StudentRowOk(s) {
      assert ss'[k] == s;
    }
    if EmailTakenByOther(ss, k, s.email) {
      var j :| 0 <= j < |ss| && j != k && ss[j].email == s.email;
      if j < k { assert ss'[j].email.Some? && ss'[j].email == ss'[k].email; }
      else { assert ss'[k].email.Some? && ss'[k].email == ss'[j].email; }
    }
  }

  /** A blank email field arrives as the empty string, not as NULL, so the unique
      constraint refuses a second student whose email was left blank. */
  lemma SecondBlankEmailRefused(ss: seq<Student>, rs: seq<Attendance>, s: Student)
    requires exists t | t in ss :: t.email == Some("")
    requires s.email == Some("")
    ensures !SchemaHolds(ss + [s], rs)
  {
    var t :| t in ss && t.email == Some("");
    var i :| 0 <= i < |ss| && ss[i] == t;
    var ss' := ss + [s];
    assert ss'[i] == t && ss'[|ss|] == s;
    assert !EmailsDistinct(ss');
  }

  /** `add_student`. A GET shows the form; a POST validates the roll number and the
      name, refuses a roll number already in use, and otherwise inserts the student
      and commits. */
  method AddStudent(db: Database, session: Session, form: Option<StudentForm>) returns (outcome: Outcome)
    requires db.Valid()
    modifies db
    ensures db.Valid()
    ensures outcome != Saved ==> unchanged(db)
    ensures !SignedIn(session) ==> outcome == ToLogin
    ensures SignedIn(session) && form.None? ==> outcome == FormShown
    ensures SignedIn(session) && form.Some? ==>
      var f := form.value;
      if !Given(f.roll) || !Given(f.name) then outcome == Rejected(MissingFields)
      else if RollTaken(old(db.students), f.roll.value) then outcome == Rejected(RollExists)
      else
        var s := Student(old(db.nextStudentId), f.roll.value, f.name, f.email);
        if StudentRowOk(s) && !EmailTaken(old(db.students), f.email) then
          && outcome == Saved
          && db.students == old(db.students) + [s]
          && db.records == old(db.records)
          && db.nextStudentId == old(db.nextStudentId) + 1
          && db.nextRecordId == old(db.nextRecordId)
        else outcome == ServerError
  {
    if !SignedIn(session) {
      return ToLogin;
    }
    if form.None? {
      return FormShown;
    }
    var f := form.value;
    if !Given(f.roll) || !Given(f.name) {
      return Rejected(MissingFields);
    }
    if RollTaken(db.students, f.roll.value) {
      return Rejected(RollExists);
    }
    var s := Student(db.nextStudentId, f.roll.value, f.name, f.email);
    AddStudentCommits(db.students, db.records, s);
    var ok := db.Commit(db.students + [s], db.records, db.nextStudentId + 1, db.nextRecordId);
    outcome := if ok then Saved else ServerError;
  }

  /** `list_students`: every student, unfiltered. */
  function ListStudents(db: Database, session: Session): (p: Page<seq<Student>>)
    reads db
    ensures p.Shown? <==> SignedIn(session)
    ensures p.Shown? ==> p.content == db.students
  {
    if SignedIn(session) then Shown(db.students) else LoginRedirect
  }

  /** `edit_student`. An unknown id is a 404; a GET shows the form; a POST overwrites
      the student's name and email with the submitted values, unvalidated, and commits. */
  method EditStudent(db: Database, session: Session, id: nat, form: Option<EditForm>) returns (outcome: Outcome)
    requires db.Valid()
    modifies db
    ensures db.Valid()
    ensures outcome != Saved ==> unchanged(db)
    ensures !SignedIn(session) ==> outcome == ToLogin
    ensures SignedIn(session) ==>
      match FindStudent(old(db.students), id)
      case None => outcome == NotFound
      case Some(k) =>
        if form.None? then outcome == FormShown
        else
          var s := old(db.students)[k].(name := form.value.name, email := form.value.email);
          if StudentRowOk(s) && !EmailTakenByOther(old(db.students), k, s.email) then
            && outcome == Saved
            && db.students == old(db.students)[k := s]
            && db.records == old(db.records)
            && db.nextStudentId == old(db.nextStudentId)
            && db.nextRecordId == old(db.nextRecordId)
          else outcome == ServerError
  {
    if !SignedIn(session) {
      return ToLogin;
    }
    var found := FindStudent(db.students, id);
    if found.None? {
      return NotFound;
    }
    var k := found.value;
    if form.None? {
      return FormShown;
    }
    var s := db.students[k].(name := form.value.name, email := form.value.email);
    EditStudentCommits(db.students, db.records, k, s);
    var ok := db.Commit(db.students[k := s], db.records, db.nextStudentId, db.nextRecordId);
    outcome := if ok then Saved else ServerError;
  }

  /** `delete_student`. An unknown id is a 404; otherwise the student and, by the
      cascade, all its attendance rows are deleted. */
  method DeleteStudent(db: Database, session: Session, id: nat) returns (outcome: Outcome)
    requires db.Valid()
    modifies db
    ensures db.Valid()
    ensures outcome != Saved ==> unchanged(db)
    ensures !SignedIn(session) ==> outcome == ToLogin
    ensures SignedIn(session) ==>
      match FindStudent(old(db.students), id)
      case None => outcome == NotFound
      case Some(k) =>
        && outcome == Saved
        && db.students == RemoveAt(old(db.students), k)
        && db.records == Cascade(old(db.records), id)
        && db.nextStudentId == old(db.nextStudentId)
        && db.nextRecordId == old(db.nextRecordId)
  {
    if !SignedIn(session) {
      return ToLogin;
    }
    var found := FindStudent(db.students, id);
    if found.None? {
      return NotFound;
    }
    var k := found.value;
    CascadeKeepsSchema(db.students, db.records, k);
    var ok := db.Commit(RemoveAt(db.students, k), Cascade(db.records, id), db.nextStudentId, db.nextRecordId);
    assert ok;
    outcome := Saved;
  }
}
