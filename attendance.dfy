/** The attendance recorder and its reports: marking a date for the whole roster,
    viewing one date, a date range, and the per-student tally. */
module AttendanceRoutes {
  import opened Models
  import opened Store
  import opened Web
  import opened Ordering

  /** The marking form: the chosen date (None when missing or empty) and the
      submitted `status_<id>` fields, keyed by student id. */
  datatype MarkForm = MarkForm(date: Option<Date>, statuses: map<nat, string>)

  /** The value of the `status_<id>` field, or None when the form does not carry it. */
  function StatusField(statuses: map<nat, string>, id: nat): Option<string> {
    if id in statuses then Some(statuses[id]) else None
  }

  // ---------------------------------------------------------------------------
  // marking

  /** The rows the marking loop adds after walking `roster` in order, when `existing`
      are the rows already stored and keys are handed out from `nextId`: a student
      who is already marked for the date (by a stored row or by one added earlier in
      the same walk) is skipped; any other gets a row with its submitted status. */
  function Stage(roster: seq<Student>, existing: seq<Attendance>, date: Date,
                 statuses: map<nat, string>, nextId: nat): (staged: seq<Attendance>)
    ensures |staged| <= |roster|
    ensures forall k | 0 <= k < |staged| :: staged[k].id == nextId + k
    ensures forall a | a in staged ::
      && a.date == date
      && a.status == StatusField(statuses, a.studentId)
      && HasStudent(roster, a.studentId)
      && !IsMarked(existing, a.studentId, date)
    decreases |roster|
  {
    if roster == [] then []
    else
      var prefix := roster[..|roster| - 1];
      var s := roster[|roster| - 1];
      var before := Stage(prefix, existing, date, statuses, nextId);
      assert forall t | t in prefix :: t in roster;
      if IsMarked(existing + before, s.id, date) then before
      else
        assert s in roster;
        before + [Attendance(nextId + |before|, s.id, date, StatusField(statuses, s.id))]
  }

  /** No two rows share a student. */
  predicate DistinctStudents(rs: seq<Attendance>) {
    forall i, j | 0 <= i < j < |rs| :: rs[i].studentId != rs[j].studentId
  }

  /** Appending a row for a student with no row keeps students distinct. */
  lemma AppendNewStudent(rs: seq<Attendance>, a: Attendance)
    requires DistinctStudents(rs) && forall x | x in rs :: x.studentId != a.studentId
    ensures DistinctStudents(rs + [a])
  {
  }

  /** The walk adds at most one row per student: no two added rows share a student. */
  lemma {:induction false} StageOnePerStudent(roster: seq<Student>, existing: seq<Attendance>, date: Date,
                                              statuses: map<nat, string>, nextId: nat)
    ensures DistinctStudents(Stage(roster, existing, date, statuses, nextId))
    decreases |roster|
  {
    if roster != [] {
      var prefix := roster[..|roster| - 1];
      var s := roster[|roster| - 1];
      var before := Stage(prefix, existing, date, statuses, nextId);
      StageOnePerStudent(prefix, existing, date, statuses, nextId);
      if !IsMarked(existing + before, s.id, date) {
        forall x | x in before ensures x.studentId != s.id {
          assert x in existing + before;
        }
        AppendNewStudent(before, Attendance(nextId + |before|, s.id, date, StatusField(statuses, s.id)));
      }
    }
  }

  /** After the walk every roster student has a row for the date. */
  lemma {:induction false} StageMarksRoster(roster: seq<Student>, existing: seq<Attendance>, date: Date,
                                            statuses: map<nat, string>, nextId: nat)
    ensures forall s | s in roster :: IsMarked(existing + Stage(roster, existing, date, statuses, nextId), s.id, date)
    decreases |roster|
  {
    if roster != [] {
      var prefix := roster[..|roster| - 1];
      var last := roster[|roster| - 1];
      var before := Stage(prefix, existing, date, statuses, nextId);
      var staged := Stage(roster, existing, date, statuses, nextId);
      StageMarksRoster(prefix, existing, date, statuses, nextId);
      assert forall a | a in existing + before :: a in existing + staged;
      forall s | s in roster ensures IsMarked(existing + staged, s.id, date) {
        if s in prefix {
          var a :| a in existing + before && a.studentId == s.id && a.date == date;
          assert a in existing + staged;
        } else {
          assert roster == prefix + [last];
          if !IsMarked(existing + before, s.id, date) {
            assert (existing + staged)[|existing + staged| - 1] in existing + staged;
          }
        }
      }
    }
  }

  /** Adding a row for a (student, date) pair that has none keeps pairs single. */
  lemma AppendUnmarkedKeepsSingle(rs: seq<Attendance>, a: Attendance)
    requires SingleMarks(rs) && !IsMarked(rs, a.studentId, a.date)
    ensures SingleMarks(rs + [a])
  {
  }

  /** The walk never creates a second row for a (student, date) pair. */
  lemma StageKeepsSingleMarks(roster: seq<Student>, existing: seq<Attendance>, date: Date,
                               statuses: map<nat, string>, nextId: nat)
    requires SingleMarks(existing)
    ensures SingleMarks(existing + Stage(roster, existing, date, statuses, nextId))
  {
    StageAddsNoSecondMark(roster, existing, date, statuses, nextId);
  }

  /** Whatever the stored rows are, no row the walk adds repeats the (student, date)
      pair of a stored row or of another added row. */
  lemma StageAddsNoSecondMark(roster: seq<Student>, existing: seq<Attendance>, date: Date,
                              statuses: map<nat, string>, nextId: nat)
    ensures var rs := existing + Stage(roster, existing, date, statuses, nextId);
            forall i, j | 0 <= i < j < |rs| && |existing| <= j ::
              rs[i].studentId != rs[j].studentId || rs[i].date != rs[j].date
  {
    var staged := Stage(roster, existing, date, statuses, nextId);
    var rs := existing + staged;
    StageOnePerStudent(roster, existing, date, statuses, nextId);
    forall i, j | 0 <= i < j < |rs| && |existing| <= j
      ensures rs[i].studentId != rs[j].studentId || rs[i].date != rs[j].date
    {
      assert rs[j] == staged[j - |existing|] && rs[j] in staged;
      if i < |existing| {
        assert rs[i] == existing[i] && existing[i] in existing;
      } else {
        assert rs[i] == staged[i - |existing|];
      }
    }
  }

  /** A walk over students who are all marked for the date adds nothing. */
  lemma {:induction false} StageOfMarkedIsEmpty(roster: seq<Student>, existing: seq<Attendance>, date: Date,
                                                statuses: map<nat, string>, nextId: nat)
    requires forall s | s in roster :: IsMarked(existing, s.id, date)
    ensures Stage(roster, existing, date, statuses, nextId) == []
    decreases |roster|
  {
    if roster != [] {
      var prefix := roster[..|roster| - 1];
      assert forall t | t in prefix :: t in roster;
      StageOfMarkedIsEmpty(prefix, existing, date, statuses, nextId);
      assert existing + [] == existing;
      assert roster[|roster| - 1] in roster;
    }
  }

  /** Marking a date a second time with the same roster adds no row, whatever
      statuses the second submission carries. */
  lemma MarkTwiceAddsNothing(ss: seq<Student>, rs: seq<Attendance>, date: Date,
                             first: map<nat, string>, second: map<nat, string>, nextId: nat, nextId': nat)
    ensures var roster := OrderByRoll(ss);
            var staged := Stage(roster, rs, date, first, nextId);
            Stage(roster, rs + staged, date, second, nextId') == []
  {
    var roster := OrderByRoll(ss);
    StageMarksRoster(roster, rs, date, first, nextId);
    StageOfMarkedIsEmpty(roster, rs + Stage(roster, rs, date, first, nextId), date, second, nextId');
  }

  /** Walking the roster in roll-number order marks every student for the date. */
  lemma MarkCoversEveryStudent(ss: seq<Student>, rs: seq<Attendance>, date: Date,
                               statuses: map<nat, string>, nextId: nat)
    ensures forall s | s in ss :: IsMarked(rs + Stage(OrderByRoll(ss), rs, date, statuses, nextId), s.id, date)
  {
    var roster := OrderByRoll(ss);
    StageMarksRoster(roster, rs, date, statuses, nextId);
    forall s | s in ss ensures s in roster {
      assert s in multiset(ss);
    }
  }

  /** Appending the walk's rows to a consistent database commits exactly when every
      added row has a status that is present and fits the column; the keys stay
      below the advanced allocator. */
  lemma MarkCommits(ss: seq<Student>, rs: seq<Attendance>, ns: nat, nr: nat, roster: seq<Student>,
                    date: Date, statuses: map<nat, string>)
    requires Consistent(ss, rs, ns, nr)
    requires forall s | s in roster :: s in ss
    ensures var staged := Stage(roster, rs, date, statuses, nr);
            && KeysBelow(ss, rs + staged, ns, nr + |staged|)
            && (SchemaHolds(ss, rs + staged) <==> forall a | a in staged :: AttendanceRowOk(a))
  {
    var staged := Stage(roster, rs, date, statuses, nr);
    var rs' := rs + staged;
    forall i, j | 0 <= i < j < |rs'| ensures rs'[i].id != rs'[j].id {
      if j >= |rs| {
        assert rs'[j] == staged[j - |rs|];
        if i < |rs| { assert rs'[i] == rs[i] && rs[i] in rs; }
      } else {
        assert rs'[i] == rs[i] && rs'[j] == rs[j];
      }
    }
  }

  /** One more student of the roster: when `before` is the walk over `roster[..i]`,
      the walk over `roster[..i + 1]` adds a row for `roster[i]` to it unless that
      student is already marked. */
  lemma StageStep(roster: seq<Student>, i: nat, existing: seq<Attendance>, date: Date,
                  statuses: map<nat, string>, nextId: nat, before: seq<Attendance>)
    requires i < |roster|
    requires before == Stage(roster[..i], existing, date, statuses, nextId)
    ensures Stage(roster[..i + 1], existing, date, statuses, nextId)
              == if IsMarked(existing + before, roster[i].id, date) then before
                 else before + [Attendance(nextId + |before|, roster[i].id, date, StatusField(statuses, roster[i].id))]
  {
    var longer := roster[..i + 1];
    assert longer[..|longer| - 1] == roster[..i] && longer[|longer| - 1] == roster[i];
  }

  /** The loop of `mark_attendance`: walks the roster in the given order and
      collects the rows to add, reading the stored rows and those added so far. */
  method WalkRoster(db: Database, roster: seq<Student>, date: Date, statuses: map<nat, string>)
    returns (pending: seq<Attendance>)
    ensures pending == Stage(roster, db.records, date, statuses, db.nextRecordId)
  {
    var existing, nextId := db.records, db.nextRecordId;
    pending := [];
    for i := 0 to |roster|
      invariant pending == Stage(roster[..i], existing, date, statuses, nextId)
    {
      StageStep(roster, i, existing, date, statuses, nextId, pending);
      var student := roster[i];
      var status := StatusField(statuses, student.id);
      // the query flushes the session first, so it also sees the rows added earlier in this walk
      var marked := IsMarked(existing + pending, student.id, date);
      if !marked {
        pending := pending + [Attendance(nextId + |pending|, student.id, date, status)];
      }
    }
    assert roster[..|roster|] == roster;
  }

  /** `mark_attendance`. A GET shows the roster in roll-number order. A POST needs a
      date; it then walks the roster in roll-number order, skips every student who
      already has a row for the date, adds one row per other student with the
      submitted status (not validated), and commits once after the walk. */
  method MarkAttendance(db: Database, session: Session, form: Option<MarkForm>) returns (outcome: Outcome)
    requires db.Valid()
    modifies db
    ensures db.Valid()
    ensures outcome != Saved ==> unchanged(db)
    ensures SingleMarks(old(db.records)) ==> SingleMarks(db.records)
    ensures !SignedIn(session) ==> outcome == ToLogin
    ensures SignedIn(session) && form.None? ==> outcome == FormShown
    ensures SignedIn(session) && form.Some? && form.value.date.None? ==> outcome == Rejected(MissingDate)
    ensures SignedIn(session) && form.Some? && form.value.date.Some? ==>
      var staged := Stage(OrderByRoll(old(db.students)), old(db.records), form.value.date.value,
                          form.value.statuses, old(db.nextRecordId));
      if forall a | a in staged :: AttendanceRowOk(a) then
        && outcome == Saved
        && db.records == old(db.records) + staged
        && db.students == old(db.students)
        && db.nextRecordId == old(db.nextRecordId) + |staged|
        && db.nextStudentId == old(db.nextStudentId)
        && (forall s | s in db.students :: IsMarked(db.records, s.id, form.value.date.value))
        && forall i, j | 0 <= i < j < |db.records| && |old(db.records)| <= j ::
             db.records[i].studentId != db.records[j].studentId || db.records[i].date != db.records[j].date
      else outcome == ServerError
  {
    if !SignedIn(session) {
      return ToLogin;
    }
    var roster := OrderByRoll(db.students);
    if form.None? {
      return FormShown;
    }
    var f := form.value;
    if f.date.None? {
      return Rejected(MissingDate);
    }
    var date := f.date.value;
    var pending := WalkRoster(db, roster, date, f.statuses);
    assert forall s | s in roster :: s in db.students by {
      assert forall s | s in roster :: s in multiset(roster);
    }
    MarkCommits(db.students, db.records, db.nextStudentId, db.nextRecordId, roster, date, f.statuses);
    MarkCoversEveryStudent(db.students, db.records, date, f.statuses, db.nextRecordId);
    StageAddsNoSecondMark(roster, db.records, date, f.statuses, db.nextRecordId);
    if SingleMarks(db.records) {
      StageKeepsSingleMarks(roster, db.records, date, f.statuses, db.nextRecordId);
    }
    var ok := db.Commit(db.students, db.records + pending, db.nextStudentId, db.nextRecordId + |pending|);
    outcome := if ok then Saved else ServerError;
  }

  // ---------------------------------------------------------------------------
  // reports

  /** `view_attendance`: every row of the chosen date; nothing when no date is chosen. */
  function ViewAttendance(db: Database, session: Session, date: Option<Date>): (p: Page<seq<Attendance>>)
    reads db
    ensures p.Shown? <==> SignedIn(session)
    ensures p.Shown? && date.None? ==> p.content == []
    ensures p.Shown? && date.Some? ==> forall a :: a in p.content <==> a in db.records && a.date == date.value
    ensures p.Shown? && date.Some? ==> forall a: Attendance ::
      multiset(p.content)[a] == if a.date == date.value then multiset(db.records)[a] else 0
  {
    if !SignedIn(session) then LoginRedirect
    else if date.None? then Shown([])
    else
      var onDate := (a: Attendance) => a.date == date.value;
      SelectCounts(db.records, onDate);
      Shown(Select(db.records, onDate))
  }

  /** `date_report`: every row whose date lies in [start, end], both bounds included;
      nothing unless both bounds are given. */
  function DateReport(db: Database, session: Session, start: Option<Date>, end: Option<Date>): (p: Page<seq<Attendance>>)
    reads db
    ensures p.Shown? <==> SignedIn(session)
    ensures p.Shown? && (start.None? || end.None?) ==> p.content == []
    ensures p.Shown? && start.Some? && end.Some? ==>
      forall a :: a in p.content <==> a in db.records && start.value <= a.date <= end.value
    ensures p.Shown? && start.Some? && end.Some? ==> forall a: Attendance ::
      multiset(p.content)[a] == if start.value <= a.date <= end.value then multiset(db.records)[a] else 0
  {
    if !SignedIn(session) then LoginRedirect
    else if start.None? || end.None? then Shown([])
    else
      var inRange := (a: Attendance) => start.value <= a.date <= end.value;
      SelectCounts(db.records, inRange);
      Shown(Select(db.records, inRange))
  }

  /** The student has at least one row: the condition of the inner join. */
  predicate HasRows(rs: seq<Attendance>, id: nat) {
    exists a | a in rs :: a.studentId == id
  }

  /** The rows of one student. */
  function RowsOf(rs: seq<Attendance>, id: nat): seq<Attendance> {
    Select(rs, (a: Attendance) => a.studentId == id)
  }

  /** The rows of one student carrying one status. */
  function RowsWithStatus(rs: seq<Attendance>, id: nat, status: string): seq<Attendance> {
    Select(rs, (a: Attendance) => a.studentId == id && a.status == Some(status))
  }

  /** A student's Present and Absent rows together are at most all of its rows. */
  lemma {:induction false} PresentAbsentBound(rs: seq<Attendance>, id: nat)
    ensures |RowsWithStatus(rs, id, Present)| + |RowsWithStatus(rs, id, Absent)| <= |RowsOf(rs, id)|
  {
    if rs != [] {
      PresentAbsentBound(rs[1..], id);
    }
  }

  /** One line of the per-student report. `studentId` is the grouping key; the page shows the name. */
  datatype Tally = Tally(studentId: nat, name: Option<string>, present: nat, absent: nat)

  /** The tally of one student: its Present rows and its Absent rows. */
  function TallyOf(s: Student, rs: seq<Attendance>): (t: Tally)
    ensures t.studentId == s.id && t.name == s.name
    ensures t.present + t.absent <= |RowsOf(rs, s.id)|
  {
    PresentAbsentBound(rs, s.id);
    Tally(s.id, s.name, |RowsWithStatus(rs, s.id, Present)|, |RowsWithStatus(rs, s.id, Absent)|)
  }

  /** The grouped inner join of students with their rows, in roster order: every
      entry is the tally of a student with at least one row, and every such student
      has its tally in the result. */
  function Tallies(ss: seq<Student>, rs: seq<Attendance>): (r: seq<Tally>)
    ensures forall t | t in r :: exists s | s in ss :: t == TallyOf(s, rs) && HasRows(rs, s.id)
    ensures forall s | s in ss && HasRows(rs, s.id) :: TallyOf(s, rs) in r
  {
    if ss == [] then []
    else
      var s := ss[0];
      var rest := Tallies(ss[1..], rs);
      assert ss == [s] + ss[1..];
      assert forall x | x in ss[1..] :: x in ss;
      if HasRows(rs, s.id) then [TallyOf(s, rs)] + rest else rest
  }

  /** No two tallies are for the same student. */
  predicate OnePerStudent(r: seq<Tally>) {
    forall i, j | 0 <= i < j < |r| :: r[i].studentId != r[j].studentId
  }

  /** With distinct student keys the report has one tally per student. */
  lemma {:induction false} TalliesDistinct(ss: seq<Student>, rs: seq<Attendance>)
    requires StudentIdsDistinct(ss)
    ensures OnePerStudent(Tallies(ss, rs))
  {
    if ss != [] {
      var s := ss[0];
      var rest := Tallies(ss[1..], rs);
      assert StudentIdsDistinct(ss[1..]) by {
        forall i, j | 0 <= i < j < |ss[1..]| ensures ss[1..][i].id != ss[1..][j].id {
          assert ss[1..][i] == ss[i + 1] && ss[1..][j] == ss[j + 1];
        }
      }
      TalliesDistinct(ss[1..], rs);
      forall t | t in rest ensures t.studentId != s.id {
        var x :| x in ss[1..] && t == TallyOf(x, rs) && HasRows(rs, x.id);
        var k :| 0 <= k < |ss[1..]| && ss[1..][k] == x;
        assert ss[k + 1] == x;
      }
      var r := Tallies(ss, rs);
      assert r == if HasRows(rs, s.id) then [TallyOf(s, rs)] + rest else rest;
      if HasRows(rs, s.id) {
        forall i, j | 0 <= i < j < |r| ensures r[i].studentId != r[j].studentId {
          if i == 0 { assert r[0].studentId == s.id && r[j] == rest[j - 1] && rest[j - 1] in rest; }
          else { assert r[i] == rest[i - 1] && r[j] == rest[j - 1]; }
        }
      }
    }
  }

  lemma TalliesDistinctIf(ss: seq<Student>, rs: seq<Attendance>)
    ensures StudentIdsDistinct(ss) ==> OnePerStudent(Tallies(ss, rs))
  {
    if StudentIdsDistinct(ss) { TalliesDistinct(ss, rs); }
  }

  /** `student_report`: a tally for exactly the students with at least one row,
      counting their Present and their Absent rows; one per student. */
  function StudentReport(db: Database, session: Session): (p: Page<seq<Tally>>)
    reads db
    ensures p.Shown? <==> SignedIn(session)
    ensures p.Shown? ==> forall s | s in db.students && HasRows(db.records, s.id) ::
      exists t | t in p.content :: t.studentId == s.id && t.name == s.name
    ensures p.Shown? ==> forall t | t in p.content ::
      && (exists s | s in db.students :: t == TallyOf(s, db.records))
      && HasRows(db.records, t.studentId)
      && t.present == |RowsWithStatus(db.records, t.studentId, Present)|
      && t.absent == |RowsWithStatus(db.records, t.studentId, Absent)|
      && t.present + t.absent <= |RowsOf(db.records, t.studentId)|
    ensures p.Shown? && StudentIdsDistinct(db.students) ==> OnePerStudent(p.content)
  {
    if SignedIn(session) then
      var r := Tallies(db.students, db.records);
      assert forall s | s in db.students && HasRows(db.records, s.id) :: TallyOf(s, db.records) in r;
      TalliesDistinctIf(db.students, db.records);
      Shown(r)
    else LoginRedirect
  }
}
