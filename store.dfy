/** The database session: the students and attendance tables, the key
    allocators, and the commit that checks the schema's constraints. */
module Store {
  import opened Models

  class Database {
    var students: seq<Student>
    var records: seq<Attendance>
    var nextStudentId: nat
    var nextRecordId: nat

    /** Every committed state satisfies the schema, and the allocators are ahead of every key. */
    ghost predicate Valid()
      reads this
    {
      Consistent(students, records, nextStudentId, nextRecordId)
    }

    /** An empty database; keys start at 1. */
    constructor ()
      ensures Valid()
      ensures students == [] && records == [] && nextStudentId == 1 && nextRecordId == 1
    {
      students, records := [], [];
      nextStudentId, nextRecordId := 1, 1;
    }

    /** Commits the staged tables: they replace the current ones when every column
        constraint holds of them; otherwise the database raises and the transaction
        is rolled back, leaving the tables as they were. */
    method Commit(ss: seq<Student>, rs: seq<Attendance>, ns: nat, nr: nat) returns (ok: bool)
      requires KeysBelow(ss, rs, ns, nr)
      modifies this
      ensures ok == SchemaHolds(ss, rs)
      ensures ok ==> students == ss && records == rs && nextStudentId == ns && nextRecordId == nr
      ensures !ok ==> unchanged(this)
      ensures ok ==> Valid()
    {
      ok := SchemaHolds(ss, rs);
      if ok {
        students, records, nextStudentId, nextRecordId := ss, rs, ns, nr;
      }
    }
  }
}
