/** The dashboard: counts over the two tables and the share of Present rows. */
module MainRoutes {
  import opened Models
  import opened Store
  import opened Web

  /** An exact non-negative rational `num / den`. */
  datatype Ratio = Ratio(num: nat, den: nat)

  /** The figures the dashboard computes. */
  datatype Summary = Summary(totalStudents: nat, attendanceDays: nat, totalRecords: nat,
                             presentCount: nat, percentage: Ratio)

  /** The dates that carry at least one row. */
  function DistinctDates(rs: seq<Attendance>): (ds: set<Date>)
    ensures forall d :: d in ds <==> exists a | a in rs :: a.date == d
    ensures |ds| <= |rs|
  {
    if rs == [] then {}
    else
      var rest := DistinctDates(rs[1..]);
      assert rs == [rs[0]] + rs[1..];
      assert |rest + {rs[0].date}| <= |rest| + 1;
      rest + {rs[0].date}
  }

  /** The rows whose status is exactly "Present". */
  function PresentRows(rs: seq<Attendance>): seq<Attendance> {
    Select(rs, (a: Attendance) => a.status == Some(Present))
  }

  /** `present / total * 100`, and 0 when there are no rows at all. */
  function Percentage(present: nat, total: nat): (p: Ratio)
    ensures p.den > 0
    ensures total == 0 ==> p.num == 0
    ensures total > 0 ==> p.num * total == 100 * present * p.den
    ensures present <= total ==> p.num <= 100 * p.den
  {
    if total == 0 then Ratio(0, 1) else Ratio(100 * present, total)
  }

  /** `dashboard`. */
  function Dashboard(db: Database, session: Session): (p: Page<Summary>)
    reads db
    ensures p.Shown? <==> SignedIn(session)
    ensures p.Shown? ==>
      var v := p.content;
      && v.totalStudents == |db.students|
      && v.totalRecords == |db.records|
      && v.attendanceDays == |DistinctDates(db.records)| <= v.totalRecords
      && (forall a | a in PresentRows(db.records) :: a in db.records && a.status == Some(Present))
      && v.presentCount == |PresentRows(db.records)| <= v.totalRecords
      && v.percentage.den > 0
      && v.percentage.num <= 100 * v.percentage.den
      && (v.totalRecords == 0 ==> v.percentage.num == 0)
      && (v.totalRecords > 0 ==> v.percentage.num * v.totalRecords == 100 * v.presentCount * v.percentage.den)
  {
    if !SignedIn(session) then LoginRedirect
    else
      var total := |db.records|;
      var present := |PresentRows(db.records)|;
      Shown(Summary(|db.students|, |DistinctDates(db.records)|, total, present, Percentage(present, total)))
  }

  /** Three Present rows out of four give 75 percent. */
  lemma ThreeOfFourIsSeventyFive()
    ensures var p := Percentage(3, 4); p.num == 75 * p.den
  {
  }
}
