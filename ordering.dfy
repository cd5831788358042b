/** The order `ORDER BY roll_number` lists the roster in: code-point
    lexicographic order of the roll numbers (a binary collation). */
module Ordering {
  import opened Models

  /** `a` sorts before or equal to `b`. */
  predicate RollLe(a: string, b: string) {
    if a == [] then true
    else if b == [] then false
    else if a[0] != b[0] then a[0] < b[0]
    else RollLe(a[1..], b[1..])
  }

  lemma {:induction false} RollLeTotal(a: string, b: string)
    ensures RollLe(a, b) || RollLe(b, a)
  {
    if a != [] && b != [] && a[0] == b[0] {
      RollLeTotal(a[1..], b[1..]);
    }
  }

  lemma {:induction false} RollLeTransitive(a: string, b: string, c: string)
    requires RollLe(a, b) && RollLe(b, c)
    ensures RollLe(a, c)
  {
    if a != [] && b != [] && c != [] && a[0] == b[0] == c[0] {
      RollLeTransitive(a[1..], b[1..], c[1..]);
    }
  }

  predicate SortedByRoll(ss: seq<Student>) {
    forall i, j | 0 <= i < j < |ss| :: RollLe(ss[i].roll, ss[j].roll)
  }

  /** A student whose roll number sorts before every other one heads a sorted roster. */
  lemma ConsSorted(h: Student, rest: seq<Student>)
    requires SortedByRoll(rest) && forall x | x in rest :: RollLe(h.roll, x.roll)
    ensures SortedByRoll([h] + rest)
  {
  }

  /** The head of a sorted roster sorts before every student of its tail with `s` added. */
  lemma HeadBelowRest(ss: seq<Student>, s: Student, rest: seq<Student>)
    requires ss != [] && SortedByRoll(ss) && RollLe(ss[0].roll, s.roll)
    requires multiset(rest) == multiset(ss[1..]) + multiset{s}
    ensures forall x | x in rest :: RollLe(ss[0].roll, x.roll)
  {
    forall x | x in rest ensures RollLe(ss[0].roll, x.roll) {
      assert x in multiset(rest);
      if x != s {
        assert x in multiset(ss[1..]);
        var k :| 0 <= k < |ss[1..]| && ss[1..][k] == x;
        assert ss[k + 1] == x;
      }
    }
  }

  /** Places `s` into a roster already in roll-number order. */
  function InsertByRoll(s: Student, ss: seq<Student>): (r: seq<Student>)
    requires SortedByRoll(ss)
    ensures SortedByRoll(r)
    ensures multiset(r) == multiset(ss) + multiset{s}
  {
    if ss == [] then [s]
    else if RollLe(s.roll, ss[0].roll) then
      forall x | x in ss ensures RollLe(s.roll, x.roll) {
        if x != ss[0] {
          var k :| 0 <= k < |ss| && ss[k] == x;
          RollLeTransitive(s.roll, ss[0].roll, x.roll);
        }
      }
      ConsSorted(s, ss);
      [s] + ss
    else
      assert SortedByRoll(ss[1..]) by {
        forall i, j | 0 <= i < j < |ss[1..]| ensures RollLe(ss[1..][i].roll, ss[1..][j].roll) {
          assert ss[1..][i] == ss[i + 1] && ss[1..][j] == ss[j + 1];
        }
      }
      var rest := InsertByRoll(s, ss[1..]);
      assert ss == [ss[0]] + ss[1..];
      RollLeTotal(s.roll, ss[0].roll);
      HeadBelowRest(ss, s, rest);
      ConsSorted(ss[0], rest);
      [ss[0]] + rest
  }

  /** The roster in roll-number order: the same students, sorted. */
  function OrderByRoll(ss: seq<Student>): (r: seq<Student>)
    ensures SortedByRoll(r)
    ensures multiset(r) == multiset(ss)
  {
    if ss == [] then []
    else
      assert ss == [ss[0]] + ss[1..];
      InsertByRoll(ss[0], OrderByRoll(ss[1..]))
  }
}
