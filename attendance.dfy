/** The attendance endpoints: append a row (update_attendance.php), delete a
    row of one's own (delete_student_attendance.php) or any row as an
    administrator (admin-delete-attendance.php), and the read-only views over
    the table (get_attendance.php, get_calendar_data.php,
    get_attendance_by_date.php, get_subject_attendance_dates.php). */
module Attendance {
  import opened Common
  import opened Store

  // ---------------------------------------------------------------------
  // update_attendance.php
  // ---------------------------------------------------------------------

  /** Records one attendance mark for today. The posted subject must be
      positive and the status 'present' or 'absent'; the date is always the
      server's current date (CURDATE()), whatever the client sent. */
  method UpdateAttendance(db: Database, session: Session, verb: RequestMethod,
                          subjectId: int, status: string, today: Date)
    returns (reply: Outcome<string>)
    requires db.Valid() && session.Valid()
    modifies db
    ensures db.Valid()
    ensures !session.loggedIn ==> reply == Failure(NotAuthenticated)
    ensures session.loggedIn && verb != Post ==> reply == Failure(InvalidRequestMethod)
    ensures session.loggedIn && verb == Post && (subjectId <= 0 || ParseStatus(status).None?) ==>
              reply == Failure("Invalid input")
    ensures reply.Failure? ==> unchanged(db)
    ensures reply.Success? <==> session.loggedIn && verb == Post && subjectId > 0 && ParseStatus(status).Some?
    ensures reply.Success? ==>
              reply.value == "Attendance updated successfully"
              && db.attendance == old(db.attendance)
                   + [AttendanceRow(old(db.nextAttendanceId), session.studentId.value, subjectId as nat,
                                    today, ParseStatus(status).value)]
              && db.nextAttendanceId == old(db.nextAttendanceId) + 1
              && db.students == old(db.students) && db.subjects == old(db.subjects) && db.marks == old(db.marks)
              && db.nextStudentId == old(db.nextStudentId) && db.nextSubjectId == old(db.nextSubjectId)
  {
    if !session.loggedIn {
      return Failure(NotAuthenticated);
    }
    if verb != Post {
      return Failure(InvalidRequestMethod);
    }
    var parsed := ParseStatus(status);
    if subjectId <= 0 || parsed.None? {
      return Failure("Invalid input");
    }
    var row := AttendanceRow(db.nextAttendanceId, session.studentId.value, subjectId as nat, today, parsed.value);
    ghost var before := db.attendance;
    db.attendance := db.attendance + [row];
    db.nextAttendanceId := db.nextAttendanceId + 1;
    assert AttendanceIds(db.attendance) == AttendanceIds(before) + [row.id];
    reply := Success("Attendance updated successfully");
  }

  // ---------------------------------------------------------------------
  // Deleting rows
  // ---------------------------------------------------------------------

  /** The rows `DELETE ... WHERE id = ? AND student_id = ?` leaves behind. */
  function WithoutOwnRow(rows: seq<AttendanceRow>, id: int, student: nat): seq<AttendanceRow> {
    Filter(rows, (r: AttendanceRow) => !(r.id == id && r.student == student))
  }

  /** The rows `DELETE ... WHERE id = ?` leaves behind. */
  function WithoutRow(rows: seq<AttendanceRow>, id: int): seq<AttendanceRow> {
    Filter(rows, (r: AttendanceRow) => r.id != id)
  }

  /** Deleting by a unique id removes at most one row, and keeps every row
      with another id, in order. */
  lemma DeleteByIdRemovesAtMostOne(rows: seq<AttendanceRow>, id: int)
    requires IdsIncreasing(AttendanceIds(rows))
    ensures |WithoutRow(rows, id)| + 1 >= |rows|
    ensures forall r :: r in rows && r.id != id ==> r in WithoutRow(rows, id)
    ensures IsSubsequence(WithoutRow(rows, id), rows)
  {
    DeleteByIdCount(rows, id);
    forall r | r in rows && r.id != id
      ensures r in WithoutRow(rows, id)
    {
      FilterMembership(rows, (x: AttendanceRow) => x.id != id, r);
    }
    FilterIsSubsequence(rows, (x: AttendanceRow) => x.id != id);
  }

  lemma {:induction false} DeleteByIdCount(rows: seq<AttendanceRow>, id: int)
    requires IdsIncreasing(AttendanceIds(rows))
    ensures |WithoutRow(rows, id)| + 1 >= |rows|
    ensures (forall k :: 0 <= k < |rows| - 1 ==> rows[k].id != id) || |WithoutRow(rows, id)| + 1 == |rows|
    decreases |rows|
  {
    if |rows| > 0 {
      var init := rows[..|rows| - 1];
      assert AttendanceIds(init) == AttendanceIds(rows)[..|rows| - 1];
      DeleteByIdCount(init, id);
      if rows[|rows| - 1].id == id {
        // every earlier id is smaller, so no earlier row is removed
        assert forall k :: 0 <= k < |init| ==> init[k].id != id by {
          forall k | 0 <= k < |init|
            ensures init[k].id != id
          {
            assert AttendanceIds(rows)[k] < AttendanceIds(rows)[|rows| - 1];
          }
        }
        FilterAll(init, (x: AttendanceRow) => x.id != id);
      }
    }
  }

  /** Removes the attendance row with the given id if it belongs to the
      logged-in student. Success exactly when a row was removed; a missing
      row and someone else's row give the same message. */
  method DeleteStudentAttendance(db: Database, session: Session, verb: RequestMethod, attendanceId: int)
    returns (reply: Outcome<string>)
    requires db.Valid() && session.Valid()
    modifies db
    ensures db.Valid()
    ensures !session.loggedIn ==> reply == Failure(NotAuthenticated) && unchanged(db)
    ensures session.loggedIn && verb != Post ==> reply == Failure(InvalidRequestMethod) && unchanged(db)
    ensures session.loggedIn && verb == Post && attendanceId == 0 ==>
              reply == Failure("Attendance ID is required") && unchanged(db)
    ensures session.loggedIn && verb == Post && attendanceId != 0 ==>
              var student := session.studentId.value;
              db.attendance == WithoutOwnRow(old(db.attendance), attendanceId, student)
              && (reply.Success? <==> exists r :: r in old(db.attendance) && r.id == attendanceId && r.student == student)
              && (reply.Success? ==> reply.value == "Attendance record deleted successfully")
              && (reply.Failure? ==> reply.message == "Attendance record not found or you do not have permission to delete it"
                                     && db.attendance == old(db.attendance))
    ensures db.students == old(db.students) && db.subjects == old(db.subjects) && db.marks == old(db.marks)
    ensures db.nextAttendanceId == old(db.nextAttendanceId)
  {
    if !session.loggedIn {
      return Failure(NotAuthenticated);
    }
    if verb != Post {
      return Failure(InvalidRequestMethod);
    }
    if attendanceId == 0 {
      return Failure("Attendance ID is required");
    }
    var student := session.studentId.value;
    var before := db.attendance;
    var p := (r: AttendanceRow) => !(r.id == attendanceId && r.student == student);
    db.attendance := Filter(before, p);
    FilteredStaysValid(before, p, db.nextAttendanceId);
    FilterKeepsAll(before, p);
    var affected := |before| - |db.attendance|;
    if affected > 0 {
      reply := Success("Attendance record deleted successfully");
    } else {
      FilterAll(before, p);
      reply := Failure("Attendance record not found or you do not have permission to delete it");
    }
  }

  /** Removes the attendance row with the given id, whoever owns it. The
      administrator check lives in check_admin_auth.php, which is not part of
      this model. */
  method AdminDeleteAttendance(db: Database, verb: RequestMethod, id: int)
    returns (reply: Outcome<string>)
    requires db.Valid()
    modifies db
    ensures db.Valid()
    ensures verb != Post ==> reply == Failure(InvalidRequestMethod) && unchanged(db)
    ensures verb == Post && id == 0 ==> reply == Failure("Attendance ID is required") && unchanged(db)
    ensures verb == Post && id != 0 ==>
              db.attendance == WithoutRow(old(db.attendance), id)
              && |db.attendance| + 1 >= |old(db.attendance)|
              && (reply.Success? <==> exists r :: r in old(db.attendance) && r.id == id)
              && (reply.Success? ==> reply.value == "Attendance record deleted successfully")
              && (reply.Failure? ==> reply.message == "Attendance record not found"
                                     && db.attendance == old(db.attendance))
    ensures db.students == old(db.students) && db.subjects == old(db.subjects) && db.marks == old(db.marks)
    ensures db.nextAttendanceId == old(db.nextAttendanceId)
  {
    if verb != Post {
      return Failure(InvalidRequestMethod);
    }
    if id == 0 {
      return Failure("Attendance ID is required");
    }
    var before := db.attendance;
    var p := (r: AttendanceRow) => r.id != id;
    db.attendance := Filter(before, p);
    FilteredStaysValid(before, p, db.nextAttendanceId);
    FilterKeepsAll(before, p);
    DeleteByIdCount(before, id);
    var affected := |before| - |db.attendance|;
    if affected > 0 {
      reply := Success("Attendance record deleted successfully");
    } else {
      FilterAll(before, p);
      reply := Failure("Attendance record not found");
    }
  }

  /** Removing rows keeps the ids strictly increasing and below the next id. */
  lemma FilteredStaysValid(rows: seq<AttendanceRow>, p: AttendanceRow -> bool, bound: nat)
    requires IdsIncreasing(AttendanceIds(rows))
    requires forall i :: 0 <= i < |rows| ==> rows[i].id < bound
    ensures IdsIncreasing(AttendanceIds(Filter(rows, p)))
    ensures forall i :: 0 <= i < |Filter(rows, p)| ==> Filter(rows, p)[i].id < bound
  {
    FilterIncreasing(rows, p);
    var f := Filter(rows, p);
    forall i | 0 <= i < |f|
      ensures f[i].id < bound
    {
      FilterMembership(rows, p, f[i]);
    }
  }

  lemma {:induction false} FilterIncreasing(rows: seq<AttendanceRow>, p: AttendanceRow -> bool)
    requires IdsIncreasing(AttendanceIds(rows))
    ensures IdsIncreasing(AttendanceIds(Filter(rows, p)))
    decreases |rows|
  {
    if |rows| > 0 {
      var init := rows[..|rows| - 1];
      var last := rows[|rows| - 1];
      assert AttendanceIds(init) == AttendanceIds(rows)[..|rows| - 1];
      FilterIncreasing(init, p);
      var f := Filter(init, p);
      if p(last) {
        forall k | 0 <= k < |f|
          ensures f[k].id < last.id
        {
          FilterMembership(init, p, f[k]);
          var j :| 0 <= j < |init| && init[j] == f[k];
          assert AttendanceIds(rows)[j] < AttendanceIds(rows)[|rows| - 1];
        }
        assert Filter(rows, p) == f + [last];
        assert AttendanceIds(f + [last]) == AttendanceIds(f) + [last.id];
      } else {
        assert Filter(rows, p) == f;
      }
    }
  }

  // ---------------------------------------------------------------------
  // get_attendance.php
  // ---------------------------------------------------------------------

  /** Per-subject figures as the SQL query reports them. */
  datatype SubjectStat = SubjectStat(id: nat, name: string, code: string,
                                     percentage: real, present: nat, total: nat)

  datatype AttendanceSummary = AttendanceSummary(overall: real, subjects: seq<SubjectStat>)

  /** The student's rows for one subject (the LEFT JOIN condition). */
  function RowsFor(rows: seq<AttendanceRow>, student: nat, subject: nat): seq<AttendanceRow> {
    Filter(rows, (r: AttendanceRow) => r.student == student && r.subject == subject)
  }

  function PresentCount(rows: seq<AttendanceRow>, student: nat, subject: nat): nat {
    |Filter(RowsFor(rows, student, subject), (r: AttendanceRow) => r.status == Present)|
  }

  /** `CASE WHEN COUNT(a.id) > 0 THEN ROUND((present / total) * 100, 2) ELSE 0`.
      MySQL divides two integers to four decimals before scaling. */
  function SqlPercentage(present: nat, total: nat): real {
    if total > 0 then Round2(Round4(present as real / total as real) * 100.0) else 0.0
  }

  /** PHP's `round(($present / $total) * 100, 2)`, or 0 for no classes. */
  function Percentage(present: nat, total: nat): real {
    if total > 0 then Round2(present as real / total as real * 100.0) else 0.0
  }

  /** One result row of the aggregate query. */
  function StatFor(rows: seq<AttendanceRow>, student: nat, s: SubjectRow): SubjectStat {
    var present := PresentCount(rows, student, s.id);
    var total := |RowsFor(rows, student, s.id)|;
    SubjectStat(s.id, s.name, s.code, SqlPercentage(present, total), present, total)
  }

  function SumPresent(stats: seq<SubjectStat>): nat {
    if |stats| == 0 then 0 else SumPresent(stats[..|stats| - 1]) + stats[|stats| - 1].present
  }

  function SumTotal(stats: seq<SubjectStat>): nat {
    if |stats| == 0 then 0 else SumTotal(stats[..|stats| - 1]) + stats[|stats| - 1].total
  }

  /** The rounding MySQL does in two steps lands on the same value as one
      two-decimal rounding of the percentage. */
  lemma SqlPercentageIsPercentage(present: nat, total: nat)
    ensures SqlPercentage(present, total) == Percentage(present, total)
  {
    if total > 0 {
      var q := present as real / total as real;
      var r4 := Round4(q);
      var n := (r4 * 10000.0).Floor;
      assert n >= 0;
      assert r4 * 100.0 == n as real / 100.0;
      Round2OnGrid(n as nat);
      var r2 := Round2(q * 100.0);
      var m := (r2 * 100.0).Floor;
      assert m as real - 0.5 <= q * 10000.0 < m as real + 0.5;
      assert m == n;
    }
  }

  /** A ratio of at most one, as a percentage, stays in [0, 100]. */
  lemma PercentageBounded(present: nat, total: nat)
    requires present <= total
    ensures 0.0 <= Percentage(present, total) <= 100.0
  {
    if total > 0 {
      var q := present as real / total as real;
      assert q * total as real == present as real;
      assert q <= 1.0;
      Round2Bounded(q * 100.0);
    }
  }

  /** Present rows are a part of the subject's rows. */
  lemma PresentAtMostTotal(rows: seq<AttendanceRow>, student: nat, subject: nat)
    ensures PresentCount(rows, student, subject) <= |RowsFor(rows, student, subject)|
  {
    var sub := RowsFor(rows, student, subject);
    FilterMonotone(sub, (r: AttendanceRow) => r.status == Present, (r: AttendanceRow) => true);
    FilterAll(sub, (r: AttendanceRow) => true);
  }

  /** Every class attended gives 100. */
  lemma FullPercentage(n: nat)
    requires n > 0
    ensures Percentage(n, n) == 100.0
  {
    assert n as real / n as real == 1.0;
    Round2OnGrid(10000);
  }

  /** What the source promises of one subject's figures: present never
      exceeds total, both are 0 without rows, and the percentage lies in
      [0, 100], is 0 without rows and 100 when every row is present. */
  lemma StatProperties(rows: seq<AttendanceRow>, student: nat, s: SubjectRow)
    ensures var st := StatFor(rows, student, s);
            st.id == s.id && st.name == s.name && st.code == s.code
            && st.present <= st.total
            && 0.0 <= st.percentage <= 100.0
            && (st.total == 0 ==> st.percentage == 0.0 && st.present == 0)
            && (st.total > 0 && st.present == st.total ==> st.percentage == 100.0)
            && st.percentage == Percentage(st.present, st.total)
  {
    var present := PresentCount(rows, student, s.id);
    var total := |RowsFor(rows, student, s.id)|;
    PresentAtMostTotal(rows, student, s.id);
    SqlPercentageIsPercentage(present, total);
    PercentageBounded(present, total);
    if total > 0 && present == total {
      FullPercentage(total);
    }
  }

  /** Present rows are counted only among the student's rows for the subject. */
  lemma PresentCountsOwnRows(rows: seq<AttendanceRow>, student: nat, subject: nat, r: AttendanceRow)
    ensures r in Filter(RowsFor(rows, student, subject), (x: AttendanceRow) => x.status == Present)
            <==> r in rows && r.student == student && r.subject == subject && r.status == Present
  {
    FilterMembership(RowsFor(rows, student, subject), (x: AttendanceRow) => x.status == Present, r);
    FilterMembership(rows, (x: AttendanceRow) => x.student == student && x.subject == subject, r);
  }

  lemma {:induction false} SumPresentAtMostTotal(stats: seq<SubjectStat>)
    requires forall i :: 0 <= i < |stats| ==> stats[i].present <= stats[i].total
    ensures SumPresent(stats) <= SumTotal(stats)
    decreases |stats|
  {
    if |stats| > 0 {
      SumPresentAtMostTotal(stats[..|stats| - 1]);
    }
  }

  /** The aggregate query's rows: one per owned subject, in id order. */
  function Stats(rows: seq<AttendanceRow>, subjects: seq<SubjectRow>, student: nat): (r: seq<SubjectStat>)
    ensures |r| == |OwnedSubjects(subjects, student)|
  {
    var owned := OwnedSubjects(subjects, student);
    seq(|owned|, i requires 0 <= i < |owned| => StatFor(rows, student, owned[i]))
  }

  /** The whole reply as a function of the tables. */
  function Summary(rows: seq<AttendanceRow>, subjects: seq<SubjectRow>, student: nat): AttendanceSummary {
    var stats := Stats(rows, subjects, student);
    AttendanceSummary(Percentage(SumPresent(stats), SumTotal(stats)), stats)
  }

  /** The overall figure is the ratio of all present rows to all rows over the
      listed subjects, and stays in [0, 100]. */
  lemma OverallBounded(rows: seq<AttendanceRow>, subjects: seq<SubjectRow>, student: nat)
    ensures var s := Summary(rows, subjects, student);
            0.0 <= s.overall <= 100.0
            && (SumTotal(s.subjects) == 0 ==> s.overall == 0.0)
  {
    var s := Summary(rows, subjects, student);
    forall i | 0 <= i < |s.subjects|
      ensures s.subjects[i].present <= s.subjects[i].total
    {
      var owned := OwnedSubjects(subjects, student);
      StatProperties(rows, student, owned[i]);
    }
    SumPresentAtMostTotal(s.subjects);
    PercentageBounded(SumPresent(s.subjects), SumTotal(s.subjects));
  }

  /** Some subject of the student has this id. */
  predicate OwnSubjectId(subjects: seq<SubjectRow>, student: nat, id: nat) {
    exists sub :: sub in subjects && sub.student == student && sub.id == id
  }

  /** Every subject of the student is listed exactly once, nothing else is
      listed, and the list is in id order. */
  lemma SummaryListsOwnSubjectsInIdOrder(rows: seq<AttendanceRow>, subjects: seq<SubjectRow>, student: nat)
    requires IdsIncreasing(SubjectIds(subjects))
    ensures var st := Stats(rows, subjects, student);
            (forall i, j :: 0 <= i < j < |st| ==> st[i].id < st[j].id)
            && (forall sub :: sub in subjects && sub.student == student ==>
                  exists i :: 0 <= i < |st| && st[i].id == sub.id)
            && (forall i :: 0 <= i < |st| ==> OwnSubjectId(subjects, student, st[i].id))
  {
    var owned := OwnedSubjects(subjects, student);
    var st := Stats(rows, subjects, student);
    StatsFollowOwned(rows, subjects, student);
    assert forall i :: 0 <= i < |st| ==> StatIds(st)[i] == st[i].id;
    OwnedIdsIncrease(subjects, student);
    OwnedIdsComplete(subjects, student);
    OwnedIdsSound(subjects, student);
    forall i | 0 <= i < |st|
      ensures OwnSubjectId(subjects, student, st[i].id)
    {
      assert SubjectIds(owned)[i] == owned[i].id;
      assert owned[i] in subjects && owned[i].student == student && owned[i].id == st[i].id;
    }
  }

  lemma OwnedIdsIncrease(subjects: seq<SubjectRow>, student: nat)
    requires IdsIncreasing(SubjectIds(subjects))
    ensures IdsIncreasing(SubjectIds(OwnedSubjects(subjects, student)))
  {
    OwnedIncreasing(subjects, (s: SubjectRow) => s.student == student);
  }

  lemma OwnedIdsComplete(subjects: seq<SubjectRow>, student: nat)
    ensures var ids := SubjectIds(OwnedSubjects(subjects, student));
            forall sub :: sub in subjects && sub.student == student ==>
              exists i :: 0 <= i < |ids| && ids[i] == sub.id
  {
    var owned := OwnedSubjects(subjects, student);
    var ids := SubjectIds(owned);
    var p := (s: SubjectRow) => s.student == student;
    forall sub | sub in subjects && sub.student == student
      ensures exists i :: 0 <= i < |ids| && ids[i] == sub.id
    {
      FilterMembership(subjects, p, sub);
      var i :| 0 <= i < |owned| && owned[i] == sub;
      assert ids[i] == sub.id;
    }
  }

  lemma OwnedIdsSound(subjects: seq<SubjectRow>, student: nat)
    ensures var owned := OwnedSubjects(subjects, student);
            forall i :: 0 <= i < |owned| ==>
              owned[i] in subjects && owned[i].student == student
  {
    var owned := OwnedSubjects(subjects, student);
    var p := (s: SubjectRow) => s.student == student;
    forall i | 0 <= i < |owned|
      ensures owned[i] in subjects && owned[i].student == student
    {
      FilterMembership(subjects, p, owned[i]);
    }
  }

  function StatIds(stats: seq<SubjectStat>): seq<nat> {
    seq(|stats|, i requires 0 <= i < |stats| => stats[i].id)
  }

  lemma StatsFollowOwned(rows: seq<AttendanceRow>, subjects: seq<SubjectRow>, student: nat)
    ensures StatIds(Stats(rows, subjects, student)) == SubjectIds(OwnedSubjects(subjects, student))
  {
  }

  lemma {:induction false} OwnedIncreasing(rows: seq<SubjectRow>, p: SubjectRow -> bool)
    requires IdsIncreasing(SubjectIds(rows))
    ensures IdsIncreasing(SubjectIds(Filter(rows, p)))
    decreases |rows|
  {
    if |rows| > 0 {
      var init := rows[..|rows| - 1];
      var last := rows[|rows| - 1];
      assert SubjectIds(init) == SubjectIds(rows)[..|rows| - 1];
      OwnedIncreasing(init, p);
      var f := Filter(init, p);
      if p(last) {
        forall k | 0 <= k < |f|
          ensures f[k].id < last.id
        {
          FilterMembership(init, p, f[k]);
          var j :| 0 <= j < |init| && init[j] == f[k];
          assert SubjectIds(rows)[j] < SubjectIds(rows)[|rows| - 1];
        }
        assert Filter(rows, p) == f + [last];
        assert SubjectIds(f + [last]) == SubjectIds(f) + [last.id];
      } else {
        assert Filter(rows, p) == f;
      }
    }
  }

  /** get_attendance.php: one row per subject from the aggregate query, with
      the loop summing present and total counts for the overall figure. */
  method GetAttendance(db: Database, session: Session) returns (reply: Outcome<AttendanceSummary>)
    requires session.Valid()
    ensures !session.loggedIn ==> reply == Failure(NotAuthenticated)
    ensures session.loggedIn ==>
              reply == Success(Summary(db.attendance, db.subjects, session.studentId.value))
  {
    if !session.loggedIn {
      return Failure(NotAuthenticated);
    }
    var student := session.studentId.value;
    // the aggregate query's result set
    var result := Stats(db.attendance, db.subjects, student);
    var stats: seq<SubjectStat> := [];
    var totalPresent: nat := 0;
    var totalClasses: nat := 0;
    for i := 0 to |result|
      invariant stats == result[..i]
      invariant totalPresent == SumPresent(stats) && totalClasses == SumTotal(stats)
    {
      var row := result[i];
      assert result[..i + 1] == stats + [row];
      stats := stats + [row];
      totalPresent := totalPresent + row.present;
      totalClasses := totalClasses + row.total;
    }
    assert stats == result;
    var overall := Percentage(totalPresent, totalClasses);
    reply := Success(AttendanceSummary(overall, stats));
  }

  // ---------------------------------------------------------------------
  // get_calendar_data.php
  // ---------------------------------------------------------------------

  /** A query-string number: absent (the current date fills in), numeric
      (the value bind_param("i") sends) or not numeric. */
  datatype NumArg = Unset | Numeric(value: int) | NotNumeric

  datatype DayCount = DayCount(present: nat, absent: nat)

  datatype CalendarData = CalendarData(year: int, month: int, days: map<Date, DayCount>)

  /** `WHERE student_id = ? AND YEAR(date) = ? AND MONTH(date) = ?` */
  function MonthRows(rows: seq<AttendanceRow>, student: nat, year: int, month: int): seq<AttendanceRow> {
    Filter(rows, (r: AttendanceRow) => r.student == student && r.date.year == year && r.date.month == month)
  }

  function CountOn(rows: seq<AttendanceRow>, d: Date, status: Status): nat {
    |Filter(rows, (r: AttendanceRow) => r.date == d && r.status == status)|
  }

  /** The (date, status) pairs of the rows, each once: the GROUP BY groups. */
  function GroupKeys(rows: seq<AttendanceRow>): seq<(Date, Status)> {
    Dedup(seq(|rows|, i requires 0 <= i < |rows| => (rows[i].date, rows[i].status)))
  }

  lemma GroupKeyMembership(rows: seq<AttendanceRow>, d: Date, st: Status)
    ensures (d, st) in GroupKeys(rows) <==> exists r :: r in rows && r.date == d && r.status == st
  {
    var pairs := seq(|rows|, i requires 0 <= i < |rows| => (rows[i].date, rows[i].status));
    if exists r :: r in rows && r.date == d && r.status == st {
      var r :| r in rows && r.date == d && r.status == st;
      var i :| 0 <= i < |rows| && rows[i] == r;
      assert pairs[i] == (d, st);
    }
  }

  /** A status that never occurs on a day is counted 0 there. */
  lemma CountOnAbsentPair(rows: seq<AttendanceRow>, d: Date, st: Status)
    requires (d, st) !in GroupKeys(rows)
    ensures CountOn(rows, d, st) == 0
  {
    GroupKeyMembership(rows, d, st);
    FilterNone(rows, (r: AttendanceRow) => r.date == d && r.status == st);
  }

  /** The value one pass of the loop gives a date from the groups seen so far. */
  function DayFromGroups(keys: seq<(Date, Status)>, rows: seq<AttendanceRow>, d: Date): DayCount {
    DayCount(if (d, Present) in keys then CountOn(rows, d, Present) else 0,
             if (d, Absent) in keys then CountOn(rows, d, Absent) else 0)
  }

  /** get_calendar_data.php: for each GROUP BY (date, status) row, creates
      the date's entry with both counts 0 if missing, then sets that
      status's count. */
  method GetCalendarData(db: Database, session: Session, year: NumArg, month: NumArg, today: Date)
    returns (reply: Outcome<CalendarData>)
    requires session.Valid()
    ensures !session.loggedIn ==> reply == Failure(NotAuthenticated)
    ensures session.loggedIn && (year.NotNumeric? || month.NotNumeric?) ==>
              reply == Failure("Invalid year or month")
    ensures reply.Success? <==> session.loggedIn && !year.NotNumeric? && !month.NotNumeric?
    ensures reply.Success? ==>
              var y := if year.Unset? then today.year else year.value;
              var m := if month.Unset? then today.month else month.value;
              var rows := MonthRows(db.attendance, session.studentId.value, y, m);
              reply.value.year == y && reply.value.month == m
              && (forall d :: d in reply.value.days <==> exists r :: r in rows && r.date == d)
              && (forall d :: d in reply.value.days ==>
                    reply.value.days[d] == DayCount(CountOn(rows, d, Present), CountOn(rows, d, Absent)))
  {
    if !session.loggedIn {
      return Failure(NotAuthenticated);
    }
    var y := if year.Unset? then today.year else if year.Numeric? then year.value else 0;
    var m := if month.Unset? then today.month else if month.Numeric? then month.value else 0;
    if year.NotNumeric? || month.NotNumeric? {
      return Failure("Invalid year or month");
    }
    var rows := MonthRows(db.attendance, session.studentId.value, y, m);
    var keys := GroupKeys(rows);
    var days: map<Date, DayCount> := map[];
    for i := 0 to |keys|
      invariant forall d :: d in days <==> (d, Present) in keys[..i] || (d, Absent) in keys[..i]
      invariant forall d :: d in days ==> days[d] == DayFromGroups(keys[..i], rows, d)
    {
      var (d, st) := keys[i];
      var count := CountOn(rows, d, st);
      assert keys[..i + 1] == keys[..i] + [keys[i]];
      if d !in days {
        days := days[d := DayCount(0, 0)];
      }
      // the group for (d, st) is seen once: keys are distinct
      assert (d, st) !in keys[..i];
      if st == Present {
        days := days[d := days[d].(present := count)];
      } else {
        days := days[d := days[d].(absent := count)];
      }
    }
    assert keys[..|keys|] == keys;
    forall d | d in days
      ensures days[d] == DayCount(CountOn(rows, d, Present), CountOn(rows, d, Absent))
    {
      if (d, Present) !in keys { CountOnAbsentPair(rows, d, Present); }
      if (d, Absent) !in keys { CountOnAbsentPair(rows, d, Absent); }
    }
    forall d
      ensures d in days <==> exists r :: r in rows && r.date == d
    {
      GroupKeyMembership(rows, d, Present);
      GroupKeyMembership(rows, d, Absent);
    }
    reply := Success(CalendarData(y, m, days));
  }

  /** A day in the map always has at least one mark. */
  lemma CalendarDaysAreNonEmpty(rows: seq<AttendanceRow>, d: Date)
    requires exists r :: r in rows && r.date == d
    ensures CountOn(rows, d, Present) + CountOn(rows, d, Absent) > 0
  {
    var r :| r in rows && r.date == d;
    FilterMembership(rows, (x: AttendanceRow) => x.date == d && x.status == r.status, r);
  }

  // ---------------------------------------------------------------------
  // get_attendance_by_date.php
  // ---------------------------------------------------------------------

  /** The `date` query parameter: missing or PHP-empty, a date, or text that
      is not a date (compares equal to no DATE value). */
  datatype DateArg = Blank | Day(date: Date) | Garbage(text: string)

  datatype DayEntry = DayEntry(attendanceId: nat, subjectName: string, subjectCode: string, status: Status)

  datatype DayListing = DayListing(date: DateArg, entries: seq<DayEntry>)

  /** The subject row with the given id, if any (ids are unique). */
  function SubjectById(subjects: seq<SubjectRow>, id: nat): (r: Option<SubjectRow>)
    ensures r.Some? ==> r.value in subjects && r.value.id == id
    ensures r.None? ==> forall s :: s in subjects ==> s.id != id
  {
    if |subjects| == 0 then None
    else if subjects[0].id == id then Some(subjects[0])
    else SubjectById(subjects[1..], id)
  }

  /** `JOIN subjects s ON a.subject_id = s.id`: rows without a subject drop
      out, and every row whose subject exists yields its entry. */
  function JoinSubjects(rows: seq<AttendanceRow>, subjects: seq<SubjectRow>): (r: seq<DayEntry>)
    ensures |r| <= |rows|
    ensures forall i :: 0 <= i < |rows| && SubjectById(subjects, rows[i].subject).Some? ==>
              var s := SubjectById(subjects, rows[i].subject).value;
              DayEntry(rows[i].id, s.name, s.code, rows[i].status) in r
  {
    if |rows| == 0 then []
    else
      var rest := JoinSubjects(rows[1..], subjects);
      assert forall i :: 1 <= i < |rows| ==> rows[i] == rows[1..][i - 1];
      match SubjectById(subjects, rows[0].subject)
      case None => rest
      case Some(s) => [DayEntry(rows[0].id, s.name, s.code, rows[0].status)] + rest
  }

  /** With unique subject ids, the subject a row names is the one found. */
  lemma {:induction false} SubjectByIdFinds(subjects: seq<SubjectRow>, s: SubjectRow)
    requires IdsIncreasing(SubjectIds(subjects)) && s in subjects
    ensures SubjectById(subjects, s.id) == Some(s)
    decreases |subjects|
  {
    if subjects[0] != s {
      var k :| 0 <= k < |subjects| && subjects[k] == s;
      assert SubjectIds(subjects)[0] < SubjectIds(subjects)[k];
      assert SubjectIds(subjects[1..]) == SubjectIds(subjects)[1..];
      assert subjects[1..][k - 1] == s;
      SubjectByIdFinds(subjects[1..], s);
    }
  }

  /** With increasing attendance ids, the joined entries' ids strictly
      increase: no row is listed twice. */
  lemma {:induction false} JoinedIdsIncrease(rows: seq<AttendanceRow>, subjects: seq<SubjectRow>)
    requires IdsIncreasing(AttendanceIds(rows))
    ensures var j := JoinSubjects(rows, subjects);
            forall a, b :: 0 <= a < b < |j| ==> j[a].attendanceId < j[b].attendanceId
    decreases |rows|
  {
    if |rows| > 0 {
      var rest := JoinSubjects(rows[1..], subjects);
      assert AttendanceIds(rows[1..]) == AttendanceIds(rows)[1..];
      JoinedIdsIncrease(rows[1..], subjects);
      forall k | 0 <= k < |rest|
        ensures rows[0].id < rest[k].attendanceId
      {
        JoinedEntryOrigin(rows[1..], subjects, rest[k]);
        var r, s :| r in rows[1..] && s in subjects && r.subject == s.id
                    && rest[k] == DayEntry(r.id, s.name, s.code, r.status);
        var i :| 0 <= i < |rows[1..]| && rows[1..][i] == r;
        assert AttendanceIds(rows)[0] < AttendanceIds(rows)[i + 1];
      }
    }
  }

  /** In a list whose ids strictly increase, a listed entry occurs once. */
  lemma {:induction false} ListedOnce(j: seq<DayEntry>, e: DayEntry)
    requires forall a, b :: 0 <= a < b < |j| ==> j[a].attendanceId < j[b].attendanceId
    requires e in j
    ensures multiset(j)[e] == 1
    decreases |j|
  {
    assert j == [j[0]] + j[1..];
    if j[0] == e {
      forall k | 0 <= k < |j[1..]|
        ensures j[1..][k] != e
      {
        assert j[0].attendanceId < j[k + 1].attendanceId;
      }
    } else {
      ListedOnce(j[1..], e);
    }
  }

  function DayRows(rows: seq<AttendanceRow>, student: nat, d: Date): seq<AttendanceRow> {
    Filter(rows, (r: AttendanceRow) => r.student == student && r.date == d)
  }

  predicate NameLe(a: DayEntry, b: DayEntry) {
    StrLe(a.subjectName, b.subjectName)
  }

  lemma NameLeTotalPreorder()
    ensures TotalPreorder(NameLe)
  {
    forall a: DayEntry, b: DayEntry
      ensures NameLe(a, b) || NameLe(b, a)
    {
      StrLeTotal(a.subjectName, b.subjectName);
    }
    forall a: DayEntry, b: DayEntry, c: DayEntry | NameLe(a, b) && NameLe(b, c)
      ensures NameLe(a, c)
    {
      StrLeTransitive(a.subjectName, b.subjectName, c.subjectName);
    }
  }

  /** Every joined entry comes from one of the rows, with that row's subject. */
  lemma {:induction false} JoinedEntryOrigin(rows: seq<AttendanceRow>, subjects: seq<SubjectRow>, e: DayEntry)
    requires e in JoinSubjects(rows, subjects)
    ensures exists r, s :: r in rows && s in subjects && r.subject == s.id
              && e == DayEntry(r.id, s.name, s.code, r.status)
    decreases |rows|
  {
    var rest := JoinSubjects(rows[1..], subjects);
    if e in rest {
      JoinedEntryOrigin(rows[1..], subjects, e);
      var r, s :| r in rows[1..] && s in subjects && r.subject == s.id
                  && e == DayEntry(r.id, s.name, s.code, r.status);
      assert r in rows;
    } else {
      var s := SubjectById(subjects, rows[0].subject).value;
      assert rows[0] in rows;
    }
  }

  /** get_attendance_by_date.php: this student's rows on the date, joined
      with their subject and ordered by subject name; the date is echoed. */
  method GetAttendanceByDate(db: Database, session: Session, date: DateArg)
    returns (reply: Outcome<DayListing>)
    requires session.Valid()
    ensures !session.loggedIn ==> reply == Failure(NotAuthenticated)
    ensures session.loggedIn && date.Blank? ==> reply == Failure("Date is required")
    ensures reply.Success? <==> session.loggedIn && !date.Blank?
    ensures reply.Success? ==>
              reply.value.date == date
              && SortedBy(reply.value.entries, NameLe)
              && (date.Garbage? ==> reply.value.entries == [])
              && (date.Day? ==>
                    multiset(reply.value.entries)
                    == multiset(JoinSubjects(DayRows(db.attendance, session.studentId.value, date.date), db.subjects)))
  {
    if !session.loggedIn {
      return Failure(NotAuthenticated);
    }
    if date.Blank? {
      return Failure("Date is required");
    }
    var joined := if date.Day? then JoinSubjects(DayRows(db.attendance, session.studentId.value, date.date), db.subjects)
                  else [];
    var result := SortBy(joined, NameLe);
    NameLeTotalPreorder();
    SortSorted(joined, NameLe);
    reply := Success(DayListing(date, result));
  }

  /** Every listed entry is one of the student's rows on that date, with
      the name and code of that row's subject. */
  lemma ByDateEntriesAreOwnRows(rows: seq<AttendanceRow>, subjects: seq<SubjectRow>, student: nat, d: Date, e: DayEntry)
    requires e in JoinSubjects(DayRows(rows, student, d), subjects)
    ensures exists r, s :: r in rows && r.student == student && r.date == d
              && s in subjects && s.id == r.subject
              && e == DayEntry(r.id, s.name, s.code, r.status)
  {
    JoinedEntryOrigin(DayRows(rows, student, d), subjects, e);
    var r, s :| r in DayRows(rows, student, d) && s in subjects && r.subject == s.id
                && e == DayEntry(r.id, s.name, s.code, r.status);
    FilterMembership(rows, (x: AttendanceRow) => x.student == student && x.date == d, r);
  }

  /** Conversely, with unique ids, each of the student's rows on that date
      whose subject exists is listed exactly once, with its id, its
      subject's name and code, and its status. */
  lemma ByDateListsEveryOwnRow(rows: seq<AttendanceRow>, subjects: seq<SubjectRow>, student: nat, d: Date,
                               r: AttendanceRow, s: SubjectRow)
    requires IdsIncreasing(AttendanceIds(rows)) && IdsIncreasing(SubjectIds(subjects))
    requires r in rows && r.student == student && r.date == d
    requires s in subjects && s.id == r.subject
    ensures multiset(JoinSubjects(DayRows(rows, student, d), subjects))[DayEntry(r.id, s.name, s.code, r.status)] == 1
  {
    var p := (x: AttendanceRow) => x.student == student && x.date == d;
    var day := DayRows(rows, student, d);
    FilterMembership(rows, p, r);
    FilterIncreasing(rows, p);
    SubjectByIdFinds(subjects, s);
    var i :| 0 <= i < |day| && day[i] == r;
    assert DayEntry(r.id, s.name, s.code, r.status) in JoinSubjects(day, subjects);
    JoinedIdsIncrease(day, subjects);
    ListedOnce(JoinSubjects(day, subjects), DayEntry(r.id, s.name, s.code, r.status));
  }

  // ---------------------------------------------------------------------
  // get_subject_attendance_dates.php
  // ---------------------------------------------------------------------

  datatype DateEntry = DateEntry(attendanceId: nat, date: Date, status: Status)

  datatype SubjectDates = SubjectDates(subjectName: string, subjectCode: string, dates: seq<DateEntry>)

  /** Newest first (`ORDER BY a.date DESC`). */
  predicate NewerOrSame(a: DateEntry, b: DateEntry) {
    DateLe(b.date, a.date)
  }

  lemma NewerOrSameTotalPreorder()
    ensures TotalPreorder(NewerOrSame)
  {
  }

  function SubjectRows(rows: seq<AttendanceRow>, student: nat, subject: nat): seq<DateEntry> {
    var mine := RowsFor(rows, student, subject);
    seq(|mine|, i requires 0 <= i < |mine| => DateEntry(mine[i].id, mine[i].date, mine[i].status))
  }

  /** The subject with that id if the student owns it (`WHERE id = ? AND student_id = ?`). */
  function OwnedSubject(subjects: seq<SubjectRow>, id: int, student: nat): (r: Option<SubjectRow>)
    ensures r.Some? ==> r.value in subjects && r.value.id == id && r.value.student == student
    ensures r.None? ==> forall s :: s in subjects ==> !(s.id == id && s.student == student)
  {
    var matches := Filter(subjects, (s: SubjectRow) => s.id == id && s.student == student);
    if |matches| == 0 then
      assert forall s :: s in subjects ==> !(s.id == id && s.student == student) by {
        forall s | s in subjects
          ensures !(s.id == id && s.student == student)
        {
          FilterMembership(subjects, (x: SubjectRow) => x.id == id && x.student == student, s);
        }
      }
      None
    else
      FilterMembership(subjects, (x: SubjectRow) => x.id == id && x.student == student, matches[0]);
      Some(matches[0])
  }

  /** get_subject_attendance_dates.php: after checking that the subject
      belongs to the student, lists its rows newest first. */
  method GetSubjectAttendanceDates(db: Database, session: Session, subjectId: int)
    returns (reply: Outcome<SubjectDates>)
    requires session.Valid()
    ensures !session.loggedIn ==> reply == Failure(NotAuthenticated)
    ensures session.loggedIn && subjectId == 0 ==> reply == Failure("Subject ID is required")
    ensures session.loggedIn && subjectId != 0 ==>
              var owned := OwnedSubject(db.subjects, subjectId, session.studentId.value);
              (owned.None? ==> reply == Failure("Subject not found or access denied"))
              && (owned.Some? ==>
                    reply.Success?
                    && reply.value.subjectName == owned.value.name
                    && reply.value.subjectCode == owned.value.code
                    && SortedBy(reply.value.dates, NewerOrSame)
                    && multiset(reply.value.dates)
                       == multiset(SubjectRows(db.attendance, session.studentId.value, subjectId as nat)))
  {
    if !session.loggedIn {
      return Failure(NotAuthenticated);
    }
    if subjectId == 0 {
      return Failure("Subject ID is required");
    }
    var student := session.studentId.value;
    var owned := OwnedSubject(db.subjects, subjectId, student);
    if owned.None? {
      return Failure("Subject not found or access denied");
    }
    var info := owned.value;
    var records := SubjectRows(db.attendance, student, subjectId as nat);
    var result := SortBy(records, NewerOrSame);
    NewerOrSameTotalPreorder();
    SortSorted(records, NewerOrSame);
    reply := Success(SubjectDates(info.name, info.code, result));
  }

  /** The listed dates are exactly this student's rows for the subject. */
  lemma SubjectRowsAreOwnRows(rows: seq<AttendanceRow>, student: nat, subject: nat, e: DateEntry)
    ensures e in SubjectRows(rows, student, subject)
            <==> exists r :: r in rows && r.student == student && r.subject == subject
                             && e == DateEntry(r.id, r.date, r.status)
  {
    var mine := RowsFor(rows, student, subject);
    var p := (x: AttendanceRow) => x.student == student && x.subject == subject;
    if e in SubjectRows(rows, student, subject) {
      var i :| 0 <= i < |mine| && SubjectRows(rows, student, subject)[i] == e;
      FilterMembership(rows, p, mine[i]);
    }
    if exists r :: r in rows && r.student == student && r.subject == subject && e == DateEntry(r.id, r.date, r.status) {
      var r :| r in rows && r.student == student && r.subject == subject && e == DateEntry(r.id, r.date, r.status);
      FilterMembership(rows, p, r);
      var i :| 0 <= i < |mine| && mine[i] == r;
      assert SubjectRows(rows, student, subject)[i] == e;
    }
  }
}
