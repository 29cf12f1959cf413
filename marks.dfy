/** Internal-assessment marks: update_marks.php writes or clears one
    (student, subject, IA) row; get_marks.php reads the rows back into three
    nullable slots per subject. */
module Marks {
  import opened Common
  import opened Store

  /** The posted marks_obtained: absent, the empty string, or the number
      floatval() reads from the text. */
  datatype MarkArg = Missing | Blank | Value(v: real)

  const MaxMarks: real := 50.0

  predicate KeyIs(m: MarkRow, student: nat, subject: nat, ia: int) {
    m.student == student && m.subject == subject && m.ia == ia
  }

  predicate HasKey(marks: seq<MarkRow>, student: nat, subject: nat, ia: int) {
    exists i :: 0 <= i < |marks| && KeyIs(marks[i], student, subject, ia)
  }

  /** `UPDATE marks_obtained = v` on the row with that key (if any). */
  function SetObtained(marks: seq<MarkRow>, student: nat, subject: nat, ia: int, v: real): (r: seq<MarkRow>)
    ensures |r| == |marks|
  {
    seq(|marks|, i requires 0 <= i < |marks| =>
      if KeyIs(marks[i], student, subject, ia) then marks[i].(obtained := v) else marks[i])
  }

  /** `INSERT ... VALUES (..., insertValue, 50) ON DUPLICATE KEY UPDATE
      marks_obtained = updateValue`. */
  function UpsertWith(marks: seq<MarkRow>, student: nat, subject: nat, ia: int,
                      insertValue: real, updateValue: real): seq<MarkRow>
  {
    if HasKey(marks, student, subject, ia) then SetObtained(marks, student, subject, ia, updateValue)
    else marks + [MarkRow(student, subject, ia, insertValue, MaxMarks)]
  }

  /** PHP's conversion of a float to an integer, as bind_param type "i"
      performs it: the fractional part is dropped (toward zero). */
  function IntCast(v: real): (r: real)
    ensures v >= 0.0 ==> IsWhole(r) && r <= v < r + 1.0
  {
    if v >= 0.0 then v.Floor as real else -((-v).Floor as real)
  }

  /** The upsert as update_marks.php binds it: "iiidi" sends the insert value
      as a double but the ON DUPLICATE KEY UPDATE value as an integer. */
  function UpsertAsWritten(marks: seq<MarkRow>, student: nat, subject: nat, ia: int, v: real): seq<MarkRow> {
    UpsertWith(marks, student, subject, ia, v, IntCast(v))
  }

  /** The upsert with both values bound as doubles: what the statement means. */
  function Upsert(marks: seq<MarkRow>, student: nat, subject: nat, ia: int, v: real): seq<MarkRow> {
    UpsertWith(marks, student, subject, ia, v, v)
  }

  /** `DELETE FROM marks WHERE student_id = ? AND subject_id = ? AND ia_number = ?` */
  function DeleteKey(marks: seq<MarkRow>, student: nat, subject: nat, ia: int): seq<MarkRow> {
    Filter(marks, (m: MarkRow) => !KeyIs(m, student, subject, ia))
  }

  /** The upsert, however its two values are bound: the table stays keyed,
      the key has a row, that row holds the update value when the key was
      already there and the insert value when it was not, and rows with
      another key are neither changed, dropped nor added. */
  lemma UpsertWithStores(marks: seq<MarkRow>, student: nat, subject: nat, ia: int,
                         insertValue: real, updateValue: real, m: MarkRow)
    requires MarksKeyed(marks)
    ensures var r := UpsertWith(marks, student, subject, ia, insertValue, updateValue);
            MarksKeyed(r)
            && HasKey(r, student, subject, ia)
            && (forall i :: 0 <= i < |r| && KeyIs(r[i], student, subject, ia) ==>
                  r[i].obtained == (if HasKey(marks, student, subject, ia) then updateValue else insertValue))
            && (!KeyIs(m, student, subject, ia) ==> (m in r <==> m in marks))
  {
    var r := UpsertWith(marks, student, subject, ia, insertValue, updateValue);
    if HasKey(marks, student, subject, ia) {
      var k :| 0 <= k < |marks| && KeyIs(marks[k], student, subject, ia);
      assert KeyIs(r[k], student, subject, ia);
      assert forall i, j :: 0 <= i < j < |r| ==>
        (r[i].student, r[i].subject, r[i].ia) == (marks[i].student, marks[i].subject, marks[i].ia)
        && (r[j].student, r[j].subject, r[j].ia) == (marks[j].student, marks[j].subject, marks[j].ia);
    } else {
      assert KeyIs(r[|marks|], student, subject, ia);
    }
    if !KeyIs(m, student, subject, ia) {
      if m in marks {
        var i :| 0 <= i < |marks| && marks[i] == m;
        assert r[i] == m;
      }
      if m in r {
        var i :| 0 <= i < |r| && r[i] == m;
        if i < |marks| {
          assert marks[i] == m;
        }
      }
    }
  }

  /** The upsert as update_marks.php binds it: a new key stores the value as
      posted, an existing key stores its whole part, rows with another key
      are kept, and the table stays one row per key. */
  lemma UpsertAsWrittenStores(marks: seq<MarkRow>, student: nat, subject: nat, ia: int, v: real, m: MarkRow)
    requires MarksKeyed(marks)
    ensures var r := UpsertAsWritten(marks, student, subject, ia, v);
            MarksKeyed(r)
            && HasKey(r, student, subject, ia)
            && (forall i :: 0 <= i < |r| && KeyIs(r[i], student, subject, ia) ==>
                  r[i].obtained == (if HasKey(marks, student, subject, ia) then IntCast(v) else v))
            && (!KeyIs(m, student, subject, ia) ==> (m in r <==> m in marks))
  {
    UpsertWithStores(marks, student, subject, ia, v, IntCast(v), m);
  }

  /** Saving a fractional mark twice through the statement as bound, for a
      key that had no row, changes the stored value the second time: the
      insert keeps the fraction and the update drops it (25.5, then 25). */
  lemma AsWrittenNotIdempotent(marks: seq<MarkRow>, student: nat, subject: nat, ia: int, v: real)
    requires MarksKeyed(marks) && !HasKey(marks, student, subject, ia)
    requires 0.0 <= v && !IsWhole(v)
    ensures UpsertAsWritten(UpsertAsWritten(marks, student, subject, ia, v), student, subject, ia, v)
            != UpsertAsWritten(marks, student, subject, ia, v)
  {
    var once := UpsertAsWritten(marks, student, subject, ia, v);
    var twice := UpsertAsWritten(once, student, subject, ia, v);
    UpsertAsWrittenStores(marks, student, subject, ia, v, MarkRow(student, subject, ia, v, MaxMarks));
    UpsertAsWrittenStores(once, student, subject, ia, v, MarkRow(student, subject, ia, v, MaxMarks));
    var k :| 0 <= k < |once| && KeyIs(once[k], student, subject, ia);
    assert once[k].obtained == v;
    assert |twice| == |once|;
    assert KeyIs(twice[k], student, subject, ia);
    assert twice[k].obtained == IntCast(v) != v;
  }

  /** After the intended upsert the key has exactly one row and it holds the value. */
  lemma UpsertStores(marks: seq<MarkRow>, student: nat, subject: nat, ia: int, v: real)
    requires MarksKeyed(marks)
    ensures var r := Upsert(marks, student, subject, ia, v);
            MarksKeyed(r)
            && HasKey(r, student, subject, ia)
            && (forall i :: 0 <= i < |r| && KeyIs(r[i], student, subject, ia) ==> r[i].obtained == v)
  {
    UpsertWithStores(marks, student, subject, ia, v, v, MarkRow(student, subject, ia, v, MaxMarks));
  }

  /** Writing the same value twice leaves the table as writing it once. */
  lemma UpsertIdempotent(marks: seq<MarkRow>, student: nat, subject: nat, ia: int, v: real)
    ensures Upsert(Upsert(marks, student, subject, ia, v), student, subject, ia, v)
            == Upsert(marks, student, subject, ia, v)
  {
    var once := Upsert(marks, student, subject, ia, v);
    if HasKey(marks, student, subject, ia) {
      var k :| 0 <= k < |marks| && KeyIs(marks[k], student, subject, ia);
      assert KeyIs(once[k], student, subject, ia);
    } else {
      assert KeyIs(once[|marks|], student, subject, ia);
    }
  }

  /** Rows with another key are neither changed, dropped nor added. */
  lemma UpsertKeepsOtherKeys(marks: seq<MarkRow>, student: nat, subject: nat, ia: int, v: real, m: MarkRow)
    requires !KeyIs(m, student, subject, ia)
    ensures m in Upsert(marks, student, subject, ia, v) <==> m in marks
  {
    var r := Upsert(marks, student, subject, ia, v);
    if m in marks {
      var i :| 0 <= i < |marks| && marks[i] == m;
      assert r[i] == m;
    }
    if m in r {
      var i :| 0 <= i < |r| && r[i] == m;
      if i < |marks| {
        assert marks[i] == m;
      }
    }
  }

  /** Clearing removes the key's row and nothing else. */
  lemma DeleteKeyProperties(marks: seq<MarkRow>, student: nat, subject: nat, ia: int, m: MarkRow)
    ensures !HasKey(DeleteKey(marks, student, subject, ia), student, subject, ia)
    ensures !KeyIs(m, student, subject, ia) ==> (m in DeleteKey(marks, student, subject, ia) <==> m in marks)
  {
    var p := (x: MarkRow) => !KeyIs(x, student, subject, ia);
    FilterMembership(marks, p, m);
  }

  /** Deleting keeps the marks table keyed. */
  lemma DeleteKeyKeyed(marks: seq<MarkRow>, student: nat, subject: nat, ia: int)
    requires MarksKeyed(marks)
    ensures MarksKeyed(DeleteKey(marks, student, subject, ia))
  {
    FilterIsSubsequence(marks, (x: MarkRow) => !KeyIs(x, student, subject, ia));
    SubsequenceKeyed(DeleteKey(marks, student, subject, ia), marks);
  }

  lemma {:induction false} SubsequenceKeyed(a: seq<MarkRow>, b: seq<MarkRow>)
    requires IsSubsequence(a, b) && MarksKeyed(b)
    ensures MarksKeyed(a)
    decreases |b|
  {
    if |a| > 0 && |b| > 0 {
      var b0 := b[..|b| - 1];
      assert MarksKeyed(b0);
      if a[|a| - 1] == b[|b| - 1] {
        var a0 := a[..|a| - 1];
        SubsequenceKeyed(a0, b0);
        SubsequenceMembers(a0, b0);
        forall i | 0 <= i < |a0|
          ensures (a0[i].student, a0[i].subject, a0[i].ia) != (b[|b| - 1].student, b[|b| - 1].subject, b[|b| - 1].ia)
        {
          assert a0[i] in a0;
          assert a0[i] in b0;
          var j :| 0 <= j < |b0| && b0[j] == a0[i];
        }
        assert a == a0 + [b[|b| - 1]];
      } else {
        SubsequenceKeyed(a, b0);
      }
    }
  }

  /** update_marks.php: validates the subject and IA number, then clears the
      row for an absent or empty mark, rejects a mark outside [0, 50], and
      otherwise writes it with a maximum of 50. */
  method UpdateMarks(db: Database, session: Session, verb: RequestMethod, subjectId: int, ia: int, mark: MarkArg)
    returns (reply: Outcome<string>)
    requires db.Valid() && session.Valid()
    modifies db
    ensures db.Valid()
    ensures !session.loggedIn ==> reply == Failure(NotAuthenticated)
    ensures session.loggedIn && verb != Post ==> reply == Failure(InvalidRequestMethod)
    ensures session.loggedIn && verb == Post && (subjectId <= 0 || ia !in {1, 2, 3}) ==>
              reply == Failure("Invalid input")
    ensures session.loggedIn && verb == Post && subjectId > 0 && ia in {1, 2, 3}
            && mark.Value? && !(0.0 <= mark.v <= MaxMarks) ==>
              reply == Failure("Marks should be between 0 and 50")
    ensures reply.Failure? ==> unchanged(db)
    ensures reply.Success? <==>
              session.loggedIn && verb == Post && subjectId > 0 && ia in {1, 2, 3}
              && (mark.Value? ==> 0.0 <= mark.v <= MaxMarks)
    ensures reply.Success? ==>
              reply.value == "Marks updated successfully"
              && db.marks == (if mark.Value? then UpsertAsWritten(old(db.marks), session.studentId.value, subjectId as nat, ia, mark.v)
                              else DeleteKey(old(db.marks), session.studentId.value, subjectId as nat, ia))
              && db.students == old(db.students) && db.subjects == old(db.subjects)
              && db.attendance == old(db.attendance)
              && db.nextStudentId == old(db.nextStudentId) && db.nextSubjectId == old(db.nextSubjectId)
              && db.nextAttendanceId == old(db.nextAttendanceId)
  {
    if !session.loggedIn {
      return Failure(NotAuthenticated);
    }
    if verb != Post {
      return Failure(InvalidRequestMethod);
    }
    if subjectId <= 0 || ia !in {1, 2, 3} {
      return Failure("Invalid input");
    }
    var value: Option<real> := None;
    if mark.Value? {
      if mark.v < 0.0 || mark.v > MaxMarks {
        return Failure("Marks should be between 0 and 50");
      }
      value := Some(mark.v);
    }
    var student := session.studentId.value;
    if value.None? {
      DeleteKeyKeyed(db.marks, student, subjectId as nat, ia);
      db.marks := DeleteKey(db.marks, student, subjectId as nat, ia);
    } else {
      UpsertAsWrittenStores(db.marks, student, subjectId as nat, ia, value.value, MarkRow(student, subjectId as nat, ia, 0.0, MaxMarks));
      db.marks := UpsertAsWritten(db.marks, student, subjectId as nat, ia, value.value);
    }
    reply := Success("Marks updated successfully");
  }

  // ---------------------------------------------------------------------
  // get_marks.php
  // ---------------------------------------------------------------------

  datatype Slot = Slot(obtained: real, max: real)

  datatype MarksEntry = MarksEntry(subjectId: nat, subjectName: string, subjectCode: string,
                                   ia1: Option<Slot>, ia2: Option<Slot>, ia3: Option<Slot>)

  /** The student's rows for one subject. */
  function MarkRowsFor(marks: seq<MarkRow>, student: nat, subject: nat): seq<MarkRow> {
    Filter(marks, (m: MarkRow) => m.student == student && m.subject == subject)
  }

  /** The slot a pass over the rows leaves for an IA number: the last row
      with that number, or null. */
  function SlotFor(rows: seq<MarkRow>, ia: int): Option<Slot> {
    if |rows| == 0 then None
    else if rows[|rows| - 1].ia == ia then Some(Slot(rows[|rows| - 1].obtained, rows[|rows| - 1].max))
    else SlotFor(rows[..|rows| - 1], ia)
  }

  function EntryFor(marks: seq<MarkRow>, student: nat, s: SubjectRow): MarksEntry {
    var rows := MarkRowsFor(marks, student, s.id);
    MarksEntry(s.id, s.name, s.code, SlotFor(rows, 1), SlotFor(rows, 2), SlotFor(rows, 3))
  }

  /** A slot is filled exactly when a row for that key exists, and then it
      holds that row's obtained and maximum marks. */
  lemma SlotMatchesRow(marks: seq<MarkRow>, student: nat, subject: nat, ia: int)
    requires MarksKeyed(marks)
    ensures var slot := SlotFor(MarkRowsFor(marks, student, subject), ia);
            (slot.None? <==> !HasKey(marks, student, subject, ia))
            && (forall m :: m in marks && KeyIs(m, student, subject, ia) ==> slot == Some(Slot(m.obtained, m.max)))
  {
    var p := (m: MarkRow) => m.student == student && m.subject == subject;
    var rows := MarkRowsFor(marks, student, subject);
    FilterIsSubsequence(marks, p);
    SubsequenceKeyed(rows, marks);
    SlotOfKeyedRows(rows, ia);
    forall i | 0 <= i < |marks| && KeyIs(marks[i], student, subject, ia)
      ensures marks[i] in rows
    {
      FilterMembership(marks, p, marks[i]);
    }
    forall m | m in rows
      ensures m in marks && m.student == student && m.subject == subject
    {
      FilterMembership(marks, p, m);
    }
    if HasKey(marks, student, subject, ia) {
      var i :| 0 <= i < |marks| && KeyIs(marks[i], student, subject, ia);
      assert marks[i] in rows;
    }
  }

  /** Among rows of one student and subject with unique keys, the slot for
      an IA number is that number's row. */
  lemma {:induction false} SlotOfKeyedRows(rows: seq<MarkRow>, ia: int)
    requires MarksKeyed(rows)
    ensures SlotFor(rows, ia).None? <==> forall m :: m in rows ==> m.ia != ia
    ensures forall m :: m in rows && m.ia == ia
              && (forall x :: x in rows ==> x.student == m.student && x.subject == m.subject)
              ==> SlotFor(rows, ia) == Some(Slot(m.obtained, m.max))
    decreases |rows|
  {
    if |rows| > 0 {
      var init := rows[..|rows| - 1];
      var last := rows[|rows| - 1];
      assert MarksKeyed(init);
      SlotOfKeyedRows(init, ia);
      assert rows == init + [last];
      forall m | m in rows && m.ia == ia && (forall x :: x in rows ==> x.student == m.student && x.subject == m.subject)
        ensures SlotFor(rows, ia) == Some(Slot(m.obtained, m.max))
      {
        if last.ia != ia {
          assert m in init;
        } else if m != last {
          assert false;
        }
      }
    }
  }

  /** get_marks.php: for each of the student's subjects in id order, fills
      slots 1 to 3 from that subject's marks rows and appends the entry. */
  method GetMarks(db: Database, session: Session) returns (reply: Outcome<seq<MarksEntry>>)
    requires session.Valid()
    ensures !session.loggedIn ==> reply == Failure(NotAuthenticated)
    ensures session.loggedIn ==> reply.Success?
    ensures reply.Success? ==>
              var owned := OwnedSubjects(db.subjects, session.studentId.value);
              |reply.value| == |owned|
              && forall i :: 0 <= i < |owned| ==>
                   reply.value[i] == EntryFor(db.marks, session.studentId.value, owned[i])
  {
    if !session.loggedIn {
      return Failure(NotAuthenticated);
    }
    var student := session.studentId.value;
    var owned := OwnedSubjects(db.subjects, student);
    var entries: seq<MarksEntry> := [];
    for i := 0 to |owned|
      invariant |entries| == i
      invariant forall k :: 0 <= k < i ==> entries[k] == EntryFor(db.marks, student, owned[k])
    {
      var subject := owned[i];
      var rows := MarkRowsFor(db.marks, student, subject.id);
      var slots: map<int, Option<Slot>> := map[1 := None, 2 := None, 3 := None];
      for j := 0 to |rows|
        invariant 1 in slots && 2 in slots && 3 in slots
        invariant forall k :: k in {1, 2, 3} ==> slots[k] == SlotFor(rows[..j], k)
      {
        assert rows[..j + 1][..j] == rows[..j];
        slots := slots[rows[j].ia := Some(Slot(rows[j].obtained, rows[j].max))];
      }
      assert rows[..|rows|] == rows;
      entries := entries + [MarksEntry(subject.id, subject.name, subject.code, slots[1], slots[2], slots[3])];
    }
    reply := Success(entries);
  }
}
