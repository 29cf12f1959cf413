/** The server's persistent state: the four MySQL tables the endpoints read
    and write (students, subjects, attendance, marks), and the PHP session of
    one browser. Tables are kept in insertion order with strictly increasing
    AUTO_INCREMENT ids, so "ORDER BY id" is the table order. */
module Store {
  import opened Common

  datatype Status = Present | Absent

  /** The status column's text ('present' / 'absent'); anything else is refused. */
  function ParseStatus(s: string): (r: Option<Status>)
    ensures r == Some(Present) <==> s == "present"
    ensures r == Some(Absent) <==> s == "absent"
  {
    if s == "present" then Some(Present) else if s == "absent" then Some(Absent) else None
  }

  /** A DATE column value. */
  datatype Date = Date(year: int, month: int, day: int)

  /** Chronological order of dates (what MySQL compares for DATE values). */
  predicate DateLe(a: Date, b: Date) {
    a.year < b.year
    || (a.year == b.year && (a.month < b.month || (a.month == b.month && a.day <= b.day)))
  }

  /** One row of the attendance table. */
  datatype AttendanceRow = AttendanceRow(id: nat, student: nat, subject: nat, date: Date, status: Status)

  /** One row of the subjects table: a subject belongs to one student. */
  datatype SubjectRow = SubjectRow(id: nat, student: nat, name: string, code: string)

  /** One row of the marks table, unique on (student, subject, ia). */
  datatype MarkRow = MarkRow(student: nat, subject: nat, ia: int, obtained: real, max: real)

  /** One WebAuthn credential kept in the student's JSON credential column. */
  datatype Credential = Credential(id: string, publicKey: string, deviceName: string, registeredAt: string)

  /** The password column holds either a password_hash() result or, for old
      rows, the plain text. The hash is ideal: it determines its password. */
  datatype StoredPassword = Hashed(of: string) | Plain(text: string)

  /** password_verify against an ideal hash. */
  predicate PasswordVerify(password: string, stored: StoredPassword)
    requires stored.Hashed?
  {
    stored.of == password
  }

  /** One row of the students table. `credentials` is the JSON credential
      column (None is SQL NULL); `prompted` is fingerprint_prompted. */
  datatype StudentRow = StudentRow(
    id: nat, usn: string, username: string, password: StoredPassword,
    name: string, semester: int, college: string,
    credentials: Option<seq<Credential>>, prompted: bool)

  /** Value of the credential column as the endpoints read it: `json_decode(...) ?: []`. */
  function CredentialList(s: StudentRow): seq<Credential> {
    if s.credentials.Some? then s.credentials.value else []
  }

  /** The student's subjects in id order (`WHERE student_id = ? ORDER BY id`). */
  function OwnedSubjects(subjects: seq<SubjectRow>, student: nat): seq<SubjectRow> {
    Filter(subjects, (s: SubjectRow) => s.student == student)
  }

  /** Index of the first student the query `WHERE usn = ? OR username = ?`
      returns, scanning in id order; None when no row matches. */
  function FindUser(students: seq<StudentRow>, login: string): (r: Option<nat>)
    ensures r.Some? ==> r.value < |students|
                        && (students[r.value].usn == login || students[r.value].username == login)
                        && forall j :: 0 <= j < r.value ==> students[j].usn != login && students[j].username != login
    ensures r.None? <==> forall j :: 0 <= j < |students| ==> students[j].usn != login && students[j].username != login
  {
    if |students| == 0 then None
    else if students[0].usn == login || students[0].username == login then Some(0)
    else
      var rest := FindUser(students[1..], login);
      if rest.Some? then Some(rest.value + 1) else None
  }

  /** Index of the student row `WHERE id = ?`; None when no row has that id. */
  function StudentWithId(students: seq<StudentRow>, id: nat): (r: Option<nat>)
    ensures r.Some? ==> r.value < |students| && students[r.value].id == id
                        && forall j :: 0 <= j < r.value ==> students[j].id != id
    ensures r.None? <==> forall j :: 0 <= j < |students| ==> students[j].id != id
  {
    if |students| == 0 then None
    else if students[0].id == id then Some(0)
    else
      var rest := StudentWithId(students[1..], id);
      if rest.Some? then Some(rest.value + 1) else None
  }

  /** A field of the decoded JSON request body with PHP's `??` default:
      a missing key (or a JSON null) yields the default. */
  function Field(data: map<string, string>, key: string, default: string): (r: string)
    ensures key in data ==> r == data[key]
    ensures key !in data ==> r == default
  {
    if key in data then data[key] else default
  }

  datatype RequestMethod = Get | Post

  /** A JSON reply: `success: true` with a payload, or `success: false` with a message. */
  datatype Outcome<T> = Success(value: T) | Failure(message: string)

  const NotAuthenticated := "Not authenticated"
  const InvalidRequestMethod := "Invalid request method"

  /** Ids strictly increase along a table. */
  predicate IdsIncreasing(ids: seq<nat>) {
    forall i, j :: 0 <= i < j < |ids| ==> ids[i] < ids[j]
  }

  function AttendanceIds(rows: seq<AttendanceRow>): seq<nat> {
    seq(|rows|, i requires 0 <= i < |rows| => rows[i].id)
  }

  function SubjectIds(rows: seq<SubjectRow>): seq<nat> {
    seq(|rows|, i requires 0 <= i < |rows| => rows[i].id)
  }

  function StudentIds(rows: seq<StudentRow>): seq<nat> {
    seq(|rows|, i requires 0 <= i < |rows| => rows[i].id)
  }

  /** The unique key (student_id, subject_id, ia_number) of the marks table. */
  predicate MarksKeyed(marks: seq<MarkRow>) {
    forall i, j :: 0 <= i < j < |marks| ==>
      (marks[i].student, marks[i].subject, marks[i].ia) != (marks[j].student, marks[j].subject, marks[j].ia)
  }

  /** The credential column is never an empty list: deleting the last
      credential stores NULL instead. */
  predicate CredentialColumnsNonEmpty(students: seq<StudentRow>) {
    forall i :: 0 <= i < |students| && students[i].credentials.Some? ==> |students[i].credentials.value| > 0
  }

  class Database {
    var students: seq<StudentRow>
    var subjects: seq<SubjectRow>
    var attendance: seq<AttendanceRow>
    var marks: seq<MarkRow>
    var nextStudentId: nat
    var nextSubjectId: nat
    var nextAttendanceId: nat

    ghost predicate Valid()
      reads this
    {
      IdsIncreasing(StudentIds(students)) && IdsIncreasing(SubjectIds(subjects))
      && IdsIncreasing(AttendanceIds(attendance))
      && (forall i :: 0 <= i < |students| ==> students[i].id < nextStudentId)
      && (forall i :: 0 <= i < |subjects| ==> subjects[i].id < nextSubjectId)
      && (forall i :: 0 <= i < |subjects| ==> subjects[i].student < nextStudentId)
      && (forall i :: 0 <= i < |attendance| ==> attendance[i].id < nextAttendanceId)
      && MarksKeyed(marks)
      && CredentialColumnsNonEmpty(students)
    }

    constructor ()
      ensures Valid()
      ensures students == [] && subjects == [] && attendance == [] && marks == []
      ensures nextStudentId == 1 && nextSubjectId == 1 && nextAttendanceId == 1
    {
      students := [];
      subjects := [];
      attendance := [];
      marks := [];
      nextStudentId := 1;
      nextSubjectId := 1;
      nextAttendanceId := 1;
    }
  }

  /** The PHP session of one browser. Keys that may be unset are options. */
  class Session {
    var loggedIn: bool
    var username: Option<string>
    var usn: Option<string>
    var studentId: Option<nat>
    var name: Option<string>
    /** webauthn_challenge, set when a credential registration starts. */
    var webauthnChallenge: Option<string>
    /** webauthn_auth_challenge and webauthn_auth_user_id: the pending one-tap login. */
    var authChallenge: Option<string>
    var authUserId: Option<nat>

    /** Both login paths set the identity keys together with logged_in; the
        name key may still hold NULL, so it is not required here. */
    predicate Valid()
      reads this
    {
      loggedIn ==> studentId.Some? && username.Some? && usn.Some?
    }

    constructor ()
      ensures Valid() && !loggedIn
      ensures username == None && usn == None && studentId == None && name == None
      ensures webauthnChallenge == None && authChallenge == None && authUserId == None
    {
      loggedIn := false;
      username := None;
      usn := None;
      studentId := None;
      name := None;
      webauthnChallenge := None;
      authChallenge := None;
      authUserId := None;
    }

    /** What both login paths store: logged_in and the student's identity;
        the pending registration and one-tap keys are left as they were. */
    method SignIn(username: string, usn: string, studentId: nat, name: string)
      modifies this
      ensures Valid() && loggedIn
      ensures this.username == Some(username) && this.usn == Some(usn)
      ensures this.studentId == Some(studentId) && this.name == Some(name)
      ensures webauthnChallenge == old(webauthnChallenge)
      ensures authChallenge == old(authChallenge) && authUserId == old(authUserId)
    {
      loggedIn := true;
      this.username := Some(username);
      this.usn := Some(usn);
      this.studentId := Some(studentId);
      this.name := Some(name);
    }
  }

  /** Date ordering is a total preorder, so date-sorted listings are well defined. */
  lemma DateLeTotalPreorder()
    ensures TotalPreorder(DateLe)
  {
  }
}
