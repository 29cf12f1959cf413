/** Password login (login.php): the student is looked up by usn or
    username and the password is checked against the stored hash, or
    compared as plain text for rows from before hashing was introduced. */
module LoginServer {
  import opened Common
  import opened Store

  /** The one message for an unknown user and for a wrong password. */
  const InvalidCredentials := "Invalid username or password"

  /** A hashed password is checked with password_verify; a plain one by
      exact string equality. */
  predicate PasswordMatches(password: string, stored: StoredPassword) {
    if stored.Hashed? then PasswordVerify(password, stored) else password == stored.text
  }

  /** The hash registration stores accepts its password and no other, and a
      plain stored password accepts exactly itself. */
  lemma PasswordMatchesExactly(password: string, candidate: string)
    ensures PasswordMatches(candidate, Hashed(password)) <==> candidate == password
    ensures PasswordMatches(candidate, Plain(password)) <==> candidate == password
  {
  }

  /** Logs in with the posted username (a usn or a username) and password.
      Success exactly when the first matching student's password matches;
      it then sets every identity key of the session from that row. Every
      failure gives the same message and leaves the session alone. */
  method Login(db: Database, session: Session, verb: RequestMethod, data: map<string, string>)
    returns (reply: Outcome<string>)
    requires session.Valid()
    modifies session
    ensures session.Valid()
    ensures verb != Post ==> reply == Failure(InvalidRequestMethod)
    ensures reply.Failure? ==> unchanged(session)
    ensures verb == Post && reply.Failure? ==> reply.message == InvalidCredentials
    ensures reply.Success? <==>
              verb == Post && FindUser(db.students, Field(data, "username", "")).Some?
              && PasswordMatches(Field(data, "password", ""),
                                 db.students[FindUser(db.students, Field(data, "username", "")).value].password)
    ensures reply.Success? ==>
              var s := db.students[FindUser(db.students, Field(data, "username", "")).value];
              reply.value == "Login successful"
              && session.loggedIn && session.username == Some(s.username) && session.usn == Some(s.usn)
              && session.studentId == Some(s.id) && session.name == Some(s.name)
              && session.webauthnChallenge == old(session.webauthnChallenge)
              && session.authChallenge == old(session.authChallenge) && session.authUserId == old(session.authUserId)
  {
    if verb != Post {
      return Failure(InvalidRequestMethod);
    }
    var username := Field(data, "username", "");
    var password := Field(data, "password", "");
    var found := FindUser(db.students, username);
    if found.None? {
      return Failure(InvalidCredentials);
    }
    var user := db.students[found.value];
    var passwordValid := false;
    if user.password.Hashed? {
      passwordValid := PasswordVerify(password, user.password);
    } else {
      passwordValid := password == user.password.text;
    }
    if !passwordValid {
      return Failure(InvalidCredentials);
    }
    session.SignIn(user.username, user.usn, user.id, user.name);
    reply := Success("Login successful");
  }
}

/** Student registration (register.php): validates the form, refuses a usn
    already in use, then in one transaction inserts the student and seeds
    the nine subjects of the semester. */
module RegisterServer {
  import opened Common
  import opened Store

  /** The registration form after PHP's trims and `??` defaults. */
  datatype Form = Form(
    usn: string, password: string, name: string, semester: int, college: string,
    openElective: string, openElectiveCode: string, aecVertical: string, aecVerticalCode: string)

  const DefaultCollege := "MVJ College of Engineering"

  /** A posted text made only of the characters PHP's trim removes. */
  predicate Blank(s: string) {
    forall i :: 0 <= i < |s| ==> IsPhpSpace(s[i])
  }

  /** The field was posted with something other than spaces. */
  predicate Given(data: map<string, string>, key: string) {
    key in data && !Blank(data[key])
  }

  lemma PhpTrimBlank(s: string)
    requires Blank(s)
    ensures PhpTrim(s) == ""
  {
    var r := PhpTrim(s);
    var a, b :| 0 <= a <= b <= |s| && r == s[a..b];
  }

  lemma PhpTrimKeeps(s: string)
    requires |s| > 0 && !IsPhpSpace(s[0]) && !IsPhpSpace(s[|s| - 1])
    ensures PhpTrim(s) == s
  {
    var r := PhpTrim(s);
    var a, b :| 0 <= a <= b <= |s| && r == s[a..b]
                && (forall i :: 0 <= i < a ==> IsPhpSpace(s[i]))
                && (forall i :: b <= i < |s| ==> IsPhpSpace(s[i]));
    assert a == 0 && b == |s|;
  }

  lemma TrimmedAbsent(data: map<string, string>, key: string)
    ensures !Given(data, key) ==> PhpTrim(Field(data, key, "")) == ""
  {
    if !Given(data, key) {
      PhpTrimBlank(Field(data, key, ""));
    }
  }

  /** Reads the posted fields: every field but the password is trimmed; the
      semester (already passed through intval) defaults to 6 and the college
      to the one college the tracker serves. A trimmed field that was not
      posted, or was only spaces, reads as empty; the password is taken as
      posted. */
  function ReadForm(data: map<string, string>, semester: Option<int>): (f: Form)
    ensures f.password == Field(data, "password", "")
    ensures !Given(data, "usn") ==> f.usn == ""
    ensures !Given(data, "name") ==> f.name == ""
    ensures !Given(data, "openElective") ==> f.openElective == ""
    ensures !Given(data, "openElectiveCode") ==> f.openElectiveCode == ""
    ensures !Given(data, "aecVertical") ==> f.aecVertical == ""
    ensures !Given(data, "aecVerticalCode") ==> f.aecVerticalCode == ""
    ensures semester.None? ==> f.semester == 6
    ensures "college" !in data ==> f.college == DefaultCollege
  {
    TrimmedAbsent(data, "usn");
    TrimmedAbsent(data, "name");
    TrimmedAbsent(data, "openElective");
    TrimmedAbsent(data, "openElectiveCode");
    TrimmedAbsent(data, "aecVertical");
    TrimmedAbsent(data, "aecVerticalCode");
    PhpTrimKeeps(DefaultCollege);
    Form(PhpTrim(Field(data, "usn", "")), Field(data, "password", ""), PhpTrim(Field(data, "name", "")),
         semester.GetOr(6), PhpTrim(Field(data, "college", DefaultCollege)),
         PhpTrim(Field(data, "openElective", "")), PhpTrim(Field(data, "openElectiveCode", "")),
         PhpTrim(Field(data, "aecVertical", "")), PhpTrim(Field(data, "aecVerticalCode", "")))
  }

  /** A required field not posted, or posted as spaces only (an empty or
      "0" password), is refused. */
  predicate RequiredFieldAbsent(data: map<string, string>) {
    !Given(data, "usn") || PhpEmpty(Field(data, "password", "")) || !Given(data, "name")
    || !Given(data, "openElective") || !Given(data, "openElectiveCode")
    || !Given(data, "aecVertical") || !Given(data, "aecVerticalCode")
  }

  /** The fields that must be non-empty (PHP empty(), so "0" counts as empty). */
  predicate MissingField(f: Form) {
    PhpEmpty(f.usn) || PhpEmpty(f.password) || PhpEmpty(f.name) || PhpEmpty(f.openElective)
    || PhpEmpty(f.openElectiveCode) || PhpEmpty(f.aecVertical) || PhpEmpty(f.aecVerticalCode)
  }

  /** strlen counts UTF-8 bytes. */
  predicate PasswordTooShort(password: string) {
    Utf8Length(password) < 4
  }

  /** The seven subjects every student gets, in insertion order. */
  const DefaultSubjects: seq<(string, string)> := [
    ("Cloud Computing & Full Stack Application Development", "MVJ22CS61"),
    ("Cloud Computing Lab", "MVJ22CS61"),
    ("Machine Learning", "MVJ22CS62"),
    ("Machine Learning Lab", "MVJ22CSL66"),
    ("Major Project Phase - I", "MVJ22CSP65"),
    ("Blockchain Technology", "MVJ22CS631"),
    ("Indian Knowledge System", "MVJ22IKK68")
  ]

  /** The nine (name, code) pairs seeded for a student: the defaults, then
      the chosen open elective, then the chosen AEC vertical. */
  function SubjectPlan(f: Form): (plan: seq<(string, string)>)
    ensures |plan| == 9
    ensures plan[..7] == DefaultSubjects
    ensures plan[7] == (f.openElective, f.openElectiveCode) && plan[8] == (f.aecVertical, f.aecVerticalCode)
  {
    DefaultSubjects + [(f.openElective, f.openElectiveCode), (f.aecVertical, f.aecVerticalCode)]
  }

  /** Subject rows for `plan`, numbered from `firstId`, owned by `student`. */
  function Seeded(firstId: nat, student: nat, plan: seq<(string, string)>): (rows: seq<SubjectRow>)
    ensures |rows| == |plan|
    ensures forall i :: 0 <= i < |rows| ==>
              rows[i].id == firstId + i && rows[i].student == student
              && (rows[i].name, rows[i].code) == plan[i]
  {
    seq(|plan|, i requires 0 <= i < |plan| => SubjectRow(firstId + i, student, plan[i].0, plan[i].1))
  }

  /** A failure of one statement inside the transaction: `step` 0 is the
      student insert, 1 to 9 the subject inserts in order. */
  datatype Fault = Fault(step: nat, error: string)

  /** One INSERT INTO subjects, taking the next AUTO_INCREMENT id. */
  method InsertSubject(db: Database, student: nat, name: string, code: string)
    requires db.Valid() && student < db.nextStudentId
    modifies db
    ensures db.Valid()
    ensures db.subjects == old(db.subjects) + [SubjectRow(old(db.nextSubjectId), student, name, code)]
    ensures db.nextSubjectId == old(db.nextSubjectId) + 1
    ensures db.students == old(db.students) && db.attendance == old(db.attendance) && db.marks == old(db.marks)
    ensures db.nextStudentId == old(db.nextStudentId) && db.nextAttendanceId == old(db.nextAttendanceId)
  {
    var row := SubjectRow(db.nextSubjectId, student, name, code);
    assert SubjectIds(db.subjects + [row]) == SubjectIds(db.subjects) + [row.id];
    db.subjects := db.subjects + [row];
    db.nextSubjectId := db.nextSubjectId + 1;
  }

  /** Registers a student from the posted fields, read by ReadForm. Checks run in order: request method, required
      fields, password length, usn already used as a usn or username. The
      student is stored with the usn as username and a hashed password, and
      nine subjects are seeded. A fault inside the transaction rolls every
      insert back. */
  method Register(db: Database, verb: RequestMethod, data: map<string, string>, semester: Option<int>,
                  fault: Option<Fault>)
    returns (reply: Outcome<string>)
    requires db.Valid()
    modifies db
    ensures db.Valid()
    ensures verb != Post ==> reply == Failure(InvalidRequestMethod)
    ensures verb == Post && MissingField(ReadForm(data, semester)) ==> reply == Failure("All fields are required")
    ensures verb == Post && RequiredFieldAbsent(data) ==> reply == Failure("All fields are required")
    ensures verb == Post && !MissingField(ReadForm(data, semester)) && PasswordTooShort(ReadForm(data, semester).password) ==>
              reply == Failure("Password must be at least 4 characters long")
    ensures verb == Post && !MissingField(ReadForm(data, semester)) && !PasswordTooShort(ReadForm(data, semester).password)
            && FindUser(old(db.students), ReadForm(data, semester).usn).Some? ==>
              reply == Failure("USN already registered. Please login instead.")
    ensures reply.Failure? ==>
              db.students == old(db.students) && db.subjects == old(db.subjects)
              && db.attendance == old(db.attendance) && db.marks == old(db.marks)
              && db.nextStudentId == old(db.nextStudentId) && db.nextSubjectId == old(db.nextSubjectId)
              && db.nextAttendanceId == old(db.nextAttendanceId)
    ensures reply.Success? <==>
              verb == Post && !MissingField(ReadForm(data, semester)) && !PasswordTooShort(ReadForm(data, semester).password)
              && FindUser(old(db.students), ReadForm(data, semester).usn).None?
              && (fault.None? || fault.value.step > 9)
    ensures reply.Success? ==>
              var id := old(db.nextStudentId);
              reply.value == "Registration successful! Redirecting to login..."
              && db.students == old(db.students)
                   + [StudentRow(id, ReadForm(data, semester).usn, ReadForm(data, semester).usn, Hashed(ReadForm(data, semester).password), ReadForm(data, semester).name, ReadForm(data, semester).semester, ReadForm(data, semester).college, None, false)]
              && db.subjects == old(db.subjects) + Seeded(old(db.nextSubjectId), id, SubjectPlan(ReadForm(data, semester)))
              && db.nextStudentId == id + 1 && db.nextSubjectId == old(db.nextSubjectId) + 9
              && db.attendance == old(db.attendance) && db.marks == old(db.marks)
              && db.nextAttendanceId == old(db.nextAttendanceId)
  {
    var f := ReadForm(data, semester);
    if verb != Post {
      return Failure(InvalidRequestMethod);
    }
    if MissingField(f) {
      return Failure("All fields are required");
    }
    if PasswordTooShort(f.password) {
      return Failure("Password must be at least 4 characters long");
    }
    if FindUser(db.students, f.usn).Some? {
      return Failure("USN already registered. Please login instead.");
    }
    var failed := Transaction(db, f, fault);
    if failed {
      return Failure("Registration failed: " + fault.value.error);
    }
    reply := Success("Registration successful! Redirecting to login...");
  }

  /** The transaction: the student insert, then the nine subject inserts;
      a fault at one of those ten statements rolls back everything. */
  method Transaction(db: Database, f: Form, fault: Option<Fault>) returns (failed: bool)
    requires db.Valid()
    modifies db
    ensures db.Valid()
    ensures failed <==> fault.Some? && fault.value.step <= 9
    ensures failed ==>
              db.students == old(db.students) && db.subjects == old(db.subjects)
              && db.nextStudentId == old(db.nextStudentId) && db.nextSubjectId == old(db.nextSubjectId)
    ensures !failed ==>
              var id := old(db.nextStudentId);
              db.students == old(db.students)
                + [StudentRow(id, f.usn, f.usn, Hashed(f.password), f.name, f.semester, f.college, None, false)]
              && db.subjects == old(db.subjects) + Seeded(old(db.nextSubjectId), id, SubjectPlan(f))
              && db.nextStudentId == id + 1 && db.nextSubjectId == old(db.nextSubjectId) + 9
    ensures db.attendance == old(db.attendance) && db.marks == old(db.marks)
    ensures db.nextAttendanceId == old(db.nextAttendanceId)
  {
    // begin_transaction: keep what a rollback restores
    var students0, subjects0 := db.students, db.subjects;
    var nextStudent0, nextSubject0 := db.nextStudentId, db.nextSubjectId;
    failed := fault.Some? && fault.value.step <= 9;
    if !(fault.Some? && fault.value.step == 0) {
      var id := InsertStudent(db, f);
      // the statement at `step` throws after step - 1 subject inserts
      var count := if failed then fault.value.step - 1 else 9;
      SeedSubjects(db, id, SubjectPlan(f), count);
      assert SubjectPlan(f)[..9] == SubjectPlan(f);
    }
    if failed {
      db.students, db.subjects := students0, subjects0;
      db.nextStudentId, db.nextSubjectId := nextStudent0, nextSubject0;
    }
  }

  /** INSERT INTO students: the usn doubles as the username, the password is
      stored hashed, and the credential column and prompted flag start
      empty. */
  method InsertStudent(db: Database, f: Form) returns (id: nat)
    requires db.Valid()
    modifies db
    ensures db.Valid()
    ensures id == old(db.nextStudentId) && db.nextStudentId == id + 1
    ensures db.students == old(db.students)
              + [StudentRow(id, f.usn, f.usn, Hashed(f.password), f.name, f.semester, f.college, None, false)]
    ensures db.subjects == old(db.subjects) && db.attendance == old(db.attendance) && db.marks == old(db.marks)
    ensures db.nextSubjectId == old(db.nextSubjectId) && db.nextAttendanceId == old(db.nextAttendanceId)
  {
    id := db.nextStudentId;
    var student := StudentRow(id, f.usn, f.usn, Hashed(f.password), f.name, f.semester, f.college, None, false);
    assert StudentIds(db.students + [student]) == StudentIds(db.students) + [id];
    db.students := db.students + [student];
    db.nextStudentId := db.nextStudentId + 1;
  }

  /** Inserts the first `count` subjects of `plan` for `student`, in order. */
  method SeedSubjects(db: Database, student: nat, plan: seq<(string, string)>, count: nat)
    requires db.Valid() && student < db.nextStudentId && count <= |plan|
    modifies db
    ensures db.Valid()
    ensures db.subjects == old(db.subjects) + Seeded(old(db.nextSubjectId), student, plan[..count])
    ensures db.nextSubjectId == old(db.nextSubjectId) + count
    ensures db.students == old(db.students) && db.attendance == old(db.attendance) && db.marks == old(db.marks)
    ensures db.nextStudentId == old(db.nextStudentId) && db.nextAttendanceId == old(db.nextAttendanceId)
  {
    var k := 0;
    while k < count
      invariant 0 <= k <= count
      invariant db.Valid() && db.nextStudentId == old(db.nextStudentId)
      invariant db.subjects == old(db.subjects) + Seeded(old(db.nextSubjectId), student, plan[..k])
      invariant db.nextSubjectId == old(db.nextSubjectId) + k
      invariant db.students == old(db.students) && db.attendance == old(db.attendance) && db.marks == old(db.marks)
      invariant db.nextAttendanceId == old(db.nextAttendanceId)
    {
      InsertSubject(db, student, plan[k].0, plan[k].1);
      assert Seeded(old(db.nextSubjectId), student, plan[..k + 1])
        == Seeded(old(db.nextSubjectId), student, plan[..k]) + [SubjectRow(old(db.nextSubjectId) + k, student, plan[k].0, plan[k].1)];
      k := k + 1;
    }
  }

  /** A new student's own subjects are exactly the nine seeded rows, in id
      order: the seven defaults, the open elective, then the AEC vertical. */
  lemma RegisteredStudentOwnsSeededSubjects(subjects: seq<SubjectRow>, nextStudentId: nat,
                                            firstId: nat, f: Form)
    requires forall i :: 0 <= i < |subjects| ==> subjects[i].student < nextStudentId
    ensures OwnedSubjects(subjects + Seeded(firstId, nextStudentId, SubjectPlan(f)), nextStudentId)
            == Seeded(firstId, nextStudentId, SubjectPlan(f))
    ensures |OwnedSubjects(subjects + Seeded(firstId, nextStudentId, SubjectPlan(f)), nextStudentId)| == 9
  {
    var p := (s: SubjectRow) => s.student == nextStudentId;
    var seeded := Seeded(firstId, nextStudentId, SubjectPlan(f));
    FilterAppend(subjects, seeded, p);
    forall x | x in subjects
      ensures !p(x)
    {
    }
    FilterNone(subjects, p);
    FilterAll(seeded, p);
  }
}
