/** The administrator dashboard script (admin-dashboard.js): three tables
    (students, subject mappings, attendance records) loaded from the admin
    endpoints, each narrowed by a case-insensitive search box, the
    attendance table also by an exact subject filter. */
module AdminDashboard {
  import opened Common

  /** A row of admin-get-students.php. */
  datatype StudentEntry = StudentEntry(usn: string, name: string, semester: string, college: string, createdAt: string)

  /** A row of admin-get-subjects.php. */
  datatype SubjectMapping = SubjectMapping(usn: string, studentName: string, subjectName: string, subjectCode: string)

  /** A row of admin-get-attendance.php. */
  datatype AttendanceEntry = AttendanceEntry(
    id: nat, usn: string, studentName: string, subjectName: string, date: string, status: string)

  /** A table body: the single "No ... found" (or error) row, or the rows. */
  datatype Body<T> = Notice(text: string) | Rows(rows: seq<T>)

  /** An option of the subject filter: its value and its caption. */
  datatype SubjectOption = SubjectOption(value: string, caption: string)

  /** What a loader's fetch produced. */
  datatype Load<T> = Loaded(items: T) | Refused | Thrown

  const ErrorLoading := "Error loading data"
  const NoStudents := "No students found"
  const NoMappings := "No subject mappings found"
  const NoRecords := "No attendance records found"

  /** The search predicate shared by the three tables: the lower-cased name
      or usn contains the (already lower-cased) term. */
  predicate MatchesSearch(name: string, usn: string, term: string) {
    Contains(Lower(name), term) || Contains(Lower(usn), term)
  }

  function SearchStudents(all: seq<StudentEntry>, term: string): seq<StudentEntry> {
    Filter(all, (s: StudentEntry) => MatchesSearch(s.name, s.usn, term))
  }

  function SearchMappings(all: seq<SubjectMapping>, term: string): seq<SubjectMapping> {
    Filter(all, (m: SubjectMapping) => MatchesSearch(m.studentName, m.usn, term))
  }

  /** filterAttendance: the search AND (no subject chosen OR the record's
      subject name equals the chosen one exactly). */
  predicate KeepRecord(r: AttendanceEntry, term: string, subject: string) {
    MatchesSearch(r.studentName, r.usn, term) && (subject == "" || r.subjectName == subject)
  }

  function FilterAttendance(all: seq<AttendanceEntry>, term: string, subject: string): seq<AttendanceEntry> {
    Filter(all, (r: AttendanceEntry) => KeepRecord(r, term, subject))
  }

  /** The body shown for a list: the notice when it is empty, else the rows. */
  function Render<T>(rows: seq<T>, notice: string): (b: Body<T>)
    ensures b.Notice? <==> |rows| == 0
    ensures b.Notice? ==> b.text == notice
    ensures b.Rows? ==> b.rows == rows
  {
    if |rows| == 0 then Notice(notice) else Rows(rows)
  }

  /** The subject filter's options: "All Subjects" with the empty value,
      then one option per subject from the server, in order. */
  function SubjectOptions(subjects: seq<string>): (opts: seq<SubjectOption>)
    ensures |opts| == |subjects| + 1
    ensures opts[0] == SubjectOption("", "All Subjects")
    ensures forall i :: 0 <= i < |subjects| ==> opts[i + 1] == SubjectOption(subjects[i], subjects[i])
  {
    [SubjectOption("", "All Subjects")] + seq(|subjects|, i requires 0 <= i < |subjects| => SubjectOption(subjects[i], subjects[i]))
  }

  /** The student search keeps exactly the matching students, in their
      loaded order; an empty term keeps everyone. */
  lemma SearchStudentsProperties(all: seq<StudentEntry>, term: string)
    ensures forall s :: s in SearchStudents(all, term) <==> s in all && MatchesSearch(s.name, s.usn, term)
    ensures IsSubsequence(SearchStudents(all, term), all)
    ensures term == "" ==> SearchStudents(all, term) == all
  {
    var p := (s: StudentEntry) => MatchesSearch(s.name, s.usn, term);
    forall s
      ensures s in SearchStudents(all, term) <==> s in all && p(s)
    {
      FilterMembership(all, p, s);
    }
    FilterIsSubsequence(all, p);
    if term == "" {
      forall s | s in all
        ensures p(s)
      {
        ContainsEmpty(Lower(s.name));
      }
      FilterAll(all, p);
    }
  }

  /** The same for the subject-mapping search, over student name or usn. */
  lemma SearchMappingsProperties(all: seq<SubjectMapping>, term: string)
    ensures forall m :: m in SearchMappings(all, term) <==> m in all && MatchesSearch(m.studentName, m.usn, term)
    ensures IsSubsequence(SearchMappings(all, term), all)
    ensures term == "" ==> SearchMappings(all, term) == all
  {
    var p := (m: SubjectMapping) => MatchesSearch(m.studentName, m.usn, term);
    forall m
      ensures m in SearchMappings(all, term) <==> m in all && p(m)
    {
      FilterMembership(all, p, m);
    }
    FilterIsSubsequence(all, p);
    if term == "" {
      forall m | m in all
        ensures p(m)
      {
        ContainsEmpty(Lower(m.studentName));
      }
      FilterAll(all, p);
    }
  }

  /** filterAttendance keeps exactly the records that match the search and
      the subject filter, in loaded order; with a subject chosen every kept
      record has that subject; with neither a term nor a subject it keeps
      every record. */
  lemma FilterAttendanceProperties(all: seq<AttendanceEntry>, term: string, subject: string)
    ensures forall r :: r in FilterAttendance(all, term, subject) <==> r in all && KeepRecord(r, term, subject)
    ensures IsSubsequence(FilterAttendance(all, term, subject), all)
    ensures subject != "" ==> forall r :: r in FilterAttendance(all, term, subject) ==> r.subjectName == subject
    ensures term == "" && subject == "" ==> FilterAttendance(all, term, subject) == all
  {
    var p := (r: AttendanceEntry) => KeepRecord(r, term, subject);
    forall r
      ensures r in FilterAttendance(all, term, subject) <==> r in all && p(r)
    {
      FilterMembership(all, p, r);
    }
    FilterIsSubsequence(all, p);
    if term == "" && subject == "" {
      forall r | r in all
        ensures p(r)
      {
        ContainsEmpty(Lower(r.studentName));
      }
      FilterAll(all, p);
    }
  }

  /** The dashboard's state: the loaded lists and what each table shows. */
  class Dashboard {
    var allStudents: seq<StudentEntry>
    var allMappings: seq<SubjectMapping>
    var allAttendance: seq<AttendanceEntry>
    var allSubjectNames: seq<string>
    var studentsBody: Body<StudentEntry>
    var mappingsBody: Body<SubjectMapping>
    var attendanceBody: Body<AttendanceEntry>
    var subjectOptions: seq<SubjectOption>

    constructor ()
      ensures allStudents == [] && allMappings == [] && allAttendance == [] && allSubjectNames == []
      ensures studentsBody == Rows([]) && mappingsBody == Rows([]) && attendanceBody == Rows([])
      ensures subjectOptions == []
    {
      allStudents, allMappings, allAttendance, allSubjectNames := [], [], [], [];
      studentsBody, mappingsBody, attendanceBody := Rows([]), Rows([]), Rows([]);
      subjectOptions := [];
    }

    /** loadStudents: a successful reply replaces the list and shows it; a
        refusal shows "No students found"; a thrown error the error row. */
    method LoadStudents(reply: Load<seq<StudentEntry>>)
      modifies this
      ensures reply.Loaded? ==> allStudents == reply.items && studentsBody == Render(reply.items, NoStudents)
      ensures reply.Refused? ==> allStudents == old(allStudents) && studentsBody == Notice(NoStudents)
      ensures reply.Thrown? ==> allStudents == old(allStudents) && studentsBody == Notice(ErrorLoading)
      ensures allMappings == old(allMappings) && mappingsBody == old(mappingsBody)
      ensures allAttendance == old(allAttendance) && attendanceBody == old(attendanceBody)
      ensures allSubjectNames == old(allSubjectNames) && subjectOptions == old(subjectOptions)
    {
      match reply
      case Loaded(items) =>
        allStudents := items;
        studentsBody := Render(items, NoStudents);
      case Refused =>
        studentsBody := Notice(NoStudents);
      case Thrown =>
        studentsBody := Notice(ErrorLoading);
    }

    /** Typing in the student search box. */
    method StudentSearch(input: string)
      modifies this
      ensures studentsBody == Render(SearchStudents(allStudents, Lower(input)), NoStudents)
      ensures allStudents == old(allStudents)
      ensures allMappings == old(allMappings) && mappingsBody == old(mappingsBody)
      ensures allAttendance == old(allAttendance) && attendanceBody == old(attendanceBody)
      ensures allSubjectNames == old(allSubjectNames) && subjectOptions == old(subjectOptions)
    {
      studentsBody := Render(SearchStudents(allStudents, Lower(input)), NoStudents);
    }

    /** loadSubjectMappings. */
    method LoadMappings(reply: Load<seq<SubjectMapping>>)
      modifies this
      ensures reply.Loaded? ==> allMappings == reply.items && mappingsBody == Render(reply.items, NoMappings)
      ensures reply.Refused? ==> allMappings == old(allMappings) && mappingsBody == Notice(NoMappings)
      ensures reply.Thrown? ==> allMappings == old(allMappings) && mappingsBody == Notice(ErrorLoading)
      ensures allStudents == old(allStudents) && studentsBody == old(studentsBody)
      ensures allAttendance == old(allAttendance) && attendanceBody == old(attendanceBody)
      ensures allSubjectNames == old(allSubjectNames) && subjectOptions == old(subjectOptions)
    {
      match reply
      case Loaded(items) =>
        allMappings := items;
        mappingsBody := Render(items, NoMappings);
      case Refused =>
        mappingsBody := Notice(NoMappings);
      case Thrown =>
        mappingsBody := Notice(ErrorLoading);
    }

    /** Typing in the subject-mapping search box. */
    method MappingSearch(input: string)
      modifies this
      ensures mappingsBody == Render(SearchMappings(allMappings, Lower(input)), NoMappings)
      ensures allMappings == old(allMappings)
      ensures allStudents == old(allStudents) && studentsBody == old(studentsBody)
      ensures allAttendance == old(allAttendance) && attendanceBody == old(attendanceBody)
      ensures allSubjectNames == old(allSubjectNames) && subjectOptions == old(subjectOptions)
    {
      mappingsBody := Render(SearchMappings(allMappings, Lower(input)), NoMappings);
    }

    /** loadAttendanceRecords: a successful reply replaces both lists,
        rebuilds the subject filter and shows every record (the current
        search is not reapplied). */
    method LoadAttendance(reply: Load<(seq<AttendanceEntry>, seq<string>)>)
      modifies this
      ensures reply.Loaded? ==>
                allAttendance == reply.items.0 && allSubjectNames == reply.items.1
                && subjectOptions == SubjectOptions(reply.items.1)
                && attendanceBody == Render(reply.items.0, NoRecords)
      ensures reply.Refused? ==>
                allAttendance == old(allAttendance) && allSubjectNames == old(allSubjectNames)
                && subjectOptions == old(subjectOptions) && attendanceBody == Notice(NoRecords)
      ensures reply.Thrown? ==>
                allAttendance == old(allAttendance) && allSubjectNames == old(allSubjectNames)
                && subjectOptions == old(subjectOptions) && attendanceBody == Notice(ErrorLoading)
      ensures allStudents == old(allStudents) && studentsBody == old(studentsBody)
      ensures allMappings == old(allMappings) && mappingsBody == old(mappingsBody)
    {
      match reply
      case Loaded(items) =>
        allAttendance := items.0;
        allSubjectNames := items.1;
        subjectOptions := SubjectOptions(items.1);
        attendanceBody := Render(items.0, NoRecords);
      case Refused =>
        attendanceBody := Notice(NoRecords);
      case Thrown =>
        attendanceBody := Notice(ErrorLoading);
    }

    /** Typing in the attendance search or changing the subject filter. */
    method AttendanceFilter(input: string, subject: string)
      modifies this
      ensures attendanceBody == Render(FilterAttendance(allAttendance, Lower(input), subject), NoRecords)
      ensures allAttendance == old(allAttendance) && allSubjectNames == old(allSubjectNames)
      ensures subjectOptions == old(subjectOptions)
      ensures allStudents == old(allStudents) && studentsBody == old(studentsBody)
      ensures allMappings == old(allMappings) && mappingsBody == old(mappingsBody)
    {
      attendanceBody := Render(FilterAttendance(allAttendance, Lower(input), subject), NoRecords);
    }
  }

  /** deleteAttendance: nothing is sent unless the administrator confirms;
      otherwise the record's id is posted. */
  function DeleteRequest(confirmed: bool, id: nat): (r: Option<nat>)
    ensures r.Some? <==> confirmed
    ensures r.Some? ==> r.value == id
  {
    if confirmed then Some(id) else None
  }

  /** The reply of admin-delete-attendance.php as the page sees it. */
  datatype DeleteReply = Deleted | NotDeleted(message: string) | DeleteThrown

  /** The delete reply: success reloads the records (and raises no alert);
      a refusal alerts with the server's message; a thrown error alerts
      with a fixed text. */
  function DeleteOutcome(reply: DeleteReply): (r: (bool, Option<string>))
    ensures r.0 <==> reply.Deleted?
    ensures r.1.None? <==> reply.Deleted?
    ensures reply.NotDeleted? ==> r.1 == Some("Error deleting record: " + reply.message)
    ensures reply.DeleteThrown? ==> r.1 == Some("An error occurred while deleting the record")
  {
    match reply
    case Deleted => (true, None)
    case NotDeleted(message) => (false, Some("Error deleting record: " + message))
    case DeleteThrown => (false, Some("An error occurred while deleting the record"))
  }
}
