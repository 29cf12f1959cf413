# smartin: attendance and marks tracker, modelled in Dafny

smartin is a small web application for students. A student registers with
a university seat number (usn). Registration seeds nine subjects for them.
The student then marks each class as present or absent, records internal
assessment (IA) marks out of 50, and sees:

- per-subject and overall attendance percentages;
- a monthly calendar of marked days;
- the dates marked for one subject, grouped by month.

A student can also register a platform authenticator (WebAuthn) for a
one-tap login. An administrator sees read-only tables of students, subject
mappings and attendance records, and can delete attendance records.

The server is a set of PHP endpoints over a MySQL database. The client is
a set of browser scripts. This project models both sides.

- Each endpoint is a method over a `Database` object (tables as sequences,
  auto-increment counters) and a `Session` object (the PHP session).
  Each one returns the JSON reply as a datatype.
- Each page script is a class holding the page's state. Its event
  handlers are methods, and asynchronous replies arrive as method calls.

Modules:

- `Common`: filtering, sorting, substring search, ASCII lower case, PHP
  and JavaScript `trim`, half-up rounding, UTF-8/UTF-16 lengths.
- `Codec`: `bin2hex` and the page's hex-pair parsing; Base64 as `btoa`
  writes it (section 4 of RFC 4648) and `atob` reads it.
- `Store`: the rows, the database and the session.
- `Attendance`, `Marks`, `FingerprintRegister`, `FingerprintAuth`,
  `LoginServer`, `RegisterServer`: the endpoints.
- `DashboardAttendance`, `DashboardMarks`, `DashboardFingerprint`,
  `LoginPage`, `RegisterPage`, `AdminDashboard`: the pages.

## Model

| member | source | states |
|---|---|---|
| Store.ParseStatus | update_attendance.php:21 | "present" and "absent" each give their own status and nothing else does |
| Store.FindUser | login.php:13 | the index found is the first student whose usn or username equals the login; None iff no student has it |
| Store.StudentWithId | fingerprint_auth.php:110 | the index found is the first row with that id; None iff no row has it |
| Store.Field | fingerprint_register.php:38-40 | a present key gives its value, a missing key the default |
| Store.Session.SignIn | login.php:33-37 | logged_in, username, usn, student_id and name are set; the other session keys are unchanged |
| Store.DateLeTotalPreorder | get_attendance_by_date.php:30-34 | the date order is total and transitive, so ORDER BY date is well defined |
| Common.TrimBy | register.php:7-15 | the result is a contiguous slice of the input with no trimmed character at either end, and only trimmed characters were cut |
| Common.Utf16NotLongerThanUtf8 | register.js:33-36 | a string's character count is at most its UTF-16 length, which is at most its UTF-8 byte length |
| Common.Round2 | get_attendance.php:26 | the result lies on the two-decimal grid, within half a unit of the input, ties upward |
| Common.Round2Bounded | get_attendance.php:26 | rounding a value in [0, 100] stays in [0, 100] |
| Common.OrElse | login.js:276 | an absent or empty message gives the fallback; any other message is kept |
| Codec.Bin2Hex | fingerprint_register.php:22 | the text is hex digits only and twice as long as the bytes |
| Codec.HexChallengeBytes | login.js:161 | None exactly when `match` finds no chunk of one or two characters (it returns null and `.map` throws) |
| Codec.HexRoundTrip | dashboard.js:1370 | parsing bin2hex's output gives back exactly the bytes |
| Codec.Base64Encode | login.js:296-303 | the text length is a multiple of 4 (its meaning is Codec.Base64RoundTrip) |
| Codec.Base64RoundTrip | login.js:305-312 | atob of btoa's output gives back exactly the bytes |
| Codec.ArrayBufferToBase64 | login.js:296-303 | the result is the Base64 text of the bytes and decodes back to them |
| Codec.Base64ToArrayBuffer | login.js:305-312 | the bytes are what atob decodes; text atob rejects gives None |
| LoginServer.PasswordMatchesExactly | login.php:24-30 | a hashed password and a legacy plain one each accept exactly the original password |
| LoginServer.Login | login.php:6-63 | success iff the request is POST, a student has that usn or username, and the password matches; success signs the session in; every failure leaves the session untouched |
| RegisterServer.SubjectPlan | register.php:72-82 | nine (name, code) pairs: the seven defaults, then the open elective and the AEC vertical as typed |
| RegisterServer.Seeded | register.php:87-98 | one row per planned subject, consecutive ids from the first, all owned by the new student |
| RegisterServer.InsertSubject | register.php:87-98 | appends one subject row with the next id, and nothing else changes |
| RegisterServer.InsertStudent | register.php:65-68 | appends one student row with the next id, the usn as username and the hashed password |
| RegisterServer.SeedSubjects | register.php:87-98 | after the loop the subjects table is the old one followed by the seeded rows |
| RegisterServer.Transaction | register.php:61-117 | commit leaves the student and all nine subjects; a failure at any insert rolls back to the old tables |
| RegisterServer.ReadForm | register.php:7-15 | the password is taken as posted; a trimmed required field that was not posted or holds only spaces reads as empty; the semester defaults to 6 and the college to the one college served |
| RegisterServer.Register | register.php:7-117 | starting from the posted fields: non-POST, a required field absent or only spaces, a password under 4 bytes and a taken usn or username are refused with the database unchanged; otherwise success iff the transaction commits, with the fields as ReadForm reads them |
| RegisterServer.RegisteredStudentOwnsSeededSubjects | register.php:87-98 | the new student's own subjects, in id order, are exactly the nine seeded rows |
| Attendance.UpdateAttendance | update_attendance.php:7-55 | an authenticated valid request appends one row dated today; anything else leaves the table unchanged with the matching error |
| Attendance.DeleteByIdRemovesAtMostOne | admin-delete-attendance.php:21 | with unique ids, deleting by id removes at most one row, keeps every row with another id, and keeps their order |
| Attendance.DeleteStudentAttendance | delete_student_attendance.php:7-53 | the row is removed iff it exists and belongs to the signed-in student; the reply reports whether a row went |
| Attendance.AdminDeleteAttendance | admin-delete-attendance.php:7-50 | an empty id is refused; otherwise the row with that id is removed, if any, and the reply says whether it was |
| Attendance.SqlPercentageIsPercentage | get_attendance.php:26 | MySQL's percentage, with its four-digit division, equals the percentage rounded to two decimals |
| Attendance.PercentageBounded | get_attendance.php:26 | a subject's percentage lies in [0, 100] |
| Attendance.FullPercentage | get_attendance.php:26 | all present gives exactly 100 |
| Attendance.StatProperties | get_attendance.php:19-33 | an entry keeps its subject's id, name and code; present is at most total; the percentage lies in [0, 100], is 0 without classes and 100 when all are present |
| Attendance.PresentCountsOwnRows | get_attendance.php:19-33 | a row is counted as present iff it is a present row of that student and subject |
| Attendance.Stats | get_attendance.php:19-33 | one entry per owned subject |
| Attendance.OverallBounded | get_attendance.php:59 | the overall percentage lies in [0, 100], and is 0 without classes |
| Attendance.SummaryListsOwnSubjectsInIdOrder | get_attendance.php:19-33 | the reply lists exactly the student's subjects, ids strictly increasing |
| Attendance.GetAttendance | get_attendance.php:44-65 | an unauthenticated request is refused; otherwise the reply is the summary of the student's own subjects |
| Attendance.GroupKeyMembership | get_calendar_data.php:31-38 | a (date, status) group exists iff some row has that date and status |
| Attendance.CountOnAbsentPair | get_calendar_data.php:45-52 | a status that never occurs on a day is counted 0 |
| Attendance.GetCalendarData | get_calendar_data.php:16-59 | non-numeric year or month is refused; the days listed are exactly those with rows in the month, each with its present and absent counts; year and month default to today's |
| Attendance.CalendarDaysAreNonEmpty | get_calendar_data.php:45-52 | every day in the reply has at least one row |
| Attendance.JoinSubjects | get_attendance_by_date.php:30-34 | at most one entry per row, and every row whose subject exists yields its entry with that subject's name and code |
| Attendance.JoinedEntryOrigin | get_attendance_by_date.php:30-34 | every joined entry comes from a row of that student on that date |
| Attendance.GetAttendanceByDate | get_attendance_by_date.php:16-55 | an empty date is refused; otherwise the day's joined rows ordered by subject name, none for a date that does not parse |
| Attendance.ByDateEntriesAreOwnRows | get_attendance_by_date.php:41-55 | every entry comes from one of the student's rows of that day, with its id, its status and its subject's name and code |
| Attendance.ByDateListsEveryOwnRow | get_attendance_by_date.php:30-34 | conversely, with unique ids, each of the student's rows of that day whose subject exists is listed exactly once, with its id, its subject's name and code, and its status |
| Attendance.OwnedSubject | get_subject_attendance_dates.php:30-44 | the subject is found iff it exists and belongs to the student |
| Attendance.GetSubjectAttendanceDates | get_subject_attendance_dates.php:16-74 | an empty id or a foreign subject is refused; otherwise the subject's rows, newest first |
| Attendance.SubjectRowsAreOwnRows | get_subject_attendance_dates.php:50-53 | the listed dates are exactly the student's rows of that subject, as a permutation |
| Marks.SetObtained | update_marks.php:54-56 | the table keeps its length (the stored value is stated by Marks.UpsertStores) |
| Marks.IntCast | update_marks.php:58 | for a non-negative value, its whole part |
| Marks.UpsertAsWrittenStores | update_marks.php:54-58 | as bound ("iiidi"): a new key stores the value, an existing key stores its whole part, rows with another key are kept, and the table keeps one row per key |
| Marks.AsWrittenNotIdempotent | update_marks.php:54-58 | saving a fractional mark twice, for an IA without a row, as bound leaves a different table: the fraction is dropped the second time (25.5, then 25) |
| Marks.UpsertStores | update_marks.php:54-56 | with both values bound as doubles: the table keeps one row per key, the key has a row, and it holds the value |
| Marks.UpsertIdempotent | update_marks.php:54-56 | saving the same value twice leaves the table as saving it once |
| Marks.UpsertKeepsOtherKeys | update_marks.php:54-56 | rows with another key are neither changed, dropped nor added |
| Marks.DeleteKeyProperties | update_marks.php:49-51 | clearing removes the key's row and nothing else |
| Marks.DeleteKeyKeyed | update_marks.php:49-51 | clearing keeps one row per key |
| Marks.UpdateMarks | update_marks.php:7-80 | an empty mark clears the key; a mark in [0, 50] goes through the upsert as bound (stored as posted for a new key, its whole part for an existing one); every refusal leaves the table unchanged with its message |
| Marks.SlotMatchesRow | get_marks.php:42-53 | an IA slot is filled iff a row for that key exists, and then holds its value |
| Marks.SlotOfKeyedRows | get_marks.php:42-53 | with one row per key, the slot is that row |
| Marks.GetMarks | get_marks.php:15-72 | one entry per owned subject in id order, each with its three slots |
| FingerprintRegister.PublicView | fingerprint_register.php:98-100 | one entry per credential, which is the credential without its public key |
| FingerprintRegister.RemoveCredentialProperties | fingerprint_register.php:131-134 | exactly the credentials with another id remain, in order; removing twice is removing once |
| FingerprintRegister.StoredColumnRoundTrip | fingerprint_register.php:61-70 | a stored list reads back as itself, and a non-NULL column is never an empty list |
| FingerprintRegister.SetColumnsReadBack | fingerprint_register.php:70 | the row reads back the new credentials and the prompted flag, and stays the row with that id |
| FingerprintRegister.SetCredentialsReadBack | fingerprint_register.php:138 | the row reads back the new credentials |
| FingerprintRegister.GetChallenge | fingerprint_register.php:20-34 | a 64-digit hex challenge that parses back to the random bytes is stored in the session; the reply carries the usn and the name (or username) |
| FingerprintRegister.RegisterCredential | fingerprint_register.php:36-83 | a missing id or key is refused; otherwise the credential is appended, the student is marked prompted and the reply counts the list |
| FingerprintRegister.GetCredentials | fingerprint_register.php:85-107 | the reply lists the public view of each stored credential, in order |
| FingerprintRegister.DeleteCredential | fingerprint_register.php:109-151 | credentials with that id are removed and the reply counts the rest; the prompted flags are unchanged |
| FingerprintRegister.DismissPrompt | fingerprint_register.php:153-161 | the student is marked prompted and no credential changes |
| FingerprintRegister.Handle | fingerprint_register.php:7-168 | an unauthenticated request, a non-POST request or an unknown action changes nothing; only get_challenge touches the session and only the three writing actions touch the database |
| FingerprintAuth.CredentialIds | fingerprint_auth.php:72-78 | the ids of the stored credentials, in order |
| FingerprintAuth.CredentialIdsMembership | fingerprint_auth.php:72-78 | an id is offered iff a stored credential has it |
| FingerprintAuth.CheckUser | fingerprint_auth.php:13-47 | an empty username is refused; a missing user is reported; a found user is reported with a flag that is true iff they have a credential |
| FingerprintAuth.GetAuthChallenge | fingerprint_auth.php:49-89 | success iff the user exists and has credentials; the challenge and the user id go in the session and the reply lists the credential ids; failures leave the session |
| FingerprintAuth.Recognizes | fingerprint_auth.php:121-128 | true iff a stored credential has the id |
| FingerprintAuth.VerifyAuth | fingerprint_auth.php:91-153 | success iff a pending user exists and the id is one of their credentials; success signs the session in and clears the pending challenge; failures leave the session |
| FingerprintAuth.Handle | fingerprint_auth.php:7-165 | a non-POST request or an unknown action is refused with the session unchanged; only get_auth_challenge and verify_auth touch the session |
| LoginPage.LayoutsCoherent | login.js:73-118 | in every layout the password is required iff shown, and exactly one login button shows; only the fingerprint layout hides the password |
| LoginPage.RememberedAfterLogin | login.js:268-272 | a missing usn or name is replaced by the typed username; a non-empty usn is kept |
| LoginPage.DecodeAll | login.js:163-167 | every id decoded, in order; None iff some id is not Base64 |
| LoginPage.Page.constructor | login.js:13-20 | nothing remembered, normal layout, no error, WebAuthn support recorded |
| LoginPage.Page.CheckRememberedUser | login.js:23-34 | nothing stored does nothing; an unparsable record is removed; a record is cached and its username checked |
| LoginPage.Page.VerifyRememberedUser | login.js:37-70 | a found user refreshes the record and hides the password iff they have a credential and WebAuthn works; a missing user clears the record; an error keeps the password layout |
| LoginPage.Page.SwitchUser | login.js:103-126 | normal layout, temporarily switched; storage is kept |
| LoginPage.Page.TypeUsername | login.js:73-86 | a locked username field does not change |
| LoginPage.Page.OneTapClick | login.js:129-152 | no WebAuthn or an empty username shows its error and sends nothing; otherwise the challenge is requested for the username |
| LoginPage.Page.ChallengeReceived | login.js:152-167 | a refusal shows the message or the default; otherwise the prompt gets the decoded challenge and ids, and a decoding failure shows the generic error |
| LoginPage.Page.AssertionFailed | login.js:199-207 | NotAllowedError shows the cancel message, any other error the generic one, and the button is re-enabled |
| LoginPage.Page.AssertionReturned | login.js:179-189 | the id, authenticator data and signature are posted in Base64, and the id decodes back |
| LoginPage.Page.VerifyReceived | login.js:190-198 | success goes to the dashboard; a refusal shows the message or the default, re-enables the button and does not redirect |
| LoginPage.Page.Submit | login.js:229-262 | an empty trimmed username, or a shown but empty password, shows its error and sends nothing; a hidden password starts the 1-Tap flow, unless one is already in flight and the disabled button ignores the click; otherwise the trimmed username and the password are posted |
| LoginPage.Page.LoginReceived | login.js:263-279 | success writes the remembered record and leaves; failure shows the message or the default |
| LoginPage.Page.LoginThrown | login.js:280-284 | the connection error is shown and the button re-enabled |
| LoginPage.RememberedFromLoginReply | login.js:268-272 | as login.php replies, the record holds the typed username in both fields |
| LoginPage.RegisteredIdComesBack | login.js:163-167 | an id registered as the Base64 of raw bytes decodes to those bytes, which re-encode to an id the server recognises |
| LoginPage.DecodeOne | login.js:305-312 | one id decodes iff it is valid Base64 |
| RegisterPage.Page.constructor | register.js:5-7 | the page remembers whether registration is closed; no messages |
| RegisterPage.Page.Submit | register.js:1-48 | a closed page, a mismatch or a password under 4 UTF-16 units sends nothing and shows its error; otherwise the FormData is posted |
| RegisterPage.Page.Receive | register.js:57-68 | success shows the server's message and clears the error; failure the reverse |
| RegisterPage.Page.Fail | register.js:69-72 | the generic error is shown |
| RegisterPage.ClientLengthImpliesServerLength | register.php:30-36 | a password the page lets through also passes the server's byte-length check |
| AdminDashboard.Render | admin-dashboard.js:56-73 | an empty list shows the notice, any other list its rows |
| AdminDashboard.SubjectOptions | admin-dashboard.js:148-152 | "All Subjects" with the empty value, then one option per subject in order |
| AdminDashboard.SearchStudentsProperties | admin-dashboard.js:76-83 | exactly the students whose lower-cased name or usn contains the term, in order; an empty term keeps all |
| AdminDashboard.SearchMappingsProperties | admin-dashboard.js:125-132 | the same over student name or usn |
| AdminDashboard.FilterAttendanceProperties | admin-dashboard.js:194-207 | exactly the records matching the search and the chosen subject, in order; with a subject chosen, every record has it; nothing chosen or typed keeps all |
| AdminDashboard.Dashboard.constructor | admin-dashboard.js:36 | all lists and options empty, every table empty |
| AdminDashboard.Dashboard.LoadStudents | admin-dashboard.js:37-54 | success replaces and shows the list; a refusal or error shows its notice |
| AdminDashboard.Dashboard.StudentSearch | admin-dashboard.js:76-83 | the table shows the search over the loaded list |
| AdminDashboard.Dashboard.LoadMappings | admin-dashboard.js:87-104 | success replaces and shows the list; a refusal or error shows its notice |
| AdminDashboard.Dashboard.MappingSearch | admin-dashboard.js:125-132 | the table shows the search over the loaded mappings |
| AdminDashboard.Dashboard.LoadAttendance | admin-dashboard.js:138-164 | success replaces both lists and the options and shows all records; a refusal or error shows its notice |
| AdminDashboard.Dashboard.AttendanceFilter | admin-dashboard.js:194-207 | the table shows the filter over the loaded records |
| AdminDashboard.DeleteRequest | admin-dashboard.js:210-222 | the id is posted iff the administrator confirms |
| AdminDashboard.DeleteOutcome | admin-dashboard.js:224-235 | success reloads without an alert; a refusal alerts the message, an error the fixed text |
| DashboardAttendance.PercentageClass | dashboard.js:429-437 | high above 85, medium from 75 to 85, low below 75 |
| DashboardAttendance.StrokeFollowsBand | dashboard.js:466-472 | the card's colour is the circle's colour for the same band: green iff above 85, red iff below 75 |
| DashboardAttendance.ToggleKeyInjective | dashboard.js:275-283 | different sections use different storage keys |
| DashboardAttendance.ToggleReadBack | dashboard.js:275-283 | a toggle reads back what was stored last and leaves others alone; nothing stored reads off |
| DashboardAttendance.SumsPermutation | dashboard.js:362-395 | the sums do not depend on the order of the subjects |
| DashboardAttendance.SwitchedOffSectionIgnored | dashboard.js:382-395 | a section switched off does not affect the figure, whatever its list holds |
| DashboardAttendance.ToggleOffOnRestores | dashboard.js:353-356 | switching an enabled section off and on again restores the figure |
| DashboardAttendance.OverallBounded | dashboard.js:397-398 | the figure lies in [0, 100] when no subject has more present than classes |
| DashboardAttendance.AllSectionsMatchServer | dashboard.js:362-398 | with both sections on and the lists holding the server's subjects in any order, the page shows the server's overall figure |
| DashboardAttendance.Overview.constructor | dashboard.js:275-278 | the stored toggles kept; nothing cached or shown |
| DashboardAttendance.Overview.AddUp | dashboard.js:376-379 | the loop adds each subject's present and total counts |
| DashboardAttendance.Overview.UpdateOverallAttendance | dashboard.js:362-407 | nothing before a reply; then the figure from the cache and toggles, and its band |
| DashboardAttendance.Overview.AttendanceLoaded | dashboard.js:175-184 | the reply is cached and the figure recomputed |
| DashboardAttendance.Overview.ToggleChanged | dashboard.js:353-356 | the toggle is stored, reads back as set, and the figure is recomputed |
| DashboardAttendance.DaysInMonth | dashboard.js:557 | 28 to 31 days, and only February can have 28 |
| DashboardAttendance.PrevMonthDays | dashboard.js:558 | 28 to 31 days |
| DashboardAttendance.Trailing | dashboard.js:582 | fewer than 7 cells, completing the last week |
| DashboardAttendance.GridLayout | dashboard.js:552-587 | four to six whole weeks; the month's days in order after the leading cells; only the month's cells carry a date; fewer than 7 trailing cells |
| DashboardAttendance.GenerateCalendarDays | dashboard.js:552-587 | the three loops build exactly the grid |
| DashboardAttendance.DayCells | dashboard.js:589-671 | other-month cells show nothing and are not clickable; a day is clickable iff not in the future, and its dots and plus signs follow its counts |
| DashboardAttendance.Calendar.constructor | dashboard.js:2-10 | the current month shown, today selected, no data |
| DashboardAttendance.Calendar.HandleDateClick | dashboard.js:674-697 | a future date does nothing; the selected date with data opens details; any other date is selected and redrawn |
| DashboardAttendance.Calendar.Render | dashboard.js:528-550 | a success replaces the map; a refusal draws nothing; a success or an error draws the grid from the map held |
| DashboardAttendance.MonthLeTotalPreorder | dashboard.js:803 | the month order is total and transitive |
| DashboardAttendance.NewestFirstOrder | dashboard.js:803 | the month headers are the group keys, each once, newest first |
| DashboardAttendance.CollectGroups | dashboard.js:785-800 | one distinct key per month met; each group holds exactly that month's entries in reply order |
| DashboardAttendance.GroupByMonth | dashboard.js:781-803 | the headers are the months met, each once, newest first; each group holds exactly that month's entries in reply order |
| DashboardAttendance.GroupMembership | dashboard.js:787-800 | an entry is under a header iff it falls in that month |
| DashboardMarks.Entered | dashboard.js:1027 | at most three marks |
| DashboardMarks.MarksStats | dashboard.js:1026-1086 | no marks asks for marks; three marks compare the average with 20; fewer give the per-IA need with its 50 and 0 thresholds |
| DashboardMarks.TargetMeaning | dashboard.js:1048-1079 | success means 60 in total is reached; "not achievable" means 50 in every remaining IA falls short |
| DashboardMarks.NeedMeaning | dashboard.js:1059-1060 | the need is the even share of what remains to 60 |
| DashboardMarks.SlotsDoNotMatter | dashboard.js:1069-1077 | the message depends on how many IAs are filled, not which |
| DashboardMarks.MarkField.constructor | dashboard.js:951-959 | the field's subject, IA number and value |
| DashboardMarks.UpdateMarks | dashboard.js:1088-1106 | a number outside 0..50 alerts, clears the field and posts nothing; otherwise the value is posted as typed |
| DashboardMarks.RangeChecksAgree | dashboard.js:1094 | the page posts a value iff update_marks.php's range check accepts it |
| DashboardMarks.Debouncer.constructor | dashboard.js:918-919 | no pending call, none run |
| DashboardMarks.Debouncer.Call | dashboard.js:925-926 | the pending call is replaced |
| DashboardMarks.Debouncer.Elapse | dashboard.js:921-924 | the pending call runs once and the slot empties |
| DashboardFingerprint.DeviceNameFirstMatch | dashboard.js:1592-1601 | the name is the first matching pattern's; "Unknown Device" iff none matches |
| DashboardFingerprint.RegisterBody | dashboard.js:1409-1414 | id and key posted in Base64, each decoding back to the authenticator's bytes |
| DashboardFingerprint.IssuedChallengeDecodes | dashboard.js:1370 | the server's bin2hex challenge parses back to its 32 bytes |
| DashboardFingerprint.Panel.constructor | dashboard.js:146-158 | the user cached and the button reflecting whether they have a credential |
| DashboardFingerprint.Panel.RegistrationThrown | dashboard.js:1453-1478 | the alert chosen by the error's name, and the buttons re-enabled |
| DashboardFingerprint.Panel.RegisterClicked | dashboard.js:1337-1354 | without WebAuthn only an alert; otherwise the buttons go busy and the challenge is requested |
| DashboardFingerprint.Panel.ChallengeReceived | dashboard.js:1365-1403 | a refusal alerts its message or the default; an unparsable challenge alerts the TypeError; otherwise the ceremony gets the decoded challenge, the user and the device name |
| DashboardFingerprint.Panel.RegisterReplied | dashboard.js:1418-1452 | success remembers the user, closes both modals, marks the button and never reloads the list; failure throws the message |
| DashboardFingerprint.Panel.DeleteReplied | dashboard.js:1565-1588 | success reloads the list, and a count of 0 clears the button, the flag and the remembered record; a refusal alerts its message |

## Left out

- Database errors: a failed connect, prepare or execute is not modelled. Neither is MySQL's fetch order for rows that tie under ORDER BY.
- check_auth.php, check_admin_auth.php, config.php, get_user_info.php, the admin login and the admin listing endpoints are not part of this model. Their replies appear as parameters.
- The pages' DOM, timers, confirm dialogs and fetch are modelled as events. Each asynchronous reply is a method call.
- Marks.IntCast: models truncation toward zero only for the non-negative marks the endpoint lets through.
- DashboardAttendance.Overall, DashboardAttendance.AllSectionsMatchServer, DashboardMarks.Fixed2 and DashboardMarks.Fixed1 compute on exact reals with half-up rounding. The page computes on IEEE doubles and `toFixed`, which can round a tie down (23 present of 160 shows 14.37 on the page, 14.38 here). Floating-point rounding is not captured.
- Column types are not modelled. The marks column's precision and MySQL's collation are left out. Names compare as code-point strings.
- intval, PHP's loose JSON values and JavaScript's number parsing are not modelled. Request parameters arrive already parsed.
- `Common.Lower` folds ASCII letters only. JavaScript's full Unicode lower-casing is left out.
- An AUTO_INCREMENT value is not consumed by a rolled-back registration in this model. MySQL may consume it.
- The WebAuthn ceremonies are not modelled. `create` and `get` are events that return byte strings. The verify_auth action of fingerprint_auth.php does not check the signature or the authenticator data, and the model follows the code.
- Calendar month navigation is left out: the prev/next buttons and `setMonth`.
- Date strings are modelled as `Date` values. Formatting them for display is left out.
- LoginPage.Page.CheckRememberedUser: a stored JSON value that parses but is not an object is not modelled.
- DashboardFingerprint.Panel.RegistrationThrown: a TypeError's engine text is a fixed stand-in.
- update_marks.php's reply shown by the page (`loadMarks` or an alert) is not modelled.
- dashboard.js:190 reads `data.categorized`, which get_attendance.php does not return. The model takes the categorised lists as given.
- dashboard.js:505 posts a date, but update_attendance.php ignores it and uses CURDATE(). The model uses the server's date.
- login.js:269-270 reads `usn` and `name` from login.php's reply, which carries neither. LoginPage.RememberedFromLoginReply states the consequence.
- registerFingerprint closes the manage modal before it checks whether the modal is open (dashboard.js:1429, 1447). So the credential list is never reloaded after a registration. DashboardFingerprint.Panel.RegisterReplied states this.

## Findings

| source | as written | input that shows it | evidently intended | confidence | as-written member | corrected member |
|---|---|---|---|---|---|---|
| update_marks.php:58 | `bind_param("iiidi", ...)` binds the ON DUPLICATE KEY UPDATE value as an integer, so updating an existing mark drops its fraction | save 25.5 for an IA that already has a row (or type 25.5 and leave the field within 800 ms: the blur save inserts 25.5, the debounced save then updates it to 25) | the update stores the same double the insert does ("iiidd") | not executed | Marks.AsWrittenNotIdempotent | Marks.UpsertIdempotent |
