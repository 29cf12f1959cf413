/** Fingerprint (WebAuthn) credential management for a logged-in student
    (fingerprint_register.php). Each student row keeps an ordered JSON list
    of credentials and the fingerprint_prompted flag. */
module FingerprintRegister {
  import opened Common
  import opened Store
  import opened Codec

  /** A credential as get_credentials reports it: without its public key. */
  datatype CredentialInfo = CredentialInfo(id: string, deviceName: string, registeredAt: string)

  /** The payload of a successful action. */
  datatype Reply =
    | Challenge(challenge: string, userId: string, userName: string)
    | Registered(message: string, count: nat)
    | Listing(credentials: seq<CredentialInfo>)
    | Deleted(message: string, count: nat)
    | Dismissed(message: string)

  /** Puts a public key back on a listed credential. */
  function WithKey(info: CredentialInfo, publicKey: string): Credential {
    Credential(info.id, publicKey, info.deviceName, info.registeredAt)
  }

  /** The credentials as listed to the browser: the same entries in the same
      order, and the public key is the only thing removed. */
  function PublicView(creds: seq<Credential>): (r: seq<CredentialInfo>)
    ensures |r| == |creds|
    ensures forall i :: 0 <= i < |r| ==> WithKey(r[i], creds[i].publicKey) == creds[i]
  {
    seq(|creds|, i requires 0 <= i < |creds| => CredentialInfo(creds[i].id, creds[i].deviceName, creds[i].registeredAt))
  }

  /** The list array_filter keeps when deleting credential `id`. */
  function RemoveCredential(creds: seq<Credential>, id: string): seq<Credential> {
    Filter(creds, (c: Credential) => c.id != id)
  }

  /** Deleting removes every entry with that id, keeps every other entry in
      its order, leaves a list without the id as it was, and is idempotent. */
  lemma RemoveCredentialProperties(creds: seq<Credential>, id: string)
    ensures forall c :: c in RemoveCredential(creds, id) <==> c in creds && c.id != id
    ensures IsSubsequence(RemoveCredential(creds, id), creds)
    ensures (forall c :: c in creds ==> c.id != id) ==> RemoveCredential(creds, id) == creds
    ensures RemoveCredential(RemoveCredential(creds, id), id) == RemoveCredential(creds, id)
  {
    var p := (c: Credential) => c.id != id;
    forall c
      ensures c in RemoveCredential(creds, id) <==> c in creds && c.id != id
    {
      FilterMembership(creds, p, c);
    }
    FilterIsSubsequence(creds, p);
    if forall c :: c in creds ==> c.id != id {
      FilterAll(creds, p);
    }
    FilterAll(RemoveCredential(creds, id), p);
  }

  /** The column value written back: an empty list is stored as NULL. */
  function StoredColumn(creds: seq<Credential>): Option<seq<Credential>> {
    if |creds| == 0 then None else Some(creds)
  }

  /** Reading back the stored column gives the list that was written. */
  lemma StoredColumnRoundTrip(s: StudentRow, creds: seq<Credential>)
    ensures CredentialList(s.(credentials := StoredColumn(creds))) == creds
    ensures StoredColumn(creds).Some? ==> |StoredColumn(creds).value| > 0
  {
  }

  /** The credential list of student `id` as the endpoints read it; a
      missing row reads as the empty list. */
  function CurrentCredentials(students: seq<StudentRow>, id: nat): seq<Credential> {
    var i := StudentWithId(students, id);
    if i.Some? then CredentialList(students[i.value]) else []
  }

  /** `UPDATE students SET fingerprint_credentials = ?, fingerprint_prompted = ? WHERE id = ?`. */
  function SetColumns(students: seq<StudentRow>, id: nat, column: Option<seq<Credential>>, prompted: bool): (r: seq<StudentRow>)
    ensures |r| == |students|
    ensures StudentIds(r) == StudentIds(students)
  {
    var r := seq(|students|, i requires 0 <= i < |students| =>
      if students[i].id == id then students[i].(credentials := column, prompted := prompted) else students[i]);
    assert StudentIds(r) == StudentIds(students);
    r
  }

  /** `UPDATE students SET fingerprint_credentials = ? WHERE id = ?`. */
  function SetCredentials(students: seq<StudentRow>, id: nat, column: Option<seq<Credential>>): (r: seq<StudentRow>)
    ensures |r| == |students|
    ensures StudentIds(r) == StudentIds(students)
  {
    var r := seq(|students|, i requires 0 <= i < |students| =>
      if students[i].id == id then students[i].(credentials := column) else students[i]);
    assert StudentIds(r) == StudentIds(students);
    r
  }

  /** `UPDATE students SET fingerprint_prompted = 1 WHERE id = ?`. */
  function SetPrompted(students: seq<StudentRow>, id: nat): (r: seq<StudentRow>)
    ensures |r| == |students|
    ensures StudentIds(r) == StudentIds(students)
  {
    var r := seq(|students|, i requires 0 <= i < |students| =>
      if students[i].id == id then students[i].(prompted := true) else students[i]);
    assert StudentIds(r) == StudentIds(students);
    r
  }

  /** Tables with the same ids find the same row for an id. */
  lemma SameIdsSameRow(a: seq<StudentRow>, b: seq<StudentRow>, id: nat)
    requires StudentIds(a) == StudentIds(b)
    ensures StudentWithId(a, id) == StudentWithId(b, id)
  {
    assert forall j :: 0 <= j < |a| ==> a[j].id == StudentIds(a)[j] == StudentIds(b)[j] == b[j].id;
  }

  /** After writing a column for `id`, reading that student's credentials
      gives the written list back; the prompted flag is as written. */
  lemma SetColumnsReadBack(students: seq<StudentRow>, id: nat, creds: seq<Credential>, prompted: bool)
    requires StudentWithId(students, id).Some?
    ensures CurrentCredentials(SetColumns(students, id, StoredColumn(creds), prompted), id) == creds
    ensures StudentWithId(SetColumns(students, id, StoredColumn(creds), prompted), id) == StudentWithId(students, id)
    ensures SetColumns(students, id, StoredColumn(creds), prompted)[StudentWithId(students, id).value].prompted == prompted
  {
    var r := SetColumns(students, id, StoredColumn(creds), prompted);
    SameIdsSameRow(r, students, id);
    StoredColumnRoundTrip(students[StudentWithId(students, id).value], creds);
  }

  /** Same for a write of the credential column alone. */
  lemma SetCredentialsReadBack(students: seq<StudentRow>, id: nat, creds: seq<Credential>)
    requires StudentWithId(students, id).Some?
    ensures CurrentCredentials(SetCredentials(students, id, StoredColumn(creds)), id) == creds
  {
    var r := SetCredentials(students, id, StoredColumn(creds));
    SameIdsSameRow(r, students, id);
    StoredColumnRoundTrip(students[StudentWithId(students, id).value], creds);
  }

  /** get_challenge: a fresh challenge of 32 random bytes, hex encoded, is
      kept in the session and returned with the session's usn and name
      (the username when the name is unset). The browser's decoder recovers
      the 32 bytes from it. */
  method GetChallenge(session: Session, random: seq<byte>) returns (reply: Outcome<Reply>)
    requires session.loggedIn && session.Valid()
    requires |random| == 32
    modifies session
    ensures session.Valid()
    ensures reply.Success? && reply.value.Challenge?
    ensures reply.value.challenge == Bin2Hex(random)
    ensures |reply.value.challenge| == 64 && forall i :: 0 <= i < 64 ==> IsHexChar(reply.value.challenge[i])
    ensures HexChallengeBytes(reply.value.challenge) == Some(random)
    ensures session.loggedIn == old(session.loggedIn) && session.username == old(session.username)
    ensures session.usn == old(session.usn) && session.studentId == old(session.studentId)
    ensures session.name == old(session.name)
    ensures reply.value.userId == session.usn.value
    ensures reply.value.userName == (if session.name.Some? then session.name.value else session.username.value)
    ensures session.webauthnChallenge == Some(reply.value.challenge)
    ensures session.authChallenge == old(session.authChallenge) && session.authUserId == old(session.authUserId)
  {
    var challenge := Bin2Hex(random);
    HexRoundTrip(random);
    session.webauthnChallenge := Some(challenge);
    var userName := if session.name.Some? then session.name.value else session.username.value;
    reply := Success(Challenge(challenge, session.usn.value, userName));
  }

  /** register_credential: an empty id or public key is refused; otherwise
      the credential is appended to the student's list, the prompted flag is
      set and the new count is reported. */
  method RegisterCredential(db: Database, session: Session, credentialId: string, publicKey: string,
                            deviceName: string, now: string)
    returns (reply: Outcome<Reply>)
    requires db.Valid() && session.loggedIn && session.Valid()
    modifies db
    ensures db.Valid()
    ensures PhpEmpty(credentialId) || PhpEmpty(publicKey) ==>
              reply == Failure("Invalid credential data") && unchanged(db)
    ensures !PhpEmpty(credentialId) && !PhpEmpty(publicKey) ==>
              var id := session.studentId.value;
              var before := CurrentCredentials(old(db.students), id);
              var after := before + [Credential(credentialId, publicKey, deviceName, now)];
              reply == Success(Registered("Fingerprint registered successfully", |before| + 1))
              && db.students == SetColumns(old(db.students), id, Some(after), true)
              && (StudentWithId(old(db.students), id).Some? ==>
                    CurrentCredentials(db.students, id) == after
                    && db.students[StudentWithId(old(db.students), id).value].prompted)
    ensures db.subjects == old(db.subjects) && db.attendance == old(db.attendance) && db.marks == old(db.marks)
    ensures db.nextStudentId == old(db.nextStudentId) && db.nextSubjectId == old(db.nextSubjectId)
    ensures db.nextAttendanceId == old(db.nextAttendanceId)
  {
    if PhpEmpty(credentialId) || PhpEmpty(publicKey) {
      return Failure("Invalid credential data");
    }
    var id := session.studentId.value;
    var before := CurrentCredentials(db.students, id);
    var after := before + [Credential(credentialId, publicKey, deviceName, now)];
    assert StoredColumn(after) == Some(after);
    if StudentWithId(db.students, id).Some? {
      SetColumnsReadBack(db.students, id, after, true);
    }
    db.students := SetColumns(db.students, id, Some(after), true);
    reply := Success(Registered("Fingerprint registered successfully", |after|));
  }

  /** get_credentials: the student's credentials with the public key removed
      from each entry, in stored order. */
  method GetCredentials(db: Database, session: Session) returns (reply: Outcome<Reply>)
    requires session.loggedIn && session.Valid()
    ensures reply == Success(Listing(PublicView(CurrentCredentials(db.students, session.studentId.value))))
  {
    var creds := CurrentCredentials(db.students, session.studentId.value);
    var listed: seq<CredentialInfo> := [];
    var k := 0;
    while k < |creds|
      invariant 0 <= k <= |creds|
      invariant listed == PublicView(creds[..k])
    {
      listed := listed + [CredentialInfo(creds[k].id, creds[k].deviceName, creds[k].registeredAt)];
      k := k + 1;
    }
    assert creds[..k] == creds;
    reply := Success(Listing(listed));
  }

  /** delete_credential: an empty id is refused; otherwise every entry with
      that id is removed (an unknown id changes nothing and still succeeds),
      an empty list is stored as NULL and the remaining count is reported.
      The prompted flag is never reset. */
  method DeleteCredential(db: Database, session: Session, credentialId: string)
    returns (reply: Outcome<Reply>)
    requires db.Valid() && session.loggedIn && session.Valid()
    modifies db
    ensures db.Valid()
    ensures PhpEmpty(credentialId) ==> reply == Failure("Credential ID required") && unchanged(db)
    ensures !PhpEmpty(credentialId) ==>
              var id := session.studentId.value;
              var remaining := RemoveCredential(CurrentCredentials(old(db.students), id), credentialId);
              reply == Success(Deleted("Credential deleted successfully", |remaining|))
              && db.students == SetCredentials(old(db.students), id, StoredColumn(remaining))
              && (StudentWithId(old(db.students), id).Some? ==> CurrentCredentials(db.students, id) == remaining)
    ensures forall i :: 0 <= i < |db.students| ==> db.students[i].prompted == old(db.students[i].prompted)
    ensures db.subjects == old(db.subjects) && db.attendance == old(db.attendance) && db.marks == old(db.marks)
    ensures db.nextStudentId == old(db.nextStudentId) && db.nextSubjectId == old(db.nextSubjectId)
    ensures db.nextAttendanceId == old(db.nextAttendanceId)
  {
    if PhpEmpty(credentialId) {
      return Failure("Credential ID required");
    }
    var id := session.studentId.value;
    var remaining := RemoveCredential(CurrentCredentials(db.students, id), credentialId);
    if StudentWithId(db.students, id).Some? {
      SetCredentialsReadBack(db.students, id, remaining);
    }
    db.students := SetCredentials(db.students, id, StoredColumn(remaining));
    reply := Success(Deleted("Credential deleted successfully", |remaining|));
  }

  /** dismiss_prompt: sets the student's prompted flag and nothing else. */
  method DismissPrompt(db: Database, session: Session) returns (reply: Outcome<Reply>)
    requires db.Valid() && session.loggedIn && session.Valid()
    modifies db
    ensures db.Valid()
    ensures reply == Success(Dismissed("Prompt dismissed"))
    ensures db.students == SetPrompted(old(db.students), session.studentId.value)
    ensures forall i :: 0 <= i < |db.students| ==>
              db.students[i].credentials == old(db.students[i].credentials)
              && (db.students[i].id == session.studentId.value ==> db.students[i].prompted)
    ensures db.subjects == old(db.subjects) && db.attendance == old(db.attendance) && db.marks == old(db.marks)
    ensures db.nextStudentId == old(db.nextStudentId) && db.nextSubjectId == old(db.nextSubjectId)
    ensures db.nextAttendanceId == old(db.nextAttendanceId)
  {
    db.students := SetPrompted(db.students, session.studentId.value);
    reply := Success(Dismissed("Prompt dismissed"));
  }

  /** The actions this endpoint knows. */
  predicate KnownAction(action: string) {
    action in {"get_challenge", "register_credential", "get_credentials", "delete_credential", "dismiss_prompt"}
  }

  /** The endpoint: the login check comes first, then the request method,
      then the action named in the JSON body. */
  method Handle(db: Database, session: Session, verb: RequestMethod, data: map<string, string>,
                random: seq<byte>, now: string)
    returns (reply: Outcome<Reply>)
    requires db.Valid() && session.Valid()
    requires |random| == 32
    modifies db, session
    ensures db.Valid() && session.Valid()
    ensures !old(session.loggedIn) ==> reply == Failure(NotAuthenticated) && unchanged(db) && unchanged(session)
    ensures old(session.loggedIn) && verb != Post ==>
              reply == Failure(InvalidRequestMethod) && unchanged(db) && unchanged(session)
    ensures old(session.loggedIn) && verb == Post && !KnownAction(Field(data, "action", "")) ==>
              reply == Failure("Invalid action") && unchanged(db) && unchanged(session)
    ensures Field(data, "action", "") != "get_challenge" ==> unchanged(session)
    ensures Field(data, "action", "") !in {"register_credential", "delete_credential", "dismiss_prompt"} ==> unchanged(db)
  {
    if !session.loggedIn {
      return Failure(NotAuthenticated);
    }
    if verb != Post {
      return Failure(InvalidRequestMethod);
    }
    var action := Field(data, "action", "");
    if action == "get_challenge" {
      reply := GetChallenge(session, random);
    } else if action == "register_credential" {
      reply := RegisterCredential(db, session, Field(data, "credential_id", ""), Field(data, "public_key", ""),
                                  Field(data, "device_name", "Unknown Device"), now);
    } else if action == "get_credentials" {
      reply := GetCredentials(db, session);
    } else if action == "delete_credential" {
      reply := DeleteCredential(db, session, Field(data, "credential_id", ""));
    } else if action == "dismiss_prompt" {
      reply := DismissPrompt(db, session);
    } else {
      reply := Failure("Invalid action");
    }
  }
}

/** One-tap login with a registered fingerprint (fingerprint_auth.php). A
    challenge is bound to a user id in the session; an assertion is then
    accepted when the submitted credential id is one of that user's stored
    ids. The assertion's signature and authenticator data are not checked,
    so the binding and the id are all the server relies on. */
module FingerprintAuth {
  import opened Common
  import opened Store
  import opened Codec

  /** The payload of a successful action. */
  datatype Reply =
    | UserFound(hasFingerprint: bool, name: string, usn: string, prompted: bool)
    | UserMissing
    | AuthChallenge(challenge: string, credentialIds: seq<string>)
    | Message(text: string)

  /** `has_fingerprint` of a check_user reply (false when the user is missing). */
  function HasFingerprint(r: Reply): bool {
    r.UserFound? && r.hasFingerprint
  }

  /** The ids listed as allowCredentials, in stored order. */
  function CredentialIds(creds: seq<Credential>): (r: seq<string>)
    ensures |r| == |creds|
    ensures forall i :: 0 <= i < |r| ==> r[i] == creds[i].id
  {
    seq(|creds|, i requires 0 <= i < |creds| => creds[i].id)
  }

  /** An id is listed exactly when some stored credential carries it. */
  lemma CredentialIdsMembership(creds: seq<Credential>, id: string)
    ensures id in CredentialIds(creds) <==> exists c :: c in creds && c.id == id
  {
    if id in CredentialIds(creds) {
      var i :| 0 <= i < |creds| && CredentialIds(creds)[i] == id;
      assert creds[i] in creds;
    }
    if c :| c in creds && c.id == id {
      var i :| 0 <= i < |creds| && creds[i] == c;
      assert CredentialIds(creds)[i] == id;
    }
  }

  /** check_user: whether the usn or username exists and whether its
      credential column holds any credential. */
  method CheckUser(db: Database, username: string) returns (reply: Outcome<Reply>)
    requires db.Valid()
    ensures PhpEmpty(username) ==> reply == Failure("Username required")
    ensures !PhpEmpty(username) && FindUser(db.students, username).None? ==> reply == Success(UserMissing)
    ensures !PhpEmpty(username) && FindUser(db.students, username).Some? ==>
              var s := db.students[FindUser(db.students, username).value];
              reply == Success(UserFound(s.credentials.Some?, s.name, s.usn, s.prompted))
    ensures reply.Success? ==> (HasFingerprint(reply.value) <==>
              FindUser(db.students, username).Some?
              && |CredentialList(db.students[FindUser(db.students, username).value])| > 0)
  {
    if PhpEmpty(username) {
      return Failure("Username required");
    }
    var found := FindUser(db.students, username);
    if found.None? {
      return Success(UserMissing);
    }
    var s := db.students[found.value];
    reply := Success(UserFound(s.credentials.Some?, s.name, s.usn, s.prompted));
  }

  /** get_auth_challenge: for a known user with credentials, binds a fresh
      hex challenge and the user's id in the session and lists the
      credential ids; every failure leaves the session as it was. */
  method GetAuthChallenge(db: Database, session: Session, username: string, random: seq<byte>)
    returns (reply: Outcome<Reply>)
    requires db.Valid() && session.Valid()
    requires |random| == 32
    modifies session
    ensures session.Valid()
    ensures PhpEmpty(username) ==> reply == Failure("Username required")
    ensures !PhpEmpty(username) && FindUser(db.students, username).None? ==> reply == Failure("User not found")
    ensures !PhpEmpty(username) && FindUser(db.students, username).Some?
            && CredentialList(db.students[FindUser(db.students, username).value]) == [] ==>
              reply == Failure("No fingerprint credentials found")
    ensures reply.Failure? ==> unchanged(session)
    ensures reply.Success? <==>
              !PhpEmpty(username) && FindUser(db.students, username).Some?
              && CredentialList(db.students[FindUser(db.students, username).value]) != []
    ensures reply.Success? ==>
              var s := db.students[FindUser(db.students, username).value];
              reply.value == AuthChallenge(Bin2Hex(random), CredentialIds(CredentialList(s)))
              && session.authChallenge == Some(Bin2Hex(random)) && session.authUserId == Some(s.id)
              && session.loggedIn == old(session.loggedIn) && session.username == old(session.username)
              && session.usn == old(session.usn) && session.studentId == old(session.studentId)
              && session.name == old(session.name) && session.webauthnChallenge == old(session.webauthnChallenge)
  {
    if PhpEmpty(username) {
      return Failure("Username required");
    }
    var found := FindUser(db.students, username);
    if found.None? {
      return Failure("User not found");
    }
    var s := db.students[found.value];
    var creds := CredentialList(s);
    if creds == [] {
      return Failure("No fingerprint credentials found");
    }
    var challenge := Bin2Hex(random);
    session.authChallenge := Some(challenge);
    session.authUserId := Some(s.id);
    reply := Success(AuthChallenge(challenge, CredentialIds(creds)));
  }

  /** The foreach over the stored credentials: stops at the first entry
      whose id equals the submitted one. */
  method Recognizes(creds: seq<Credential>, credentialId: string) returns (valid: bool)
    ensures valid <==> credentialId in CredentialIds(creds)
  {
    valid := false;
    var k := 0;
    while k < |creds| && !valid
      invariant 0 <= k <= |creds|
      invariant valid <==> exists j :: 0 <= j < k && creds[j].id == credentialId
    {
      if creds[k].id == credentialId {
        valid := true;
      }
      k := k + 1;
    }
    CredentialIdsMembership(creds, credentialId);
  }

  /** verify_auth: accepted exactly when a user id is bound in the session,
      that student exists, and the submitted credential id is one of the
      student's stored ids. The authenticator data and signature play no
      part. Acceptance logs the student in and unbinds the challenge, so the
      same assertion cannot be replayed; a refusal leaves the session as it
      was. */
  method VerifyAuth(db: Database, session: Session, credentialId: string,
                    authenticatorData: string, signature: string)
    returns (reply: Outcome<Reply>)
    requires db.Valid() && session.Valid()
    modifies session
    ensures session.Valid()
    ensures PhpEmpty(credentialId) ==> reply == Failure("Invalid authentication data")
    ensures !PhpEmpty(credentialId) && old(session.authUserId).None? ==>
              reply == Failure("Authentication session expired")
    ensures !PhpEmpty(credentialId) && old(session.authUserId).Some?
            && StudentWithId(db.students, old(session.authUserId).value).None? ==>
              reply == Failure("User not found")
    ensures reply.Success? <==>
              !PhpEmpty(credentialId) && old(session.authUserId).Some?
              && StudentWithId(db.students, old(session.authUserId).value).Some?
              && credentialId in CredentialIds(CredentialList(
                   db.students[StudentWithId(db.students, old(session.authUserId).value).value]))
    ensures reply.Failure? ==> unchanged(session)
    ensures reply.Success? ==>
              var s := db.students[StudentWithId(db.students, old(session.authUserId).value).value];
              reply.value == Message("Authentication successful")
              && session.loggedIn && session.username == Some(s.username) && session.usn == Some(s.usn)
              && session.studentId == Some(s.id) && session.name == Some(s.name)
              && session.authChallenge == None && session.authUserId == None
              && session.webauthnChallenge == old(session.webauthnChallenge)
  {
    if PhpEmpty(credentialId) {
      return Failure("Invalid authentication data");
    }
    if session.authUserId.None? {
      return Failure("Authentication session expired");
    }
    var found := StudentWithId(db.students, session.authUserId.value);
    if found.None? {
      return Failure("User not found");
    }
    var s := db.students[found.value];
    var creds := CredentialList(s);
    var valid := Recognizes(creds, credentialId);
    if valid {
      session.SignIn(s.username, s.usn, s.id, s.name);
      session.authChallenge := None;
      session.authUserId := None;
      reply := Success(Message("Authentication successful"));
    } else {
      reply := Failure("Fingerprint not recognized");
    }
  }

  /** The endpoint: the request method is checked first, then the action
      named in the JSON body. No login is needed. */
  method Handle(db: Database, session: Session, verb: RequestMethod, data: map<string, string>, random: seq<byte>)
    returns (reply: Outcome<Reply>)
    requires db.Valid() && session.Valid()
    requires |random| == 32
    modifies session
    ensures session.Valid()
    ensures verb != Post ==> reply == Failure(InvalidRequestMethod) && unchanged(session)
    ensures verb == Post && Field(data, "action", "") == "get_remembered_user" ==>
              reply == Success(Message("Use localStorage on frontend")) && unchanged(session)
    ensures verb == Post && Field(data, "action", "") !in
              {"check_user", "get_auth_challenge", "verify_auth", "get_remembered_user"} ==>
              reply == Failure("Invalid action") && unchanged(session)
    ensures Field(data, "action", "") !in {"get_auth_challenge", "verify_auth"} ==> unchanged(session)
  {
    if verb != Post {
      return Failure(InvalidRequestMethod);
    }
    var action := Field(data, "action", "");
    if action == "check_user" {
      reply := CheckUser(db, Field(data, "username", ""));
    } else if action == "get_auth_challenge" {
      reply := GetAuthChallenge(db, session, Field(data, "username", ""), random);
    } else if action == "verify_auth" {
      reply := VerifyAuth(db, session, Field(data, "credential_id", ""),
                          Field(data, "authenticator_data", ""), Field(data, "signature", ""));
    } else if action == "get_remembered_user" {
      reply := Success(Message("Use localStorage on frontend"));
    } else {
      reply := Failure("Invalid action");
    }
  }
}
