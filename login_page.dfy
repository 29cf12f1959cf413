/** The login page script (login.js). It remembers the last student in
    local storage; on load it asks fingerprint_auth.php whether that student
    still exists and has a fingerprint, and shows either the 1-Tap button
    (fingerprint mode) or a pre-filled, locked username with a password
    field (remembered mode). "Switch user" returns to the plain form. The
    fetches and the WebAuthn prompt are asynchronous; each of their outcomes
    is a method of the page. */
module LoginPage {
  import opened Common
  import opened Codec
  import FingerprintAuth
  import opened Store

  /** The remembered-user record (`smartin_remembered_user`). */
  datatype Remembered = Remembered(username: string, name: string, hasFingerprint: Option<bool>)

  /** What local storage holds under the key: a record, or text that
      JSON.parse rejects. */
  datatype Stored = Record(user: Remembered) | Unparsable(text: string)

  /** The visible state of the form. */
  datatype Layout = Layout(
    username: string, usernameReadOnly: bool, passwordShown: bool, passwordRequired: bool,
    loginButton: bool, oneTapButton: bool, switchLink: bool)

  /** setupRememberedUserLogin: username locked, password shown and required. */
  function RememberedLayout(username: string): Layout {
    Layout(username, true, true, true, true, false, true)
  }

  /** setupFingerprintLogin: username locked, password hidden, 1-Tap shown. */
  function FingerprintLayout(username: string): Layout {
    Layout(username, true, false, false, false, true, true)
  }

  /** resetToNormalLogin: an empty, editable username and the password form. */
  function NormalLayout(): Layout {
    Layout("", false, true, true, true, false, false)
  }

  /** In every layout the page sets up, the password is required exactly
      when it is shown, and exactly one of the two login buttons is shown. */
  predicate Coherent(l: Layout) {
    l.passwordRequired == l.passwordShown && l.loginButton == l.passwordShown && l.oneTapButton == !l.passwordShown
  }

  lemma LayoutsCoherent(u: string)
    ensures Coherent(RememberedLayout(u)) && Coherent(FingerprintLayout(u)) && Coherent(NormalLayout())
    ensures !FingerprintLayout(u).passwordShown && RememberedLayout(u).passwordShown
  {
  }

  /** The check_user reply as the page reads it. */
  datatype CheckReply = UserFound(hasFingerprint: bool, name: string) | NotFound | Thrown

  /** What a submit leads to. */
  datatype SubmitAction = NoRequest | OneTap(username: string) | PasswordLogin(form: map<string, string>)

  /** The WebAuthn request built from a get_auth_challenge reply. */
  datatype AssertionRequest = AssertionRequest(challenge: seq<byte>, allowCredentials: seq<seq<byte>>)

  const CancelledMessage := "Authentication was cancelled or timed out"
  const OneTapFailedMessage := "Fingerprint authentication failed. Try password login."

  /** The record written after a password login: the reply's usn and name
      when present and non-empty, the typed username otherwise. */
  function RememberedAfterLogin(usn: Option<string>, name: Option<string>, typed: string): (r: Remembered)
    ensures r.hasFingerprint.None?
    ensures usn.None? ==> r.username == typed
    ensures name.None? ==> r.name == typed
    ensures usn.Some? && usn.value != "" ==> r.username == usn.value
  {
    Remembered(OrElse(usn, typed), OrElse(name, typed), None)
  }

  /** Decodes every allowed credential id; None when one is not Base64
      (atob throws). */
  function DecodeAll(ids: seq<string>): (r: Option<seq<seq<byte>>>)
    ensures r.Some? ==> |r.value| == |ids| && forall i :: 0 <= i < |ids| ==> Base64Decode(ids[i]) == Some(r.value[i])
    ensures r.None? <==> exists i :: 0 <= i < |ids| && Base64Decode(ids[i]).None?
  {
    if |ids| == 0 then Some([])
    else
      var head := Base64Decode(ids[0]);
      var tail := DecodeAll(ids[1..]);
      if head.None? then None
      else if tail.None? then
        assert exists i :: 0 <= i < |ids| && Base64Decode(ids[i]).None? by {
          var j :| 0 <= j < |ids[1..]| && Base64Decode(ids[1..][j]).None?;
          assert Base64Decode(ids[j + 1]).None?;
        }
        None
      else Some([head.value] + tail.value)
  }

  class Page {
    var stored: Option<Stored>
    var rememberedUser: Option<Remembered>
    var webAuthnSupported: bool
    var temporarilySwitched: bool
    var layout: Layout
    /** The error box; None while hidden. */
    var error: Option<string>
    var oneTapBusy: bool
    var loginBusy: bool
    /** The trimmed username of the password login in flight. */
    var pendingUsername: string
    var redirected: bool

    constructor (stored: Option<Stored>, webAuthnSupported: bool)
      ensures this.stored == stored && this.webAuthnSupported == webAuthnSupported
      ensures rememberedUser.None? && !temporarilySwitched && layout == NormalLayout()
      ensures error.None? && !oneTapBusy && !loginBusy && !redirected
    {
      this.stored := stored;
      this.webAuthnSupported := webAuthnSupported;
      rememberedUser := None;
      temporarilySwitched := false;
      layout := NormalLayout();
      error := None;
      oneTapBusy := false;
      loginBusy := false;
      pendingUsername := "";
      redirected := false;
    }

    /** checkRememberedUser: an unparsable record is removed; a parsed one
        becomes the remembered user and its username is sent to check_user.
        An empty stored string counts as nothing stored. */
    method CheckRememberedUser() returns (checkUser: Option<string>)
      modifies this
      ensures old(stored).None? || old(stored) == Some(Unparsable("")) ==>
                checkUser.None? && stored == old(stored) && rememberedUser == old(rememberedUser)
      ensures old(stored).Some? && old(stored).value.Unparsable? && old(stored).value.text != "" ==>
                checkUser.None? && stored.None? && rememberedUser == old(rememberedUser)
      ensures old(stored).Some? && old(stored).value.Record? ==>
                stored == old(stored) && rememberedUser == Some(old(stored).value.user)
                && checkUser == Some(old(stored).value.user.username)
      ensures layout == old(layout) && error == old(error) && temporarilySwitched == old(temporarilySwitched)
      ensures webAuthnSupported == old(webAuthnSupported) && redirected == old(redirected)
      ensures oneTapBusy == old(oneTapBusy) && loginBusy == old(loginBusy) && pendingUsername == old(pendingUsername)
    {
      checkUser := None;
      if stored.Some? {
        match stored.value
        case Unparsable(text) =>
          if text != "" {
            stored := None;
          }
        case Record(user) =>
          rememberedUser := Some(user);
          checkUser := Some(user.username);
      }
    }

    /** verifyRememberedUser's outcome. A found user refreshes the record's
        name and flag and enters fingerprint mode when it has a fingerprint
        and the browser supports WebAuthn, remembered mode otherwise. A user
        not found clears storage and the record. A thrown error falls back
        to remembered mode from the cached record. */
    method VerifyRememberedUser(reply: CheckReply)
      requires rememberedUser.Some?
      modifies this
      ensures reply.UserFound? ==>
                var u := old(rememberedUser).value.(name := reply.name, hasFingerprint := Some(reply.hasFingerprint));
                rememberedUser == Some(u) && stored == old(stored)
                && layout == (if reply.hasFingerprint && webAuthnSupported then FingerprintLayout(u.username)
                              else RememberedLayout(u.username))
      ensures reply.UserFound? ==>
                (!layout.passwordShown <==> reply.hasFingerprint && webAuthnSupported)
      ensures reply.NotFound? ==> stored.None? && rememberedUser.None? && layout == old(layout)
      ensures reply.Thrown? ==>
                stored == old(stored) && rememberedUser == old(rememberedUser)
                && layout == RememberedLayout(old(rememberedUser).value.username)
      ensures webAuthnSupported == old(webAuthnSupported) && temporarilySwitched == old(temporarilySwitched)
      ensures error == old(error) && redirected == old(redirected)
      ensures oneTapBusy == old(oneTapBusy) && loginBusy == old(loginBusy) && pendingUsername == old(pendingUsername)
    {
      match reply
      case UserFound(hasFingerprint, name) =>
        var u := rememberedUser.value.(name := name, hasFingerprint := Some(hasFingerprint));
        rememberedUser := Some(u);
        if hasFingerprint && webAuthnSupported {
          layout := FingerprintLayout(u.username);
        } else {
          layout := RememberedLayout(u.username);
        }
      case NotFound =>
        stored := None;
        rememberedUser := None;
      case Thrown =>
        layout := RememberedLayout(rememberedUser.value.username);
    }

    /** Switch user: back to the plain form, flagged as a temporary switch;
        storage and the cached record are kept. */
    method SwitchUser()
      modifies this
      ensures layout == NormalLayout() && temporarilySwitched
      ensures stored == old(stored) && rememberedUser == old(rememberedUser)
      ensures webAuthnSupported == old(webAuthnSupported) && error == old(error) && redirected == old(redirected)
      ensures oneTapBusy == old(oneTapBusy) && loginBusy == old(loginBusy) && pendingUsername == old(pendingUsername)
    {
      layout := NormalLayout();
      temporarilySwitched := true;
    }

    /** Typing into the inputs: a locked username cannot change. */
    method TypeUsername(text: string)
      modifies this
      ensures layout == (if old(layout).usernameReadOnly then old(layout) else old(layout).(username := text))
      ensures stored == old(stored) && rememberedUser == old(rememberedUser)
      ensures webAuthnSupported == old(webAuthnSupported) && temporarilySwitched == old(temporarilySwitched)
      ensures error == old(error) && redirected == old(redirected)
      ensures oneTapBusy == old(oneTapBusy) && loginBusy == old(loginBusy) && pendingUsername == old(pendingUsername)
    {
      if !layout.usernameReadOnly {
        layout := layout.(username := text);
      }
    }

    /** The 1-Tap button: refused without WebAuthn or with an empty
        username (no request); otherwise the button is disabled and the
        username is sent to get_auth_challenge. */
    method OneTapClick() returns (challengeFor: Option<string>)
      modifies this
      ensures !webAuthnSupported ==>
                challengeFor.None? && error == Some("Fingerprint login is not supported on this browser")
                && oneTapBusy == old(oneTapBusy)
      ensures webAuthnSupported && layout.username == "" ==>
                challengeFor.None? && error == Some("Username is required") && oneTapBusy == old(oneTapBusy)
      ensures challengeFor.Some? <==> webAuthnSupported && layout.username != ""
      ensures challengeFor.Some? ==> challengeFor.value == layout.username && oneTapBusy && error == old(error)
      ensures layout == old(layout) && stored == old(stored) && rememberedUser == old(rememberedUser)
      ensures webAuthnSupported == old(webAuthnSupported) && temporarilySwitched == old(temporarilySwitched)
      ensures redirected == old(redirected) && loginBusy == old(loginBusy) && pendingUsername == old(pendingUsername)
    {
      if !webAuthnSupported {
        error := Some("Fingerprint login is not supported on this browser");
        return None;
      }
      if layout.username == "" {
        error := Some("Username is required");
        return None;
      }
      oneTapBusy := true;
      challengeFor := Some(layout.username);
    }

    /** The get_auth_challenge reply. A refusal shows the server's message
        (or a default) and re-enables the button. Otherwise the hex
        challenge and the Base64 credential ids are decoded for the WebAuthn
        prompt; a decoding failure throws, which ends in the generic error. */
    method ChallengeReceived(reply: Outcome<(string, seq<string>)>) returns (request: Option<AssertionRequest>)
      requires oneTapBusy
      modifies this
      ensures reply.Failure? ==>
                request.None? && error == Some(if reply.message != "" then reply.message else "Failed to start authentication")
                && !oneTapBusy
      ensures reply.Success? ==>
                var bytes := HexChallengeBytes(reply.value.0);
                var ids := DecodeAll(reply.value.1);
                (request.Some? <==> bytes.Some? && ids.Some?)
                && (request.Some? ==> request.value == AssertionRequest(bytes.value, ids.value)
                                      && oneTapBusy && error == old(error))
                && (request.None? ==> error == Some(OneTapFailedMessage) && !oneTapBusy)
      ensures layout == old(layout) && stored == old(stored) && rememberedUser == old(rememberedUser)
      ensures webAuthnSupported == old(webAuthnSupported) && temporarilySwitched == old(temporarilySwitched)
      ensures redirected == old(redirected) && loginBusy == old(loginBusy) && pendingUsername == old(pendingUsername)
    {
      if reply.Failure? {
        error := Some(if reply.message != "" then reply.message else "Failed to start authentication");
        oneTapBusy := false;
        return None;
      }
      var bytes := HexChallengeBytes(reply.value.0);
      var ids := DecodeAll(reply.value.1);
      if bytes.None? || ids.None? {
        error := Some(OneTapFailedMessage);
        oneTapBusy := false;
        return None;
      }
      request := Some(AssertionRequest(bytes.value, ids.value));
    }

    /** The WebAuthn prompt failed: a NotAllowedError means the user
        cancelled or it timed out; anything else is the generic error. */
    method AssertionFailed(errorName: string)
      requires oneTapBusy
      modifies this
      ensures error == Some(if errorName == "NotAllowedError" then CancelledMessage else OneTapFailedMessage)
      ensures !oneTapBusy
      ensures layout == old(layout) && stored == old(stored) && rememberedUser == old(rememberedUser)
      ensures webAuthnSupported == old(webAuthnSupported) && temporarilySwitched == old(temporarilySwitched)
      ensures redirected == old(redirected) && loginBusy == old(loginBusy) && pendingUsername == old(pendingUsername)
    {
      error := Some(if errorName == "NotAllowedError" then CancelledMessage else OneTapFailedMessage);
      oneTapBusy := false;
    }

    /** The WebAuthn prompt returned an assertion: its raw id, authenticator
        data and signature are sent to verify_auth, each Base64 encoded. */
    method AssertionReturned(rawId: seq<byte>, authenticatorData: seq<byte>, signature: seq<byte>)
      returns (body: map<string, string>)
      ensures body == map["action" := "verify_auth", "credential_id" := Base64Encode(rawId),
                          "authenticator_data" := Base64Encode(authenticatorData),
                          "signature" := Base64Encode(signature)]
      ensures Base64Decode(body["credential_id"]) == Some(rawId)
    {
      var id := ArrayBufferToBase64(rawId);
      var data := ArrayBufferToBase64(authenticatorData);
      var sig := ArrayBufferToBase64(signature);
      body := map["action" := "verify_auth", "credential_id" := id, "authenticator_data" := data, "signature" := sig];
    }

    /** The verify_auth reply: success goes to the dashboard; a refusal
        shows the message (or a default) and re-enables the button. */
    method VerifyReceived(success: bool, message: string)
      requires oneTapBusy
      modifies this
      ensures success ==> redirected && error == old(error) && oneTapBusy
      ensures !success ==>
                redirected == old(redirected) && !oneTapBusy
                && error == Some(if message != "" then message else "Authentication failed")
      ensures layout == old(layout) && stored == old(stored) && rememberedUser == old(rememberedUser)
      ensures webAuthnSupported == old(webAuthnSupported) && temporarilySwitched == old(temporarilySwitched)
      ensures loginBusy == old(loginBusy) && pendingUsername == old(pendingUsername)
    {
      if success {
        redirected := true;
      } else {
        error := Some(if message != "" then message else "Authentication failed");
        oneTapBusy := false;
      }
    }

    /** The login form's submit. Guards run in order and none of them sends
        a request: an empty trimmed username is an error; a hidden password
        field hands over to the 1-Tap button, which does nothing while it is
        disabled for a 1-Tap in flight; an empty password is an error.
        Otherwise the trimmed username and the password are posted. */
    method Submit(password: string) returns (action: SubmitAction)
      modifies this
      ensures JsTrim(old(layout).username) == "" ==>
                action == NoRequest && error == Some("Username is required")
      ensures JsTrim(old(layout).username) != "" && !old(layout).passwordShown ==>
                (action.OneTap? || action.NoRequest?)
                && (action.OneTap? <==> old(webAuthnSupported) && old(layout).username != "" && !old(oneTapBusy))
                && (action.OneTap? ==> action.username == old(layout).username && oneTapBusy)
      ensures JsTrim(old(layout).username) != "" && !old(layout).passwordShown && old(oneTapBusy) ==>
                action == NoRequest && error == old(error) && oneTapBusy && loginBusy == old(loginBusy)
      ensures JsTrim(old(layout).username) != "" && old(layout).passwordShown && password == "" ==>
                action == NoRequest && error == Some("Password is required")
      ensures action.PasswordLogin? <==>
                JsTrim(old(layout).username) != "" && old(layout).passwordShown && password != ""
      ensures action.PasswordLogin? ==>
                action.form == map["username" := JsTrim(old(layout).username), "password" := password]
                && loginBusy && pendingUsername == JsTrim(old(layout).username) && error == old(error)
      ensures layout == old(layout) && stored == old(stored) && rememberedUser == old(rememberedUser)
      ensures webAuthnSupported == old(webAuthnSupported) && temporarilySwitched == old(temporarilySwitched)
      ensures redirected == old(redirected)
    {
      var username := JsTrim(layout.username);
      if username == "" {
        error := Some("Username is required");
        return NoRequest;
      }
      if !layout.passwordShown {
        if oneTapBusy {
          // click() on the disabled 1-Tap button dispatches nothing
          return NoRequest;
        }
        var challengeFor := OneTapClick();
        if challengeFor.Some? {
          return OneTap(challengeFor.value);
        }
        return NoRequest;
      }
      if password == "" {
        error := Some("Password is required");
        return NoRequest;
      }
      loginBusy := true;
      pendingUsername := username;
      action := PasswordLogin(map["username" := username, "password" := password]);
    }

    /** The login.php reply. Success always writes the remembered record
        and goes to the dashboard; a refusal shows the message (or a
        default) and re-enables the button. */
    method LoginReceived(success: bool, usn: Option<string>, name: Option<string>, message: string)
      modifies this
      ensures success ==>
                stored == Some(Record(RememberedAfterLogin(usn, name, old(pendingUsername)))) && redirected
                && loginBusy == old(loginBusy) && error == old(error)
      ensures !success ==>
                stored == old(stored) && redirected == old(redirected) && !loginBusy
                && error == Some(if message != "" then message else "Login failed")
      ensures layout == old(layout) && rememberedUser == old(rememberedUser) && pendingUsername == old(pendingUsername)
      ensures webAuthnSupported == old(webAuthnSupported) && temporarilySwitched == old(temporarilySwitched)
      ensures oneTapBusy == old(oneTapBusy)
    {
      if success {
        stored := Some(Record(RememberedAfterLogin(usn, name, pendingUsername)));
        redirected := true;
      } else {
        error := Some(if message != "" then message else "Login failed");
        loginBusy := false;
      }
    }

    /** The login fetch threw. */
    method LoginThrown()
      modifies this
      ensures error == Some("Connection error. Please try again.") && !loginBusy
      ensures stored == old(stored) && redirected == old(redirected) && layout == old(layout)
      ensures rememberedUser == old(rememberedUser) && pendingUsername == old(pendingUsername)
      ensures webAuthnSupported == old(webAuthnSupported) && temporarilySwitched == old(temporarilySwitched)
      ensures oneTapBusy == old(oneTapBusy)
    {
      error := Some("Connection error. Please try again.");
      loginBusy := false;
    }
  }

  /** login.php's reply carries neither usn nor name, so the record written
      after a password login holds the typed username in both fields. */
  lemma RememberedFromLoginReply(typed: string)
    ensures RememberedAfterLogin(None, None, typed) == Remembered(typed, typed, None)
  {
  }

  /** A credential registered under the id Base64Encode(raw) is decoded by
      the page to raw for the prompt; when the authenticator answers with
      that credential, the id the page sends back is the stored id, so
      verify_auth recognises it. */
  lemma RegisteredIdComesBack(raw: seq<byte>, creds: seq<Credential>)
    requires Base64Encode(raw) in FingerprintAuth.CredentialIds(creds)
    ensures DecodeAll([Base64Encode(raw)]) == Some([raw])
    ensures Base64Encode(DecodeAll([Base64Encode(raw)]).value[0]) in FingerprintAuth.CredentialIds(creds)
  {
    var id := Base64Encode(raw);
    Base64RoundTrip(raw);
    DecodeOne(id);
  }

  lemma DecodeOne(id: string)
    ensures DecodeAll([id]) == (if Base64Decode(id).Some? then Some([Base64Decode(id).value]) else None)
  {
    assert [id][1..] == [];
    assert DecodeAll([]) == Some([]);
    if Base64Decode(id).Some? {
      assert [Base64Decode(id).value] + [] == [Base64Decode(id).value];
    }
  }
}
