/** The fingerprint part of the student dashboard script (dashboard.js):
    the device name sent with a new credential, the registration flow
    around the WebAuthn create ceremony, and what a registration or a
    deletion changes on the page and in localStorage. */
module DashboardFingerprint {
  import opened Common
  import opened Codec
  import LoginPage

  // ---------------------------------------------------------------------
  // getDeviceName
  // ---------------------------------------------------------------------

  /** The user-agent substrings looked for, in order, and the names they give. */
  const Patterns: seq<string> := ["iPhone", "iPad", "Mac", "Android", "Windows", "Linux"]
  const DeviceNames: seq<string> := ["iPhone", "iPad", "Mac", "Android Device", "Windows PC", "Linux Device"]
  const UnknownDevice := "Unknown Device"

  /** getDeviceName: the name of the first pattern the user agent contains. */
  function DeviceName(ua: string): string {
    if Contains(ua, "iPhone") then "iPhone"
    else if Contains(ua, "iPad") then "iPad"
    else if Contains(ua, "Mac") then "Mac"
    else if Contains(ua, "Android") then "Android Device"
    else if Contains(ua, "Windows") then "Windows PC"
    else if Contains(ua, "Linux") then "Linux Device"
    else UnknownDevice
  }

  /** The name is the k-th one iff the k-th pattern occurs and no earlier
      one does (an iPhone's agent also mentions "Mac OS X" and still reads
      as an iPhone); it is "Unknown Device" iff no pattern occurs. */
  lemma DeviceNameFirstMatch(ua: string, k: nat)
    requires k < |Patterns|
    ensures DeviceName(ua) == DeviceNames[k] <==>
              Contains(ua, Patterns[k]) && forall j :: 0 <= j < k ==> !Contains(ua, Patterns[j])
    ensures DeviceName(ua) == UnknownDevice <==> forall j :: 0 <= j < |Patterns| ==> !Contains(ua, Patterns[j])
  {
    assert Patterns[0] == "iPhone" && Patterns[1] == "iPad" && Patterns[2] == "Mac";
    assert Patterns[3] == "Android" && Patterns[4] == "Windows" && Patterns[5] == "Linux";
    assert DeviceNames[0] == "iPhone" && DeviceNames[1] == "iPad" && DeviceNames[2] == "Mac";
    assert DeviceNames[3] == "Android Device" && DeviceNames[4] == "Windows PC" && DeviceNames[5] == "Linux Device";
    // the names differ in length, except the last, which differs in its first letter
    assert |DeviceNames[0]| == 6 && |DeviceNames[1]| == 4 && |DeviceNames[2]| == 3;
    assert |DeviceNames[3]| == 14 && |DeviceNames[4]| == 10 && |DeviceNames[5]| == 12;
    assert DeviceNames[3][0] != UnknownDevice[0];
  }

  // ---------------------------------------------------------------------
  // Registration and deletion
  // ---------------------------------------------------------------------

  /** The logged-in student as the page holds it (window.currentUser). */
  datatype User = User(usn: string, name: string, hasFingerprint: bool, prompted: bool)

  /** An exception reaching registerFingerprint's catch. */
  datatype Thrown = Thrown(name: string, message: string)

  const UnsupportedBrowser := "Fingerprint login is not supported on this browser"
  const Cancelled := "Fingerprint registration was cancelled or timed out."
  const UnsupportedDevice := "Your device does not support fingerprint/biometric login."
  const FailedPrefix := "Failed to register fingerprint: "
  const Registered := "Fingerprint registered successfully! You can now use 1-Tap Login."
  const DeleteFailedPrefix := "Failed to delete credential: "

  /** The TypeError `.map` on a null match raises when the challenge has no
      character to split; its text is the engine's, this one stands for it. */
  const NullMatch := Thrown("TypeError", "challengeData.challenge.match(...) is null")

  /** The catch block's alert. */
  function CatchAlert(e: Thrown): string {
    if e.name == "NotAllowedError" then Cancelled
    else if e.name == "NotSupportedError" then UnsupportedDevice
    else FailedPrefix + e.message
  }

  /** `message || fallback` */
  function MessageOr(message: string, fallback: string): string {
    if message == "" then fallback else message
  }

  /** fingerprint_register.php's reply to get_challenge. */
  datatype ChallengeReply = ChallengeIssued(challenge: string, userId: string, userName: string)
                          | ChallengeRefused(message: string)

  /** The publicKey options handed to navigator.credentials.create. */
  datatype CreationRequest = CreationRequest(challenge: seq<byte>, userId: string, userName: string, deviceName: string)

  /** The register_credential request body. */
  datatype RegisterRequest = RegisterRequest(credentialId: string, publicKey: string, deviceName: string)

  /** fingerprint_register.php's reply to delete_credential. */
  datatype DeleteReply = DeleteDone(count: nat) | DeleteRefused(message: string)

  /** The registration's request body: both buffers in Base64, each of
      which decodes back to the bytes the authenticator returned. */
  method RegisterBody(rawId: seq<byte>, publicKey: seq<byte>, deviceName: string) returns (request: RegisterRequest)
    ensures request == RegisterRequest(Base64Encode(rawId), Base64Encode(publicKey), deviceName)
    ensures Base64Decode(request.credentialId) == Some(rawId)
    ensures Base64Decode(request.publicKey) == Some(publicKey)
  {
    var id := ArrayBufferToBase64(rawId);
    var key := ArrayBufferToBase64(publicKey);
    request := RegisterRequest(id, key, deviceName);
  }

  /** A challenge fingerprint_register.php issues (bin2hex of 32 random
      bytes) always reaches the ceremony, as those very bytes. */
  lemma IssuedChallengeDecodes(random: seq<byte>)
    requires |random| == 32
    ensures HexChallengeBytes(Bin2Hex(random)) == Some(random)
  {
    HexRoundTrip(random);
  }

  /** The dashboard's fingerprint state: the current user, the remembered
      user record in localStorage, the manage button's registered look, the
      two modals, the buttons' busy state and the last alert. */
  class Panel {
    var currentUser: Option<User>
    var remembered: Option<LoginPage.Stored>
    var buttonRegistered: bool
    var promptOpen: bool
    var manageOpen: bool
    var busy: bool
    var alert: Option<string>

    constructor (user: Option<User>, remembered: Option<LoginPage.Stored>)
      ensures currentUser == user && this.remembered == remembered
      ensures buttonRegistered == (user.Some? && user.value.hasFingerprint)
      ensures !promptOpen && !manageOpen && !busy && alert.None?
    {
      currentUser := user;
      this.remembered := remembered;
      buttonRegistered := user.Some? && user.value.hasFingerprint;
      promptOpen := false;
      manageOpen := false;
      busy := false;
      alert := None;
    }

    /** The registration's end in the catch block: the alert for the error,
        and the buttons are enabled again. */
    method RegistrationThrown(e: Thrown)
      modifies this
      ensures alert == Some(CatchAlert(e)) && !busy
      ensures currentUser == old(currentUser) && remembered == old(remembered)
      ensures buttonRegistered == old(buttonRegistered)
      ensures promptOpen == old(promptOpen) && manageOpen == old(manageOpen)
    {
      alert := Some(CatchAlert(e));
      busy := false;
    }

    /** registerFingerprint's start: without WebAuthn only an alert; else
        the buttons turn busy and the challenge is requested. */
    method RegisterClicked(webAuthnSupported: bool) returns (requestChallenge: bool)
      modifies this
      ensures requestChallenge == webAuthnSupported
      ensures !webAuthnSupported ==> alert == Some(UnsupportedBrowser) && busy == old(busy)
      ensures webAuthnSupported ==> busy && alert == old(alert)
      ensures currentUser == old(currentUser) && remembered == old(remembered)
      ensures buttonRegistered == old(buttonRegistered)
      ensures promptOpen == old(promptOpen) && manageOpen == old(manageOpen)
    {
      if !webAuthnSupported {
        alert := Some(UnsupportedBrowser);
        return false;
      }
      busy := true;
      return true;
    }

    /** The challenge reply: a refusal throws its message (or the default);
        an issued challenge is split into hex pairs, and when it has no
        character at all the split throws; otherwise the ceremony starts
        with the decoded bytes, the user fields and this device's name. */
    method ChallengeReceived(reply: ChallengeReply, userAgent: string) returns (request: Option<CreationRequest>)
      modifies this
      ensures reply.ChallengeRefused? ==>
                request.None? && !busy
                && alert == Some(FailedPrefix + MessageOr(reply.message, "Failed to get registration challenge"))
      ensures reply.ChallengeIssued? && HexChallengeBytes(reply.challenge).None? ==>
                request.None? && !busy && alert == Some(CatchAlert(NullMatch))
      ensures reply.ChallengeIssued? && HexChallengeBytes(reply.challenge).Some? ==>
                request == Some(CreationRequest(HexChallengeBytes(reply.challenge).value, reply.userId,
                                                reply.userName, DeviceName(userAgent)))
                && busy == old(busy) && alert == old(alert)
      ensures currentUser == old(currentUser) && remembered == old(remembered)
      ensures buttonRegistered == old(buttonRegistered)
      ensures promptOpen == old(promptOpen) && manageOpen == old(manageOpen)
    {
      match reply
      case ChallengeRefused(message) =>
        RegistrationThrown(Thrown("Error", MessageOr(message, "Failed to get registration challenge")));
        return None;
      case ChallengeIssued(challenge, userId, userName) =>
        var bytes := HexChallengeBytes(challenge);
        if bytes.None? {
          RegistrationThrown(NullMatch);
          return None;
        }
        request := Some(CreationRequest(bytes.value, userId, userName, DeviceName(userAgent)));
    }

    /** The register_credential reply. On success the remembered user record
        is written from the current user (without a fingerprint flag), both
        modals close, the button shows the registered look, the current user
        is marked as having a fingerprint and as prompted, and the buttons
        are released. The credential list is reloaded only if the manage
        modal is still open, which it no longer is at that point. On failure
        the server's message (or the default) is shown. */
    method RegisterReplied(success: bool, message: string) returns (reloadList: bool)
      modifies this
      ensures !busy && !reloadList
      ensures success ==>
                alert == Some(Registered) && buttonRegistered && !promptOpen && !manageOpen
                && (old(currentUser).Some? ==>
                      var u := old(currentUser).value;
                      remembered == Some(LoginPage.Record(LoginPage.Remembered(u.usn, u.name, None)))
                      && currentUser == Some(u.(hasFingerprint := true, prompted := true)))
                && (old(currentUser).None? ==> remembered == old(remembered) && currentUser.None?)
      ensures !success ==>
                alert == Some(FailedPrefix + MessageOr(message, "Failed to register fingerprint"))
                && currentUser == old(currentUser) && remembered == old(remembered)
                && buttonRegistered == old(buttonRegistered)
                && promptOpen == old(promptOpen) && manageOpen == old(manageOpen)
    {
      if !success {
        RegistrationThrown(Thrown("Error", MessageOr(message, "Failed to register fingerprint")));
        return false;
      }
      if currentUser.Some? {
        var u := currentUser.value;
        remembered := Some(LoginPage.Record(LoginPage.Remembered(u.usn, u.name, None)));
      }
      promptOpen := false;
      manageOpen := false;
      buttonRegistered := true;
      if currentUser.Some? {
        currentUser := Some(currentUser.value.(hasFingerprint := true, prompted := true));
      }
      alert := Some(Registered);
      reloadList := manageOpen;
      busy := false;
    }

    /** The delete_credential reply: on success the list is reloaded, and
        when no credential is left the button loses its registered look,
        the current user loses the fingerprint flag and the remembered user
        record is removed; on failure only an alert. */
    method DeleteReplied(reply: DeleteReply) returns (reloadList: bool)
      modifies this
      ensures reloadList == reply.DeleteDone?
      ensures reply.DeleteDone? && reply.count == 0 ==>
                !buttonRegistered && remembered.None?
                && currentUser == (if old(currentUser).Some? then Some(old(currentUser).value.(hasFingerprint := false))
                                   else None)
      ensures reply.DeleteDone? && reply.count > 0 ==>
                buttonRegistered == old(buttonRegistered) && remembered == old(remembered)
                && currentUser == old(currentUser)
      ensures reply.DeleteDone? ==> alert == old(alert)
      ensures reply.DeleteRefused? ==>
                alert == Some(DeleteFailedPrefix + MessageOr(reply.message, "Failed to delete credential"))
                && buttonRegistered == old(buttonRegistered) && remembered == old(remembered)
                && currentUser == old(currentUser)
      ensures busy == old(busy) && promptOpen == old(promptOpen) && manageOpen == old(manageOpen)
    {
      match reply
      case DeleteRefused(message) =>
        alert := Some(DeleteFailedPrefix + MessageOr(message, "Failed to delete credential"));
        return false;
      case DeleteDone(count) =>
        if count == 0 {
          buttonRegistered := false;
          if currentUser.Some? {
            currentUser := Some(currentUser.value.(hasFingerprint := false));
          }
          remembered := None;
        }
        return true;
    }
  }
}
