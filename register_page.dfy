/** The registration page script (register.js): client-side checks on the
    form, the request it posts to register.php, and how the reply is shown. */
module RegisterPage {
  import opened Common
  import RegisterServer

  /** The raw values of the form's inputs. */
  datatype Inputs = Inputs(
    usn: string, password: string, confirmPassword: string, name: string, semester: string,
    college: string, openElective: string, openElectiveCode: string, aecVertical: string,
    aecVerticalCode: string)

  const Mismatch := "Passwords do not match!"
  const TooShort := "Password must be at least 4 characters long!"
  const NetworkError := "An error occurred. Please try again."

  /** The FormData posted to register.php: the usn, name and elective fields
      trimmed, the password, semester and college as typed or selected. */
  function FormData(inputs: Inputs): map<string, string> {
    map["usn" := JsTrim(inputs.usn), "password" := inputs.password, "name" := JsTrim(inputs.name),
        "semester" := inputs.semester, "college" := inputs.college,
        "openElective" := JsTrim(inputs.openElective), "openElectiveCode" := JsTrim(inputs.openElectiveCode),
        "aecVertical" := JsTrim(inputs.aecVertical), "aecVerticalCode" := JsTrim(inputs.aecVerticalCode)]
  }

  /** The page's state: whether the registration-closed marker is shown, the
      two message boxes, and whether the redirect to the login page is set. */
  class Page {
    var closed: bool
    var errorText: string
    var successText: string
    var redirecting: bool

    constructor (closed: bool)
      ensures this.closed == closed && errorText == "" && successText == "" && !redirecting
    {
      this.closed := closed;
      errorText := "";
      successText := "";
      redirecting := false;
    }

    /** The submit handler up to the fetch. With the closed marker nothing
        happens at all. Otherwise both messages are cleared; a password
        mismatch is reported first, then a password shorter than 4 UTF-16
        units; only when both pass is a request produced. */
    method Submit(inputs: Inputs) returns (request: Option<map<string, string>>)
      modifies this
      ensures closed == old(closed) && redirecting == old(redirecting)
      ensures old(closed) ==> request.None? && errorText == old(errorText) && successText == old(successText)
      ensures !old(closed) ==> successText == ""
      ensures !old(closed) && inputs.password != inputs.confirmPassword ==>
                request.None? && errorText == Mismatch
      ensures !old(closed) && inputs.password == inputs.confirmPassword && Utf16Length(inputs.password) < 4 ==>
                request.None? && errorText == TooShort
      ensures request.Some? <==>
                !old(closed) && inputs.password == inputs.confirmPassword && Utf16Length(inputs.password) >= 4
      ensures request.Some? ==> request.value == FormData(inputs) && errorText == ""
    {
      if closed {
        return None;
      }
      errorText := "";
      successText := "";
      if inputs.password != inputs.confirmPassword {
        errorText := Mismatch;
        return None;
      }
      if Utf16Length(inputs.password) < 4 {
        errorText := TooShort;
        return None;
      }
      request := Some(FormData(inputs));
    }

    /** The reply: on success the server's message replaces the error and the
        redirect is scheduled; on failure the message goes to the error box
        and the success box is cleared. */
    method Receive(success: bool, message: string)
      modifies this
      ensures closed == old(closed)
      ensures success ==> successText == message && errorText == "" && redirecting
      ensures !success ==> errorText == message && successText == "" && redirecting == old(redirecting)
    {
      if success {
        successText := message;
        errorText := "";
        redirecting := true;
      } else {
        errorText := message;
        successText := "";
      }
    }

    /** A thrown fetch or JSON error. */
    method Fail()
      modifies this
      ensures errorText == NetworkError
      ensures closed == old(closed) && successText == old(successText) && redirecting == old(redirecting)
    {
      errorText := NetworkError;
    }
  }

  /** A password the page lets through also passes register.php's length
      check: strlen counts UTF-8 bytes, which are never fewer than the UTF-16
      units the page counts. */
  lemma ClientLengthImpliesServerLength(password: string)
    requires Utf16Length(password) >= 4
    ensures !RegisterServer.PasswordTooShort(password)
  {
    Utf16NotLongerThanUtf8(password);
  }
}
