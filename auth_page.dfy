/** client/src/pages/AuthPage.tsx: the login / sign-up form. The form's
    checks run in order and the first failing one sets the error; the
    server's answer to a request is a parameter. */
module AuthPage {
  import opened Wrappers
  import opened Text

  datatype Mode = Login | Signup

  /** The request the form sends. */
  datatype AuthRequest = LoginRequest(email: string, password: string)
                       | RegisterRequest(username: string, email: string, password: string)

  /** What a request came back with: a reply `{ ok, message }`, or a thrown
      value (`error` is its message when it is an `Error`, `None` otherwise). */
  datatype AuthReply = Answered(ok: bool, message: string) | Threw(error: Option<string>)

  /** The first failing form check, or `None` when the form may be sent.
      `!s.trim()` holds exactly when `s` is all whitespace (see `Trim`). */
  function Validate(mode: Mode, username: string, email: string, password: string): (r: Option<string>)
    ensures r.None? <==> !AllSpace(email) && !AllSpace(password) && (mode == Signup ==> !AllSpace(username) && |password| >= 6)
    ensures AllSpace(email) ==> r == Some("Email is required")
    ensures !AllSpace(email) && AllSpace(password) ==> r == Some("Password is required")
    ensures !AllSpace(email) && !AllSpace(password) && mode == Signup && AllSpace(username) ==> r == Some("Username is required")
    ensures !AllSpace(email) && !AllSpace(password) && mode == Signup && !AllSpace(username) && |password| < 6 ==>
              r == Some("Password must be at least 6 characters")
  {
    if AllSpace(email) then Some("Email is required")
    else if AllSpace(password) then Some("Password is required")
    else if mode == Signup && AllSpace(username) then Some("Username is required")
    else if mode == Signup && |password| < 6 then Some("Password must be at least 6 characters")
    else None
  }

  /** In login mode neither the username nor the password's length is
      looked at. */
  lemma LoginIgnoresUsernameAndLength(username: string, other: string, email: string, password: string)
    ensures Validate(Login, username, email, password) == Validate(Login, other, email, password)
    ensures Trim(email) != "" && Trim(password) != "" ==> Validate(Login, username, email, password).None?
  {
  }

  /** The length rule counts the password as typed, not trimmed: once the
      other fields are filled in, the length as typed alone decides, so
      surrounding spaces can make up a password too short without them. */
  lemma SignupLengthCountsSpaces(username: string, email: string, password: string)
    requires !AllSpace(username) && !AllSpace(email) && !AllSpace(password)
    ensures Validate(Signup, username, email, password).None? <==> |password| >= 6
    ensures |Trim(password)| < 6 <= |password| ==> Validate(Signup, username, email, password).None?
  {
  }

  /** The error text for an answer that is not `ok`, or for a throw. */
  function FailureText(mode: Mode, reply: AuthReply): (e: string)
    requires !(reply.Answered? && reply.ok)
    ensures reply.Answered? && reply.message != "" ==> e == reply.message
    ensures reply.Answered? && reply.message == "" ==>
              e == (if mode == Login then "Invalid email or password" else "Failed to sign up")
    ensures reply.Threw? ==> e == reply.error.GetOr("Authentication failed")
  {
    match reply
    case Answered(_, message) =>
      if message != "" then message
      else if mode == Login then "Invalid email or password" else "Failed to sign up"
    case Threw(error) => error.GetOr("Authentication failed")
  }

  class AuthForm {
    var mode: Mode
    var username: string
    var email: string
    var password: string
    var isLoading: bool
    var error: Option<string>
    var signupSuccess: bool

    /** The initial state: login mode, empty fields. */
    constructor ()
      ensures mode == Login && username == "" && email == "" && password == ""
      ensures !isLoading && error == None && !signupSuccess
    {
      mode, username, email, password := Login, "", "", "";
      isLoading, error, signupSuccess := false, None, false;
    }

    /** `handleSubmit`: the checks, then the request for the mode; `reply` is
        its answer. `loggedIn` says that the user was signed in (the code then
        leaves the page). */
    method HandleSubmit(reply: AuthReply) returns (request: Option<AuthRequest>, loggedIn: bool)
      modifies this
      ensures !isLoading
      ensures Validate(old(mode), old(username), old(email), old(password)).Some? ==>
                && request == None && !loggedIn
                && error == Validate(old(mode), old(username), old(email), old(password))
                && mode == old(mode) && username == old(username) && email == old(email)
                && password == old(password) && signupSuccess == old(signupSuccess)
      ensures Validate(old(mode), old(username), old(email), old(password)).None? ==>
                && request == Some(if old(mode) == Login then LoginRequest(old(email), old(password))
                                   else RegisterRequest(old(username), old(email), old(password)))
                && (loggedIn <==> old(mode) == Login && reply.Answered? && reply.ok)
                && email == old(email)
                && (reply.Answered? && reply.ok && old(mode) == Signup ==>
                      mode == Login && signupSuccess && password == "" && username == "" && error == None)
                && (reply.Answered? && reply.ok && old(mode) == Login ==>
                      mode == Login && error == None && password == old(password) && username == old(username)
                      && signupSuccess == old(signupSuccess))
                && (!(reply.Answered? && reply.ok) ==>
                      && error == Some(FailureText(old(mode), reply))
                      && mode == old(mode) && username == old(username) && password == old(password)
                      && signupSuccess == old(signupSuccess))
    {
      var problem := Validate(mode, username, email, password);
      isLoading := true;
      error := None;
      request, loggedIn := None, false;
      if problem.Some? {
        error := problem;
        isLoading := false;
        return;
      }
      request := Some(if mode == Login then LoginRequest(email, password) else RegisterRequest(username, email, password));
      if reply.Answered? && reply.ok {
        if mode == Login {
          loggedIn := true;
        } else {
          signupSuccess := true;
          mode := Login;
          email := email;
          password := "";
          username := "";
        }
      } else {
        error := Some(FailureText(mode, reply));
      }
      isLoading := false;
    }

    /** `toggleMode`: the other mode, with every field and message cleared. */
    method ToggleMode()
      modifies this
      ensures mode == (if old(mode) == Login then Signup else Login)
      ensures error == None && !signupSuccess && username == "" && email == "" && password == ""
      ensures isLoading == old(isLoading)
    {
      mode := if mode == Login then Signup else Login;
      error := None;
      signupSuccess := false;
      username := "";
      email := "";
      password := "";
    }
  }

  /** After a successful sign-up the form stands in login mode with the email
      kept, so signing in needs only the password typed again. */
  method SignupThenLogin(f: AuthForm, accepted: AuthReply, newPassword: string, answer: AuthReply)
      returns (first: Option<AuthRequest>, second: Option<AuthRequest>)
    requires f.mode == Signup && Validate(Signup, f.username, f.email, f.password).None?
    requires accepted == Answered(true, "")
    requires Trim(newPassword) != ""
    modifies f
    ensures first.Some? && first.value.RegisterRequest?
    ensures second == Some(LoginRequest(first.value.email, newPassword))
  {
    var loggedIn;
    first, loggedIn := f.HandleSubmit(accepted);
    f.password := newPassword;
    second, loggedIn := f.HandleSubmit(answer);
  }
}
