/** The login form: client-side checks, a lock after three failed
    attempts, and the message shown for each outcome of the request. */
module LoginPage {

  import opened Common
  import AuthController

  const MaxAttempts: nat := 3
  const LockedMessage: string := "Too many failed attempts. Please wait 30 seconds."
  const BlankMessage: string := "Please enter both username and password"
  const ShortMessage: string := "Password must be at least 8 characters"
  const InvalidMessage: string := "Invalid credentials"
  const RefusedMessage: string := "Authentication failed"
  const NetworkMessage: string := "Network error. Please try again."
  const OtherMessage: string := "An error occurred. Please try again."

  datatype Credentials = Credentials(username: string, password: string)

  /** How the request ended: a 2xx answer with the body's `status`, a
      non-2xx answer with the body's `message`, no answer at all (the
      5-second timeout included), or a failure before anything was sent. */
  datatype Reply = Answered(status: Option<string>) | Refused(message: Option<string>) | NoAnswer | NotSent

  /** The client-side checks a request must pass before it is sent. */
  predicate WillSend(attempts: nat, username: string, password: string) {
    attempts < MaxAttempts && !JsBlank(username) && !JsBlank(password) && |password| >= 8
  }

  predicate Succeeded(reply: Reply) {
    reply == Answered(Some("success"))
  }

  /** The message shown after a failed request: the server's message when
      it sent a non-empty one. */
  function FailureMessage(reply: Reply): (m: string)
    requires !Succeeded(reply)
    ensures m != ""
    ensures reply.Refused? && reply.message.Some? && reply.message.value != "" ==> m == reply.message.value
  {
    match reply
    case Answered(_) => InvalidMessage
    case Refused(msg) => if msg.Some? && msg.value != "" then msg.value else RefusedMessage
    case NoAnswer => NetworkMessage
    case NotSent => OtherMessage
  }

  /** The reply the form receives for each answer of the service. */
  function ReplyOf(r: AuthController.LoginReply): Reply {
    match r
    case Success => Answered(Some("success"))
    case Rejected(_, message) => Refused(Some(message))
  }

  /** The client checks are stricter than the server's: a request the form
      sends is never refused for a missing field or a short password, so
      the form logs in exactly when the service accepts the account, and
      otherwise shows "Invalid credentials". */
  lemma SentRequestsReachTheAccountCheck(attempts: nat, username: string, password: string,
                                         matchesHash: string -> bool)
    requires WillSend(attempts, username, password)
    ensures var r := AuthController.Login(Some(username), Some(password), matchesHash);
            (Succeeded(ReplyOf(r)) <==> username == AuthController.AdminUsername && matchesHash(password))
            && (!Succeeded(ReplyOf(r)) ==> r.Rejected? && r.code == 401 && FailureMessage(ReplyOf(r)) == InvalidMessage)
  {
    assert username != [] by {
      if username == [] {
        assert JsBlank(username);
      }
    }
    assert password != [];
  }

  class LoginForm {
    var failedAttempts: nat
    var errorMsg: string
    var isLoading: bool

    constructor ()
      ensures failedAttempts == 0 && errorMsg == "" && !isLoading
    {
      failedAttempts, errorMsg, isLoading := 0, "", false;
    }

    /** The submit button is enabled. */
    predicate CanSubmit()
      reads this
    {
      !isLoading && failedAttempts < MaxAttempts
    }

    /** `handleLogin` with the credentials typed and the way the request
        ends, should one be sent. Returns the request sent, and whether the
        user was logged in and taken to the dashboard. */
    method HandleLogin(username: string, password: string, reply: Reply) returns (sent: Option<Credentials>, loggedIn: bool)
      modifies this
      ensures isLoading == (old(isLoading) && old(failedAttempts) >= MaxAttempts)
      ensures old(failedAttempts) >= MaxAttempts ==> sent.None? && !CanSubmit()
      ensures !old(isLoading) ==> (CanSubmit() <==> failedAttempts < MaxAttempts)
      ensures sent.Some? <==> WillSend(old(failedAttempts), username, password)
      ensures sent.Some? ==> sent.value == Credentials(username, password)
      ensures loggedIn <==> sent.Some? && Succeeded(reply)
      ensures old(failedAttempts) >= MaxAttempts ==>
                errorMsg == LockedMessage && failedAttempts == old(failedAttempts)
      ensures old(failedAttempts) < MaxAttempts && (JsBlank(username) || JsBlank(password)) ==>
                errorMsg == BlankMessage && failedAttempts == old(failedAttempts)
      ensures old(failedAttempts) < MaxAttempts && !JsBlank(username) && !JsBlank(password) && |password| < 8 ==>
                errorMsg == ShortMessage && failedAttempts == old(failedAttempts)
      ensures loggedIn ==> failedAttempts == 0 && errorMsg == ""
      ensures sent.Some? && !loggedIn ==>
                failedAttempts == old(failedAttempts) + 1 && errorMsg == FailureMessage(reply)
    {
      errorMsg := "";
      sent, loggedIn := None, false;
      if failedAttempts >= MaxAttempts {
        errorMsg := LockedMessage;
        return;
      }
      isLoading := true;
      if JsBlank(username) || JsBlank(password) {
        errorMsg := BlankMessage;
        isLoading := false;
        return;
      }
      if |password| < 8 {
        errorMsg := ShortMessage;
        isLoading := false;
        return;
      }
      sent := Some(Credentials(username, password));
      if Succeeded(reply) {
        failedAttempts := 0;
        loggedIn := true;
      } else {
        failedAttempts := failedAttempts + 1;
        errorMsg := FailureMessage(reply);
      }
      isLoading := false;
    }
  }
}
