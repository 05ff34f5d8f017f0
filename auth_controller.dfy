/** `POST /api/auth/login` of the service: a single administrator account
    whose password is checked against a BCrypt hash. */
module AuthController {

  import opened Common

  const AdminUsername: string := "admin"
  const RequiredMessage: string := "Username and password are required"
  const ShortPasswordMessage: string := "Password must be at least 8 characters"
  const InvalidMessage: string := "Invalid credentials"

  /** The reply: 200 with status "success", or an error status with the
      message of the body. */
  datatype LoginReply = Success | Rejected(code: int, message: string)

  /** A field is missing when it is null or empty; it is not trimmed. */
  predicate Missing(field: Option<string>) {
    field.None? || field.value == ""
  }

  /** `login`. `matchesHash(p)` stands for `BCrypt.checkpw(p, hash)`
      against the hash of the administrator's password. */
  function Login(username: Option<string>, password: Option<string>, matchesHash: string -> bool): (r: LoginReply)
    ensures r.Success? <==>
              username == Some(AdminUsername) && password.Some?
              && |password.value| >= 8 && matchesHash(password.value)
    ensures r == Rejected(400, RequiredMessage) <==> Missing(username) || Missing(password)
    ensures r == Rejected(400, ShortPasswordMessage) <==>
              !Missing(username) && !Missing(password) && |password.value| < 8
    ensures r.Rejected? ==> r.code in {400, 401}
    ensures r.Rejected? && r.code == 401 <==>
              !Missing(username) && !Missing(password) && |password.value| >= 8
              && !(username.value == AdminUsername && matchesHash(password.value))
    ensures r.Rejected? && r.code == 401 ==> r.message == InvalidMessage
  {
    if Missing(username) || Missing(password) then Rejected(400, RequiredMessage)
    else if |password.value| < 8 then Rejected(400, ShortPasswordMessage)
    else if username.value == AdminUsername && matchesHash(password.value) then Success
    else Rejected(401, InvalidMessage)
  }

  /** Length is checked before the account: a short password is refused as
      such even for the administrator's name and whatever the hash says. */
  lemma ShortPasswordBeforeAccount(password: string, matchesHash: string -> bool)
    requires 0 < |password| < 8
    ensures Login(Some(AdminUsername), Some(password), matchesHash) == Rejected(400, ShortPasswordMessage)
  {
  }
}
