/**
 * Reading transport variables and the HTTP Basic authentication decision.
 * The server variables are a map from name to value (absent = not set); the
 * credential store is the username-to-record map that the credentials file
 * returns. The two-second delay after a failed attempt is not modelled.
 */
module Auth {
  import opened PhpValues
  import opened Envelopes

  const UserVar := "PHP_AUTH_USER"
  const PasswordVar := "PHP_AUTH_PW"

  function MissingServerVarMessage(name: string): string {
    "The required $_SERVER variable '" + name + "' is not set."
  }

  /** `get_server_var` with no default: the value, or a 500 MISSING_SERVER_VAR failure. */
  function GetServerVar(server: map<string, string>, name: string): (r: Flow<string>)
    ensures r.Next? <==> name in server
    ensures r.Next? ==> r.value == server[name]
    ensures r.Halt? ==>
              && Get(r.envelope, StatusKey) == Str("500 Internal Server Error")
              && Get(r.envelope, CodeKey) == Str("MISSING_SERVER_VAR")
              && Get(r.envelope, MessageKey) == Str(MissingServerVarMessage(name))
              && Get(r.envelope, SuccessKey) == Bool(false)
  {
    if name in server then Next(server[name])
    else Halt(FailWith(None, "MISSING_SERVER_VAR", MissingServerVarMessage(name)))
  }

  const UnauthorizedMessage: string :=
    "You need to authorize with HTTP Basic credentials if you want to communicate with eilog."

  const AuthenticateHeader: string := "WWW-Authenticate: Basic realm=\"eilog\""

  /** The envelope `enforce_auth` sends when authentication fails. */
  function Unauthorized(): (r: PArray)
    ensures Get(r, StatusKey) == Str("401 Unauthorized")
    ensures Get(r, HeadersKey) == Str(AuthenticateHeader)
    ensures Get(r, CodeKey) == Str("UNAUTHORIZED")
    ensures Get(r, MessageKey) == Str(UnauthorizedMessage)
    ensures Get(r, SuccessKey) == Bool(false)
  {
    var data := [(StatusKey, Str("401 Unauthorized")), (HeadersKey, Str(AuthenticateHeader)),
                 (CodeKey, Str("UNAUTHORIZED")), (MessageKey, Str(UnauthorizedMessage))];
    KeysDistinct();
    assert Keys(data) == [StatusKey, HeadersKey, CodeKey, MessageKey];
    GetEntry(data, 0);
    GetEntry(data, 1);
    GetEntry(data, 2);
    GetEntry(data, 3);
    GetMissing(data, SuccessKey);
    Error(Arr(data))
  }

  /** `$credentials[$user]['password']`; a record that is not an array has none. */
  function StoredPassword(record: Value): Value {
    if record.Arr? then Get(record.entries, SKey("password")) else Null
  }

  /** `isset($credentials[$user])`. */
  predicate KnownUser(credentials: map<string, Value>, user: string) {
    user in credentials && credentials[user] != Null
  }

  /** A known user name arrived without a password variable. */
  predicate PasswordMissing(server: map<string, string>, credentials: map<string, Value>) {
    UserVar in server && KnownUser(credentials, server[UserVar]) && PasswordVar !in server
  }

  /**
   * `enforce_auth`: the authenticated user name, or the 401 envelope. With a
   * known user, the password is read as a required variable, so a known user
   * sent without a password ends in the MISSING_SERVER_VAR failure instead.
   */
  function EnforceAuth(server: map<string, string>, credentials: map<string, Value>): (r: Flow<string>)
    ensures r.Next? <==>
              && UserVar in server
              && KnownUser(credentials, server[UserVar])
              && PasswordVar in server
              && StoredPassword(credentials[server[UserVar]]) == Str(server[PasswordVar])
    ensures r.Next? ==> r.value == server[UserVar]
    ensures r.Halt? && !PasswordMissing(server, credentials) ==> r.envelope == Unauthorized()
    ensures r.Halt? && PasswordMissing(server, credentials) ==>
              && Get(r.envelope, StatusKey) == Str("500 Internal Server Error")
              && Get(r.envelope, CodeKey) == Str("MISSING_SERVER_VAR")
              && Get(r.envelope, MessageKey) == Str(MissingServerVarMessage(PasswordVar))
              && Get(r.envelope, SuccessKey) == Bool(false)
  {
    if UserVar !in server then Halt(Unauthorized())
    else
      var user := server[UserVar];
      if KnownUser(credentials, user) then
        match GetServerVar(server, PasswordVar)
        case Halt(e) => Halt(e)
        case Next(password) =>
          if StoredPassword(credentials[user]) == Str(password) then Next(user) else Halt(Unauthorized())
      else Halt(Unauthorized())
  }
}
