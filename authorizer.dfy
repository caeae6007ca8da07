/** The API Gateway token authorizer of the product service: HTTP Basic
    credentials (section 2 of RFC 7617) checked against a username-to-password
    table taken from the process environment. */
module BasicAuthorizer {
  import opened Wrappers
  import JsSplit
  import Base64
  import Utf8

  /** `process.env`: username to expected password. */
  type Environment = map<string, string>

  datatype Statement = Statement(action: string, effect: string, resource: string)
  datatype PolicyDocument = PolicyDocument(version: string, statement: seq<Statement>)
  datatype AuthContext = AuthContext(username: string)
  datatype AuthResponse = AuthResponse(principalId: string, policyDocument: PolicyDocument, context: AuthContext)

  /** Where the handler's `try` block stops. `MissingToken` and `Forbidden`
      are its two `throw` statements and `MissingCredential` is the TypeError
      `Buffer.from(undefined)` raises. `UndecodableCredential` is not a throw
      of the handler: Node decodes any text, and it is this model that refuses
      what is not canonical base 64 of well-formed UTF-8. */
  datatype Raised =
    | MissingToken            // no token or the empty token: Error("Unauthorized")
    | MissingCredential       // no second space-separated field: Buffer.from(undefined) raises a TypeError
    | UndecodableCredential   // the field is not canonical base 64 of well-formed UTF-8 (the model's refusal)
    | Forbidden               // unknown user, empty configured password or wrong password: Error("Forbidden")

  /** The only error the handler lets escape. */
  const UnauthorizedMessage := "Unauthorized"

  /** The response for an accepted user: one statement allowing every resource. */
  function AllowResponse(username: string): (r: AuthResponse)
    ensures r.principalId == username && r.context.username == username
    ensures forall st :: st in r.policyDocument.statement ==> st.effect == "Allow"
  {
    AuthResponse(
      username,
      PolicyDocument("2012-10-17", [Statement("execute-api:Invoke", "Allow", "*")]),
      AuthContext(username))
  }

  /** `[username, password] = decoded.split(":")`; the password is `undefined`
      when there is no colon. */
  datatype Credentials = Credentials(username: string, password: Option<string>)

  /** `authorizationToken.split(" ")[1]`: the scheme word before it is never looked at. */
  function CredentialField(authorizationToken: string): (r: Option<string>)
    ensures r.Some? <==> ' ' in authorizationToken
    ensures r.Some? ==> ' ' !in r.value
  {
    JsSplit.Field(authorizationToken, ' ', 1)
  }

  /** `Buffer.from(token, "base64").toString("utf-8")`. */
  function DecodeCredential(field: string): (r: Option<string>)
    ensures r.Some? ==> field == Base64.Encode(Utf8.Encode(r.value))
  {
    match Base64.Decode(field)
    case None => None
    case Some(bytes) =>
      Base64.EncodeDecode(field);
      match Utf8.Decode(bytes)
      case None => None
      case Some(text) =>
        Utf8.EncodeDecode(bytes);
        Some(text)
  }

  /** The first two colon-separated fields of the decoded text. */
  function ParseCredentials(decoded: string): (c: Credentials)
    ensures ':' !in c.username
    ensures c.password.None? <==> ':' !in decoded
    ensures c.password.Some? ==> ':' !in c.password.value
  {
    var fields := JsSplit.Split(decoded, ':');
    Credentials(fields[0], if |fields| >= 2 then Some(fields[1]) else None)
  }

  /** Lines 12-14: the credentials a token carries, or where reading them
      stopped. */
  function CredentialsOf(authorizationToken: string): (r: Result<Credentials, Raised>)
    ensures r == Err(MissingCredential) <==> ' ' !in authorizationToken
    ensures r.Err? ==> r.error == MissingCredential || r.error == UndecodableCredential
    ensures r.Ok? ==> ':' !in r.value.username
  {
    match CredentialField(authorizationToken)
    case None => Err(MissingCredential)
    case Some(field) =>
      match DecodeCredential(field)
      case None => Err(UndecodableCredential)
      case Some(decoded) => Ok(ParseCredentials(decoded))
  }

  /** `process.env[username]`: `undefined` for a user without an entry. */
  function ExpectedPassword(env: Environment, username: string): Option<string> {
    if username in env then Some(env[username]) else None
  }

  /** JavaScript truthiness of a string or `undefined`. */
  predicate Truthy(v: Option<string>) {
    v.Some? && v.value != ""
  }

  /** The negation of the `Forbidden` test at line 18,
      `!expectedPassword || expectedPassword !== password`. It holds exactly
      when the user has a non-empty configured password and presented it. */
  function Grants(env: Environment, c: Credentials): (g: bool)
    ensures g <==> c.username in env && env[c.username] != "" && c.password == Some(env[c.username])
  {
    var expected := ExpectedPassword(env, c.username);
    !(!Truthy(expected) || expected != c.password)
  }

  /** The `try` block: the response, or what stopped it. */
  function Attempt(authorizationToken: Option<string>, env: Environment): (r: Result<AuthResponse, Raised>)
    ensures r == Err(MissingToken) <==> authorizationToken.None? || authorizationToken.value == ""
    ensures r.Ok? ==> r.value == AllowResponse(r.value.principalId)
    ensures r.Ok? ==> ':' !in r.value.principalId
  {
    if authorizationToken.None? || authorizationToken.value == "" then Err(MissingToken)
    else
      match CredentialsOf(authorizationToken.value)
      case Err(e) => Err(e)
      case Ok(c) => if !Grants(env, c) then Err(Forbidden) else Ok(AllowResponse(c.username))
  }

  /** The authorizer: whatever the `try` block raised, the caller sees
      `Error("Unauthorized")`. */
  function Authorize(authorizationToken: Option<string>, env: Environment): (r: Result<AuthResponse, string>)
    ensures r.Err? ==> r.error == UnauthorizedMessage
    ensures r.Ok? <==> Attempt(authorizationToken, env).Ok?
    ensures r.Ok? ==> r.value == Attempt(authorizationToken, env).value
  {
    match Attempt(authorizationToken, env)
    case Ok(response) => Ok(response)
    case Err(_) => Err(UnauthorizedMessage)
  }

  /** The token a client following RFC 7617 sends, generalised: a scheme word
      without spaces, one space, the base 64 of the UTF-8 of
      `user ":" password` followed by `tail`, and then `rest`. */
  function BasicToken(scheme: string, user: string, password: string, tail: string, rest: string): string {
    scheme + " " + Base64.Encode(Utf8.Encode(user + ":" + password + tail)) + rest
  }

  /** `tail` is dropped by the colon split, `rest` by the space split. */
  predicate IsIgnoredTail(tail: string, sep: char) {
    tail == [] || tail[0] == sep
  }
}
