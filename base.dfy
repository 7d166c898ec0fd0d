/** Values shared by every handler: optional values, HTTP request methods, the
    claims of a verified token and the reading of an `Authorization` header. */
module Base {
  import Js

  datatype Option<T> = None | Some(value: T)

  /** The request methods the handlers tell apart. */
  datatype Verb = Get | Post | Patch | Delete | Options | Put | Head

  /** What a verified JSON Web Token decodes to. Tokens issued at login and
      registration carry only `userId`; some handlers read `id` or `username`
      instead, and find nothing there. */
  datatype Claims = Claims(userId: Option<nat>, id: Option<nat>, username: Option<string>)

  /** `jwt.verify`: the claims of a valid token, `None` where the library throws. */
  type Verifier = string -> Option<Claims>

  /** The `id` path parameter of a request: missing or empty, text that does not
      read as an integer (the integer `id` column refuses it and the query
      throws), or an integer. A numeral outside the column's 32-bit range is
      refused in the same way, so it is `NotInteger` too. */
  datatype PathId = NoId | NotInteger | IntegerId(value: int)

  /** The claims `jwt.sign({ userId })` puts into a token at login and registration. */
  function IssuedClaims(userId: nat): (c: Claims)
    ensures c.userId == Some(userId) && c.id.None? && c.username.None?
  {
    Claims(Some(userId), None, None)
  }

  /** JavaScript truthiness of an optional string field: absent and `""` are falsy. */
  predicate Present(s: Option<string>) {
    s.Some? && s.value != ""
  }

  /** `req.headers.authorization?.split(' ')[1]`, where a missing or empty second
      field reads as no token. */
  function BearerToken(authorization: Option<string>): (t: Option<string>)
    ensures t.Some? ==> t.value != [] && ' ' !in t.value
    ensures authorization.None? ==> t.None?
  {
    match authorization
    case None => None
    case Some(h) =>
      var parts := Js.Split(h, ' ');
      if |parts| >= 2 && parts[1] != [] then Some(parts[1]) else None
  }

  /** A header `<scheme> <token>` yields the token; a header without a space yields none. */
  lemma BearerTokenOfHeader(scheme: string, token: string)
    requires ' ' !in scheme && ' ' !in token && token != []
    ensures BearerToken(Some(scheme + " " + token)) == Some(token)
    ensures BearerToken(Some(scheme)) == None
  {
    Js.SplitAtFirst(scheme, ' ', token);
    Js.SplitWithoutSeparator(token, ' ');
    assert scheme + " " + token == scheme + [' '] + token;
    Js.SplitWithoutSeparator(scheme, ' ');
  }

  /** The outcome of the authentication step that reads a bearer token and verifies it. */
  datatype Auth = Verified(claims: Claims) | NoToken | InvalidToken

  /** The 401 message each failed authentication answers with. */
  function AuthError(a: Auth): string
    requires !a.Verified?
  {
    if a.NoToken? then "No token provided" else "Invalid token"
  }

  /** Read the token with `BearerToken`, then ask the verifier: a verified token
      gives its claims, a missing one `NoToken`, a rejected one `InvalidToken`. */
  function Authenticate(authorization: Option<string>, verify: Verifier): (a: Auth)
    ensures a.NoToken? <==> BearerToken(authorization).None?
    ensures a.InvalidToken? <==> BearerToken(authorization).Some? && verify(BearerToken(authorization).value).None?
    ensures a.Verified? ==> verify(BearerToken(authorization).value) == Some(a.claims)
  {
    match BearerToken(authorization)
    case None => NoToken
    case Some(t) =>
      match verify(t)
      case None => InvalidToken
      case Some(c) => Verified(c)
  }
}
