/** Bearer-token authentication: `backend/middlewares/userAuth.js`. */
module UserAuth {
  import opened Common
  import opened Text

  /** The payload `jwt.verify` decodes: the claims put in by login plus the issue and expiry times. */
  datatype Claims = Claims(id: Id, email: string, name: string, role: string, iat: int, exp: int)

  /** What the middleware attaches to the request as `req.userInfo`. */
  datatype UserInfo = UserInfo(id: Id, email: string, name: string, role: string)

  datatype AuthResult =
    | Unauthorized(status: int, message: string)
    | Authenticated(info: UserInfo)

  const BearerPrefix: string := "Bearer "

  /** `authHeader.split(" ")[1]` */
  function BearerToken(header: string): (token: string)
    requires StartsWith(header, BearerPrefix)
    ensures token == TakeUntil(header[|BearerPrefix|..], ' ')
  {
    assert header == "Bearer" + [' '] + header[|BearerPrefix|..];
    SplitAfterField("Bearer", ' ', header[|BearerPrefix|..]);
    SplitFirstField(header[|BearerPrefix|..], ' ');
    Split(header, ' ')[1]
  }

  /** The middleware. `verify` is `jwt.verify` with the server's secret; `None` stands for a throw.
      Without a header that starts with "Bearer " the reply is 401 "No token provided"; a token that
      does not verify gives 401 "Invalid Token"; otherwise the request proceeds with exactly the
      id, email, name and role of the verified payload. */
  function Authenticate(header: Option<string>, verify: string -> Option<Claims>): (r: AuthResult)
    ensures header.None? || !StartsWith(header.value, BearerPrefix)
            ==> r == Unauthorized(401, "No token provided")
    ensures header.Some? && StartsWith(header.value, BearerPrefix) ==>
            var token := TakeUntil(header.value[|BearerPrefix|..], ' ');
            match verify(token)
            case None => r == Unauthorized(401, "Invalid Token")
            case Some(c) => r == Authenticated(UserInfo(c.id, c.email, c.name, c.role))
  {
    if header.None? || !StartsWith(header.value, BearerPrefix) then
      Unauthorized(401, "No token provided")
    else
      match verify(BearerToken(header.value))
      case None => Unauthorized(401, "Invalid Token")
      case Some(c) => Authenticated(UserInfo(c.id, c.email, c.name, c.role))
  }

  /** The token is read up to the next space: anything after it in the header is ignored. */
  lemma TokenStopsAtSpace(token: string, rest: string)
    requires ' ' !in token
    ensures StartsWith(BearerPrefix + token + " " + rest, BearerPrefix)
    ensures BearerToken(BearerPrefix + token + " " + rest) == token
  {
    var h := BearerPrefix + token + " " + rest;
    assert h[..|BearerPrefix|] == BearerPrefix;
    assert h[|BearerPrefix|..] == token + [' '] + rest;
    SplitAfterField(token, ' ', rest);
    SplitFirstField(token + [' '] + rest, ' ');
  }
}
