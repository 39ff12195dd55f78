/** `JwtRefreshStrategy`: the passport strategy named `jwt-refresh`. It takes the
    refresh token from the `x-refresh-token` header or else from the body's
    `refreshToken`, verifies it under the refresh secret without ignoring expiry, and
    accepts only payloads that carry the `isRefreshToken` marker. */
module JwtRefreshStrategy {
  import opened Wrappers
  import opened TokenCodec
  import opened AuthConfig
  import Auth

  datatype Body = Body(refreshToken: Option<string>)

  /** The request as the extractor sees it; any part may be missing. */
  datatype IncomingRequest = IncomingRequest(headers: Option<map<string, string>>, body: Option<Body>)

  /** `request?.headers?.['x-refresh-token']`. */
  function HeaderToken(request: Option<IncomingRequest>): Option<string> {
    if request.Some? && request.value.headers.Some? && "x-refresh-token" in request.value.headers.value
    then Some(request.value.headers.value["x-refresh-token"])
    else None
  }

  /** `request?.body?.refreshToken`. */
  function BodyToken(request: Option<IncomingRequest>): Option<string> {
    if request.Some? && request.value.body.Some? then request.value.body.value.refreshToken else None
  }

  /** The extractor: the header when it is truthy, otherwise the body's field as it is;
      a missing request, header map or body gives `undefined`, never an error. */
  function ExtractRefreshToken(request: Option<IncomingRequest>): (r: Option<string>)
    ensures Truthy(HeaderToken(request)) ==> r == HeaderToken(request)
    ensures !Truthy(HeaderToken(request)) ==> r == BodyToken(request)
    ensures request.None? ==> r.None?
    ensures r.Some? ==> r == HeaderToken(request) || r == BodyToken(request)
  {
    var header := HeaderToken(request);
    if Truthy(header) then header else BodyToken(request)
  }

  /** `secretOrKey`: `JWT_REFRESH_SECRET`, else `JWT_SECRET + '_refresh'`. */
  function SecretOrKey(env: Env): string {
    OrElse(env.jwtRefreshSecret, env.jwtSecret + "_refresh")
  }

  /** The strategy verifies with the very secret `AuthService` signs refresh tokens with. */
  lemma SecretMatchesIssuer(env: Env)
    ensures SecretOrKey(env) == FromEnv(env).jwtRefreshSecret
    ensures !Truthy(env.jwtRefreshSecret) ==> SecretOrKey(env) == env.jwtSecret + "_refresh"
  {
  }

  /** The user object `validate` returns. */
  datatype RefreshUser = RefreshUser(id: string, email: string, role: string)

  /** `validate(payload)`: `null` without the marker, otherwise `{id: sub, email, role}`. */
  function Validate(payload: Payload): (r: Option<RefreshUser>)
    ensures r.Some? <==> payload.isRefreshToken
    ensures r.Some? ==> r.value == RefreshUser(payload.claims.sub, payload.claims.email, payload.claims.role)
  {
    if !payload.isRefreshToken then None
    else Some(RefreshUser(payload.claims.sub, payload.claims.email, payload.claims.role))
  }

  /** The whole strategy at time `now`: no (truthy) token fails, a token that does not
      verify under `secretOrKey` fails (expired ones included, as `ignoreExpiration` is
      false), and otherwise `validate` decides. */
  function Authenticate(env: Env, request: Option<IncomingRequest>, now: nat): Option<RefreshUser> {
    var token := ExtractRefreshToken(request);
    if !Truthy(token) then None
    else match Verify(token.value, SecretOrKey(env), now)
      case Verified(payload) => Validate(payload)
      case _ => None
  }

  /** The strategy accepts a request exactly when `refreshTokens` would accept the token
      string the strategy extracts, and the user it yields is the identity `refreshTokens`
      re-issues tokens for. (The endpoint itself passes only the body's token, so a
      request carrying the token only in the header is not covered.) */
  lemma AgreesWithRefreshTokens(env: Env, request: Option<IncomingRequest>, now: nat)
    ensures var token := ExtractRefreshToken(request);
      var user := Authenticate(env, request, now);
      && (user.Some? <==> Truthy(token) && Auth.RefreshTokens(FromEnv(env), token.value, now).Success?)
      && (user.Some? ==>
            Auth.RefreshTokens(FromEnv(env), token.value, now) ==
              Success(Auth.GenerateTokens(FromEnv(env), Claims(user.value.id, user.value.email, user.value.role), now)))
  {
    var token := ExtractRefreshToken(request);
    if Truthy(token) {
      Auth.RefreshTokensOutcomes(FromEnv(env), token.value, now);
    }
  }

  /** A refresh token issued by `AuthService` and sent in the header is accepted until
      it expires, yielding the user it was issued for; an expired one is refused. */
  lemma AcceptsIssuedRefreshToken(env: Env, claims: Claims, issued: nat, now: nat, body: Option<Body>)
    ensures var token := Auth.GenerateTokens(FromEnv(env), claims, issued).refreshToken;
      var request := Some(IncomingRequest(Some(map["x-refresh-token" := token]), body));
      Authenticate(env, request, now) ==
        if now < issued + Auth.Lifetime(FromEnv(env).refreshTokenExpiration)
        then Some(RefreshUser(claims.sub, claims.email, claims.role))
        else None
  {
    var config := FromEnv(env);
    var pair := Auth.GenerateTokens(config, claims, issued);
    Auth.GenerateTokensVerify(config, claims, issued, now);
    assert pair.refreshToken != "" by {
      assert |Fields(Token(Payload(claims, true), config.jwtRefreshSecret, issued + Auth.Lifetime(config.refreshTokenExpiration)))| == 6;
    }
  }
}
