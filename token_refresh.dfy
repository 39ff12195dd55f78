/** `TokenRefreshMiddleware`: runs before every route and silently renews an expired
    access token. A request whose `Authorization: Bearer` token has expired, and that
    carries a genuine refresh token in `x-refresh-token`, gets a new pair: the request's
    own `Authorization` header is rewritten to the new access token and the response
    announces both tokens in `x-new-access-token` and `x-new-refresh-token`. Every
    other request goes on unchanged. In every case `next()` is called exactly once. */
module TokenRefresh {
  import opened Wrappers
  import opened Strings
  import opened TokenCodec
  import opened AuthConfig
  import opened Http
  import Auth

  const AuthorizationHeader := "authorization"
  const RefreshTokenHeader := "x-refresh-token"
  const NewAccessTokenHeader := "x-new-access-token"
  const NewRefreshTokenHeader := "x-new-refresh-token"
  const BearerPrefix := "Bearer "

  /** A header's value, with a missing header read as the (equally falsy) empty string. */
  function Header(headers: map<string, string>, name: string): string {
    if name in headers then headers[name] else ""
  }

  lemma BearerSplits(header: string)
    requires StartsWith(header, BearerPrefix)
    ensures |Split(header, ' ')| >= 2
    ensures Split(header, ' ')[1] == Split(header[7..], ' ')[0]
  {
    assert header == header[..6] + header[6..];
    assert ' ' !in header[..6] by { assert header[..6] == "Bearer"; }
    SplitPrefix(header[..6], header[6..], ' ');
    assert header[6..][0] == ' ' && header[6..][1..] == header[7..];
  }

  /** `authHeader.split(' ')[1]`: the text after "Bearer " up to the next space. */
  function BearerToken(header: string): string
    requires StartsWith(header, BearerPrefix)
  {
    BearerSplits(header);
    Split(header, ' ')[1]
  }

  /** A token, which never contains a space, is read back whole from its header. */
  lemma BearerTokenOf(token: string)
    requires ' ' !in token
    ensures StartsWith(BearerPrefix + token, BearerPrefix)
    ensures BearerToken(BearerPrefix + token) == token
  {
    var header := BearerPrefix + token;
    assert header[7..] == token;
    BearerSplits(header);
    SplitJoin([token], ' ');
  }

  /** Which way a request goes through the middleware. */
  datatype Outcome =
    | NoBearer          // no `Authorization` header, or not a bearer one
    | AccessValid       // the access token verifies
    | AccessRejected    // the access token fails for a reason other than expiry
    | NoRefreshToken    // expired access token, no `x-refresh-token`
    | RefreshRejected   // the refresh token fails to verify or lacks the marker
    | Refreshed(pair: Auth.TokenPair)

  /** The decision `use` takes for a request with these headers at time `now`. */
  function Decide(config: Config, headers: map<string, string>, now: nat): Outcome {
    var authHeader := Header(headers, AuthorizationHeader);
    var refreshToken := Header(headers, RefreshTokenHeader);
    if authHeader == "" || !StartsWith(authHeader, BearerPrefix) then NoBearer
    else match Verify(BearerToken(authHeader), config.jwtSecret, now)
      case Verified(_) => AccessValid
      case Invalid => AccessRejected
      case Expired =>
        if refreshToken == "" then NoRefreshToken
        else match Verify(refreshToken, config.jwtRefreshSecret, now)
          case Verified(payload) =>
            if !payload.isRefreshToken then RefreshRejected
            else Refreshed(Auth.GenerateTokens(config, payload.claims, now))
          case _ => RefreshRejected
  }

  /** The request headers downstream handlers see. */
  function ForwardedHeaders(headers: map<string, string>, outcome: Outcome): map<string, string> {
    if outcome.Refreshed? then headers[AuthorizationHeader := BearerPrefix + outcome.pair.accessToken]
    else headers
  }

  /** The response headers after the middleware. */
  function AnnouncedHeaders(headers: map<string, string>, outcome: Outcome): map<string, string> {
    if outcome.Refreshed? then
      headers[NewAccessTokenHeader := outcome.pair.accessToken][NewRefreshTokenHeader := outcome.pair.refreshToken]
    else headers
  }

  class TokenRefreshMiddleware {
    const config: Config

    constructor(env: Env)
      ensures config == FromEnv(env)
    {
      config := FromEnv(env);
    }

    /** The private `generateTokens`: the new access token carries exactly the claims,
        signed with the access secret and lifetime; the new refresh token carries the
        same claims and the marker, signed with the refresh secret and lifetime. */
    function GenerateTokens(claims: Claims, now: nat): (pair: Auth.TokenPair)
      ensures Decode(pair.accessToken) ==
        Some(Token(Payload(claims, false), config.jwtSecret, now + Auth.Lifetime(config.accessTokenExpiration)))
      ensures Decode(pair.refreshToken) ==
        Some(Token(Payload(claims, true), config.jwtRefreshSecret, now + Auth.Lifetime(config.refreshTokenExpiration)))
    {
      DecodeEncode(Token(Payload(claims, false), config.jwtSecret, now + Auth.Lifetime(config.accessTokenExpiration)));
      DecodeEncode(Token(Payload(claims, true), config.jwtRefreshSecret, now + Auth.Lifetime(config.refreshTokenExpiration)));
      Auth.GenerateTokens(config, claims, now)
    }

    /** `use(req, res, next)` at time `now` (seconds). */
    method Use(req: Request, res: Response, next: NextFunction, now: nat)
      modifies req, res, next
      ensures var outcome := Decide(config, old(req.headers), now);
        && req.headers == ForwardedHeaders(old(req.headers), outcome)
        && res.headers == AnnouncedHeaders(old(res.headers), outcome)
        && res.cookies == old(res.cookies)
      ensures next.seen == old(next.seen) + [req.headers]
    {
      var authHeader := Header(req.headers, AuthorizationHeader);
      var refreshToken := Header(req.headers, RefreshTokenHeader);

      if authHeader == "" || !StartsWith(authHeader, BearerPrefix) {
        next.Call(req);
        return;
      }
      var accessToken := BearerToken(authHeader);

      var accessResult := Verify(accessToken, config.jwtSecret, now);
      if accessResult.Verified? {
        next.Call(req);
        return;
      }
      if accessResult != Expired {
        next.Call(req);
        return;
      }
      if refreshToken == "" {
        next.Call(req);
        return;
      }

      var refreshResult := Verify(refreshToken, config.jwtRefreshSecret, now);
      if !refreshResult.Verified? {
        // the `catch (refreshTokenError)` branch
        next.Call(req);
        return;
      }
      if !refreshResult.payload.isRefreshToken {
        next.Call(req);
        return;
      }

      var newTokens := GenerateTokens(refreshResult.payload.claims, now);
      res.SetHeader(NewAccessTokenHeader, newTokens.accessToken);
      res.SetHeader(NewRefreshTokenHeader, newTokens.refreshToken);
      req.headers := req.headers[AuthorizationHeader := BearerPrefix + newTokens.accessToken];
      next.Call(req);
    }
  }

  // ---------------------------------------------------------------------------
  // Properties of the decision

  /** A refresh happens exactly when the bearer access token has expired (not merely
      failed) and the `x-refresh-token` header holds a token that verifies under the
      refresh secret and carries the marker; the new pair is minted for that token's
      claims. */
  lemma RefreshExactlyWhenExpiredAndGenuine(config: Config, headers: map<string, string>, now: nat)
    ensures var authHeader := Header(headers, AuthorizationHeader);
      var refreshToken := Header(headers, RefreshTokenHeader);
      var outcome := Decide(config, headers, now);
      && (outcome.Refreshed? <==>
            && StartsWith(authHeader, BearerPrefix)
            && Verify(BearerToken(authHeader), config.jwtSecret, now) == Expired
            && refreshToken != ""
            && Verify(refreshToken, config.jwtRefreshSecret, now).Verified?
            && Verify(refreshToken, config.jwtRefreshSecret, now).payload.isRefreshToken)
      && (outcome.Refreshed? ==>
            outcome.pair == Auth.GenerateTokens(config, Verify(refreshToken, config.jwtRefreshSecret, now).payload.claims, now))
  {
  }

  /** A forged or malformed access token (any failure but expiry) never triggers a
      refresh, whatever refresh token accompanies it. */
  lemma InvalidAccessNeverRefreshes(config: Config, headers: map<string, string>, refreshToken: string, now: nat)
    requires StartsWith(Header(headers, AuthorizationHeader), BearerPrefix)
    requires Verify(BearerToken(Header(headers, AuthorizationHeader)), config.jwtSecret, now) == Invalid
    ensures Decide(config, headers, now) == AccessRejected
    ensures Decide(config, headers[RefreshTokenHeader := refreshToken], now) == AccessRejected
  {
    assert Header(headers[RefreshTokenHeader := refreshToken], AuthorizationHeader) == Header(headers, AuthorizationHeader);
  }

  /** The headers of a client holding the pair `pair`. */
  function PairHeaders(pair: Auth.TokenPair): map<string, string> {
    map[AuthorizationHeader := BearerPrefix + pair.accessToken, RefreshTokenHeader := pair.refreshToken]
  }

  /** A client presenting a pair issued at `issued`: while the access token lives the
      request passes untouched; once it has expired but the refresh token still lives,
      the middleware mints a new pair for the same claims, and the request's rewritten
      `Authorization` header then carries an access token that verifies to those claims
      (when access tokens live at least one second). Once both have expired nothing is
      refreshed. */
  lemma ClientWithIssuedPair(config: Config, claims: Claims, issued: nat, now: nat)
    ensures var pair := Auth.GenerateTokens(config, claims, issued);
      var accessEnd := issued + Auth.Lifetime(config.accessTokenExpiration);
      var refreshEnd := issued + Auth.Lifetime(config.refreshTokenExpiration);
      var outcome := Decide(config, PairHeaders(pair), now);
      && (now < accessEnd ==> outcome == AccessValid)
      && (accessEnd <= now < refreshEnd ==> outcome == Refreshed(Auth.GenerateTokens(config, claims, now)))
      && (accessEnd <= now && refreshEnd <= now ==> outcome == RefreshRejected)
      && (outcome.Refreshed? && Auth.Lifetime(config.accessTokenExpiration) > 0 ==>
            var forwarded := ForwardedHeaders(PairHeaders(pair), outcome);
            Verify(BearerToken(forwarded[AuthorizationHeader]), config.jwtSecret, now) == Verified(Payload(claims, false)))
  {
    var pair := Auth.GenerateTokens(config, claims, issued);
    Auth.GenerateTokensVerify(config, claims, issued, now);
    BearerTokenOf(pair.accessToken);
    var headers := PairHeaders(pair);
    assert Header(headers, AuthorizationHeader) == BearerPrefix + pair.accessToken;
    assert Header(headers, RefreshTokenHeader) == pair.refreshToken;
    assert pair.refreshToken != "" by { assert |Fields(Token(Payload(claims, true), config.jwtRefreshSecret, issued + Auth.Lifetime(config.refreshTokenExpiration)))| == 6; }
    var outcome := Decide(config, headers, now);
    if outcome.Refreshed? && Auth.Lifetime(config.accessTokenExpiration) > 0 {
      var renewed := outcome.pair;
      Auth.GenerateTokensVerify(config, claims, now, now);
      BearerTokenOf(renewed.accessToken);
    }
  }

  /** An access token presented as the refresh token is never accepted, not even when
      both secrets are configured to the same value. */
  lemma AccessTokenIsNoRefreshToken(config: Config, headers: map<string, string>, claims: Claims, issued: nat, now: nat)
    ensures !Decide(config, headers[RefreshTokenHeader := Auth.GenerateTokens(config, claims, issued).accessToken], now).Refreshed?
  {
    var h := headers[RefreshTokenHeader := Auth.GenerateTokens(config, claims, issued).accessToken];
    assert Header(h, RefreshTokenHeader) == Auth.GenerateTokens(config, claims, issued).accessToken;
    Auth.AccessTokenNeverRefreshes(config, claims, issued, now);
  }

  /** The middleware and the `/auth/refresh` endpoint agree: for a request whose access
      token has expired, the middleware refreshes with exactly the pair the endpoint
      would return for the same refresh token, and declines exactly when the endpoint
      answers `Unauthorized`. */
  lemma AgreesWithRefreshEndpoint(config: Config, headers: map<string, string>, now: nat)
    requires StartsWith(Header(headers, AuthorizationHeader), BearerPrefix)
    requires Verify(BearerToken(Header(headers, AuthorizationHeader)), config.jwtSecret, now) == Expired
    requires Header(headers, RefreshTokenHeader) != ""
    ensures var endpoint := Auth.RefreshTokens(config, Header(headers, RefreshTokenHeader), now);
      && (Decide(config, headers, now).Refreshed? <==> endpoint.Success?)
      && (endpoint.Success? ==> Decide(config, headers, now) == Refreshed(endpoint.value))
  {
    Auth.RefreshTokensOutcomes(config, Header(headers, RefreshTokenHeader), now);
  }

  /** Every request is handed on exactly once and nothing else about it changes except,
      on a refresh, its `Authorization` header; the response changes only by the two
      announcement headers. */
  lemma OnlyAuthorizationRewritten(config: Config, headers: map<string, string>, response: map<string, string>, now: nat)
    ensures var outcome := Decide(config, headers, now);
      && ForwardedHeaders(headers, outcome).Keys == headers.Keys + (if outcome.Refreshed? then {AuthorizationHeader} else {})
      && (forall name :: name in headers && name != AuthorizationHeader ==> ForwardedHeaders(headers, outcome)[name] == headers[name])
      && (!outcome.Refreshed? ==> ForwardedHeaders(headers, outcome) == headers && AnnouncedHeaders(response, outcome) == response)
      && (forall name :: name in response && name != NewAccessTokenHeader && name != NewRefreshTokenHeader ==>
            AnnouncedHeaders(response, outcome)[name] == response[name])
  {
  }
}
