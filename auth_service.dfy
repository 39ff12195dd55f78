/** `AuthService`: issuing the access/refresh token pair, the refresh endpoint's
    error mapping, credential validation, login, registration and password reset.
    The user table behind `UsersService` is a `UserStore` object; password hashes,
    the bcrypt comparison, the random reset token and the clock are parameters. */
module Auth {
  import opened Wrappers
  import opened TokenCodec
  import opened AuthConfig
  import opened TokenCookies

  // ---------------------------------------------------------------------------
  // Token issuing

  /** Seconds a token signed with `expiresIn: expiration` stays valid. `jsonwebtoken`
      reads `expiresIn` with its own duration parser, which agrees with
      `parseExpiration` on the `<digits><s|m|h|d>` spellings (the defaults among them);
      other spellings are read here as `parseExpiration` reads them. */
  function Lifetime(expiration: string): nat {
    ParseExpiration(expiration) / 1000
  }

  datatype TokenPair = TokenPair(accessToken: string, refreshToken: string)

  /** `generateTokens`: the access token carries `{sub, email, role}` signed with the
      access secret and lifetime; the refresh token carries the same claims plus
      `isRefreshToken: true`, signed with the refresh secret and lifetime. */
  function GenerateTokens(config: Config, claims: Claims, now: nat): TokenPair {
    TokenPair(
      Sign(Payload(claims, false), config.jwtSecret, Lifetime(config.accessTokenExpiration), now),
      Sign(Payload(claims, true), config.jwtRefreshSecret, Lifetime(config.refreshTokenExpiration), now))
  }

  /** What an issued pair is worth: each token verifies under its own secret to the
      claims it was issued for (only the refresh token marked as such) until its own
      lifetime has elapsed, then fails as expired; when the two secrets differ
      neither token verifies under the other's secret. */
  lemma GenerateTokensVerify(config: Config, claims: Claims, issued: nat, now: nat)
    ensures var pair := GenerateTokens(config, claims, issued);
      && Verify(pair.accessToken, config.jwtSecret, now) ==
           (if now < issued + Lifetime(config.accessTokenExpiration) then Verified(Payload(claims, false)) else Expired)
      && Verify(pair.refreshToken, config.jwtRefreshSecret, now) ==
           (if now < issued + Lifetime(config.refreshTokenExpiration) then Verified(Payload(claims, true)) else Expired)
      && (config.jwtSecret != config.jwtRefreshSecret ==>
            Verify(pair.accessToken, config.jwtRefreshSecret, now) == Invalid
            && Verify(pair.refreshToken, config.jwtSecret, now) == Invalid)
  {
    var access := Payload(claims, false);
    var refresh := Payload(claims, true);
    var la, lr := Lifetime(config.accessTokenExpiration), Lifetime(config.refreshTokenExpiration);
    if now < issued + la {
      VerifySignedBeforeExpiry(access, config.jwtSecret, la, issued, now);
    } else {
      VerifySignedAfterExpiry(access, config.jwtSecret, la, issued, now);
    }
    if now < issued + lr {
      VerifySignedBeforeExpiry(refresh, config.jwtRefreshSecret, lr, issued, now);
    } else {
      VerifySignedAfterExpiry(refresh, config.jwtRefreshSecret, lr, issued, now);
    }
    if config.jwtSecret != config.jwtRefreshSecret {
      VerifyOtherSecret(access, config.jwtSecret, config.jwtRefreshSecret, la, issued, now);
      VerifyOtherSecret(refresh, config.jwtRefreshSecret, config.jwtSecret, lr, issued, now);
    }
  }

  /** With the default settings an access token lives fifteen minutes and a refresh
      token seven days; for a lifetime spelled `<digits><s|m|h|d>`, the defaults
      included, each token cookie expires together with its token. */
  lemma DefaultLifetimes(env: Env)
    ensures !Truthy(env.jwtExpiration) ==>
      Lifetime(FromEnv(env).accessTokenExpiration) == 900 && MatchesDuration(FromEnv(env).accessTokenExpiration)
    ensures !Truthy(env.jwtRefreshExpiration) ==>
      Lifetime(FromEnv(env).refreshTokenExpiration) == 604800 && MatchesDuration(FromEnv(env).refreshTokenExpiration)
    ensures MatchesDuration(FromEnv(env).accessTokenExpiration) ==>
      ParseExpiration(FromEnv(env).accessTokenExpiration) == 1000 * Lifetime(FromEnv(env).accessTokenExpiration)
    ensures MatchesDuration(FromEnv(env).refreshTokenExpiration) ==>
      ParseExpiration(FromEnv(env).refreshTokenExpiration) == 1000 * Lifetime(FromEnv(env).refreshTokenExpiration)
  {
    ParseDefaults();
    ParseWholeSeconds(FromEnv(env).accessTokenExpiration);
    ParseWholeSeconds(FromEnv(env).refreshTokenExpiration);
  }

  // ---------------------------------------------------------------------------
  // The refresh endpoint

  /** The HTTP exceptions the service throws, with their messages. */
  datatype AuthError =
    | Unauthorized(message: string)
    | Conflict(message: string)
    | BadRequest(message: string)

  /** What the `try` block of `refreshTokens` can throw: the codec's two errors, or
      the service's own `UnauthorizedException`. */
  datatype Thrown = TokenExpiredError | JsonWebTokenError | Exception(error: AuthError)

  const RefreshExpiredMessage := "Refresh token expirado"
  const RefreshInvalidMessage := "Refresh token inválido"

  /** The `try` block of `refreshTokens`. */
  function RefreshAttempt(config: Config, refreshToken: string, now: nat): Result<TokenPair, Thrown> {
    match Verify(refreshToken, config.jwtRefreshSecret, now)
    case Expired => Failure(TokenExpiredError)
    case Invalid => Failure(JsonWebTokenError)
    case Verified(payload) =>
      if !payload.isRefreshToken then Failure(Exception(Unauthorized("Token inválido")))
      else Success(GenerateTokens(config, payload.claims, now))
  }

  /** `refreshTokens`: the `catch` turns an expired token into "Refresh token expirado"
      and every other failure, the missing marker included, into "Refresh token inválido". */
  function RefreshTokens(config: Config, refreshToken: string, now: nat): Result<TokenPair, AuthError> {
    match RefreshAttempt(config, refreshToken, now)
    case Success(pair) => Success(pair)
    case Failure(thrown) =>
      if thrown == TokenExpiredError then Failure(Unauthorized(RefreshExpiredMessage))
      else Failure(Unauthorized(RefreshInvalidMessage))
  }

  /** The refresh endpoint's outcomes: a new pair for the token's claims exactly when the
      token verifies under the refresh secret and carries the marker; otherwise one of
      two `Unauthorized` messages, "expirado" exactly for an expired token. */
  lemma RefreshTokensOutcomes(config: Config, refreshToken: string, now: nat)
    ensures var r := RefreshTokens(config, refreshToken, now);
      var v := Verify(refreshToken, config.jwtRefreshSecret, now);
      && (r.Success? <==> v.Verified? && v.payload.isRefreshToken)
      && (r.Success? ==> r.value == GenerateTokens(config, v.payload.claims, now))
      && (r.Failure? ==> r.error == Unauthorized(RefreshExpiredMessage) || r.error == Unauthorized(RefreshInvalidMessage))
      && (r == Failure(Unauthorized(RefreshExpiredMessage)) <==> v == Expired)
  {
  }

  /** A refresh token issued by `generateTokens` is exchanged for a new pair with the
      same claims until it expires, and is refused as expired afterwards. */
  lemma RefreshIssuedToken(config: Config, claims: Claims, issued: nat, now: nat)
    ensures var r := RefreshTokens(config, GenerateTokens(config, claims, issued).refreshToken, now);
      if now < issued + Lifetime(config.refreshTokenExpiration)
      then r == Success(GenerateTokens(config, claims, now))
      else r == Failure(Unauthorized(RefreshExpiredMessage))
  {
    GenerateTokensVerify(config, claims, issued, now);
  }

  /** An access token is never accepted by the refresh endpoint, even when both secrets
      are configured to the same value: the marker claim rejects it then. */
  lemma AccessTokenNeverRefreshes(config: Config, claims: Claims, issued: nat, now: nat)
    ensures RefreshTokens(config, GenerateTokens(config, claims, issued).accessToken, now).Failure?
    ensures config.jwtSecret != config.jwtRefreshSecret ==>
      RefreshTokens(config, GenerateTokens(config, claims, issued).accessToken, now) == Failure(Unauthorized(RefreshInvalidMessage))
  {
    var la := Lifetime(config.accessTokenExpiration);
    if config.jwtSecret != config.jwtRefreshSecret {
      VerifyOtherSecret(Payload(claims, false), config.jwtSecret, config.jwtRefreshSecret, la, issued, now);
    } else if now < issued + la {
      VerifySignedBeforeExpiry(Payload(claims, false), config.jwtSecret, la, issued, now);
    } else {
      VerifySignedAfterExpiry(Payload(claims, false), config.jwtSecret, la, issued, now);
    }
  }

  // ---------------------------------------------------------------------------
  // Users

  /** A row of the user table. Dates are milliseconds since the epoch. */
  datatype User = User(
    id: string, email: string, password: string, name: string, role: string,
    ieeeNumber: string, avatarUrl: Option<string>,
    resetPasswordToken: Option<string>, resetPasswordExpires: Option<int>)

  /** A user without the `password` field (`const { password, ...result } = user`). */
  datatype SafeUser = SafeUser(
    id: string, email: string, name: string, role: string,
    ieeeNumber: string, avatarUrl: Option<string>,
    resetPasswordToken: Option<string>, resetPasswordExpires: Option<int>)

  function WithoutPassword(u: User): SafeUser {
    SafeUser(u.id, u.email, u.name, u.role, u.ieeeNumber, u.avatarUrl, u.resetPasswordToken, u.resetPasswordExpires)
  }

  /** `findByEmail`: the user with that e-mail, if any. */
  function FindByEmail(users: seq<User>, email: string): (r: Option<User>)
    ensures r.Some? ==> r.value in users && r.value.email == email
    ensures r.None? ==> forall u :: u in users ==> u.email != email
  {
    if users == [] then None
    else if users[0].email == email then Some(users[0])
    else FindByEmail(users[1..], email)
  }

  /** `findByIeeeNumber`. */
  function FindByIeeeNumber(users: seq<User>, ieeeNumber: string): (r: Option<User>)
    ensures r.Some? ==> r.value in users && r.value.ieeeNumber == ieeeNumber
    ensures r.None? ==> forall u :: u in users ==> u.ieeeNumber != ieeeNumber
  {
    if users == [] then None
    else if users[0].ieeeNumber == ieeeNumber then Some(users[0])
    else FindByIeeeNumber(users[1..], ieeeNumber)
  }

  /** `findByResetToken`. */
  function FindByResetToken(users: seq<User>, token: string): (r: Option<User>)
    ensures r.Some? ==> r.value in users && r.value.resetPasswordToken == Some(token)
    ensures r.None? ==> forall u :: u in users ==> u.resetPasswordToken != Some(token)
  {
    if users == [] then None
    else if users[0].resetPasswordToken == Some(token) then Some(users[0])
    else FindByResetToken(users[1..], token)
  }

  /** `validateUser`: the user without its password when the e-mail is known and
      `compare(password, hash)` holds; `null` when the user is absent or the password
      is wrong, the two cases being indistinguishable to the caller. */
  function ValidateUser(users: seq<User>, email: string, password: string,
                        compare: (string, string) -> bool): (r: Option<SafeUser>)
    ensures r.Some? <==> exists u :: u in users && u.email == email && u == FindByEmail(users, email).value
                                       && compare(password, u.password)
    ensures r.Some? ==> r.value.email == email && WithoutPassword(FindByEmail(users, email).value) == r.value
  {
    match FindByEmail(users, email)
    case Some(u) => if compare(password, u.password) then Some(WithoutPassword(u)) else None
    case None => None
  }

  /** The user part of a login response. */
  datatype UserView = UserView(id: string, email: string, name: string, role: string, avatarUrl: Option<string>)

  datatype LoginResponse = LoginResponse(accessToken: string, refreshToken: string, user: UserView)

  /** `login`: a fresh pair for `{sub: id, email, role}` and the public profile. */
  function Login(config: Config, user: SafeUser, now: nat): LoginResponse {
    var tokens := GenerateTokens(config, Claims(user.id, user.email, user.role), now);
    LoginResponse(tokens.accessToken, tokens.refreshToken,
                  UserView(user.id, user.email, user.name, user.role, user.avatarUrl))
  }

  /** The access token a login returns identifies the user who logged in: it verifies
      to `{sub: id, email, role}` for its lifetime (fifteen minutes by default), and a
      refresh with the returned refresh token yields the same claims again. */
  lemma LoginIdentifiesUser(env: Env, user: SafeUser, issued: nat, now: nat)
    ensures !Truthy(env.jwtExpiration) ==> Lifetime(FromEnv(env).accessTokenExpiration) == 900
    ensures var config := FromEnv(env);
      var r := Login(config, user, issued);
      var claims := Claims(user.id, user.email, user.role);
      && r.user.id == user.id && r.user.email == user.email && r.user.role == user.role
      && Verify(r.accessToken, config.jwtSecret, now) ==
           (if now < issued + Lifetime(config.accessTokenExpiration)
            then Verified(Payload(claims, false)) else Expired)
      && (now < issued + Lifetime(config.refreshTokenExpiration) ==>
            RefreshTokens(config, r.refreshToken, now) == Success(GenerateTokens(config, claims, now)))
  {
    var config := FromEnv(env);
    DefaultLifetimes(env);
    GenerateTokensVerify(config, Claims(user.id, user.email, user.role), issued, now);
    RefreshIssuedToken(config, Claims(user.id, user.email, user.role), issued, now);
  }

  // ---------------------------------------------------------------------------
  // The user table and the operations that change it

  /** No two users share an e-mail or an IEEE membership number. */
  ghost predicate UniqueUsers(users: seq<User>) {
    forall i, j :: 0 <= i < j < |users| ==>
      users[i].email != users[j].email && users[i].ieeeNumber != users[j].ieeeNumber
  }

  /** The users behind `UsersService`. */
  class UserStore {
    var users: seq<User>

    constructor(users: seq<User>)
      ensures this.users == users
    {
      this.users := users;
    }

    method Create(u: User)
      modifies this
      ensures users == old(users) + [u]
    {
      users := users + [u];
    }

    /** Replaces every row whose `id` is `id` by `update` of it. */
    method UpdateById(id: string, update: User -> User)
      modifies this
      ensures users == UpdatedById(old(users), id, update)
    {
      users := UpdatedById(users, id, update);
    }
  }

  function UpdatedById(users: seq<User>, id: string, update: User -> User): (r: seq<User>)
    ensures |r| == |users|
    ensures forall i :: 0 <= i < |users| ==> r[i] == if users[i].id == id then update(users[i]) else users[i]
  {
    seq(|users|, i requires 0 <= i < |users| => if users[i].id == id then update(users[i]) else users[i])
  }

  /** The registration form. */
  datatype RegisterDto = RegisterDto(email: string, password: string, name: string, ieeeNumber: string)

  const EmailTakenMessage := "E-mail já cadastrado"
  const IeeeNumberTakenMessage := "Matrícula IEEE já cadastrada"

  /** The user `register` creates: the form with its password replaced by the hash;
      id and role come from the database. */
  function NewUser(dto: RegisterDto, hashedPassword: string, id: string, role: string): User {
    User(id, dto.email, hashedPassword, dto.name, role, dto.ieeeNumber, None, None, None)
  }

  /** `register`: a taken e-mail is a conflict, checked first; then a taken IEEE number;
      only when both are free is the user created (with the hashed password) and logged in.
      The table never gains a duplicate e-mail or IEEE number. */
  method Register(config: Config, store: UserStore, dto: RegisterDto, hashedPassword: string,
                  newId: string, defaultRole: string, now: nat)
    returns (r: Result<LoginResponse, AuthError>)
    requires UniqueUsers(store.users)
    modifies store
    ensures UniqueUsers(store.users)
    ensures FindByEmail(old(store.users), dto.email).Some? ==>
      r == Failure(Conflict(EmailTakenMessage)) && store.users == old(store.users)
    ensures FindByEmail(old(store.users), dto.email).None? && FindByIeeeNumber(old(store.users), dto.ieeeNumber).Some? ==>
      r == Failure(Conflict(IeeeNumberTakenMessage)) && store.users == old(store.users)
    ensures FindByEmail(old(store.users), dto.email).None? && FindByIeeeNumber(old(store.users), dto.ieeeNumber).None? ==>
      var u := NewUser(dto, hashedPassword, newId, defaultRole);
      store.users == old(store.users) + [u] && r == Success(Login(config, WithoutPassword(u), now))
  {
    if FindByEmail(store.users, dto.email).Some? {
      return Failure(Conflict(EmailTakenMessage));
    }
    if FindByIeeeNumber(store.users, dto.ieeeNumber).Some? {
      return Failure(Conflict(IeeeNumberTakenMessage));
    }
    var u := NewUser(dto, hashedPassword, newId, defaultRole);
    store.Create(u);
    r := Success(Login(config, WithoutPassword(u), now));
  }

  // ---------------------------------------------------------------------------
  // Password reset

  const ResetRequestMessage := "Se o e-mail existir, você receberá instruções para redefinir a senha"
  const ResetTokenInvalidMessage := "Token inválido ou expirado"
  const ResetDoneMessage := "Senha redefinida com sucesso"

  /** A reset token stays valid for one hour (in milliseconds). */
  const ResetWindow := 3600000

  function GrantReset(u: User, token: string, nowMs: int): User {
    u.(resetPasswordToken := Some(token), resetPasswordExpires := Some(nowMs + ResetWindow))
  }

  /** `requestPasswordReset`: for a known e-mail, stores `token` with an expiry one
      hour from `nowMs`; for an unknown one changes nothing. The answer is the same
      message either way, so the caller cannot tell whether the e-mail exists. */
  method RequestPasswordReset(store: UserStore, email: string, token: string, nowMs: int)
    returns (message: string)
    modifies store
    ensures message == ResetRequestMessage
    ensures FindByEmail(old(store.users), email).None? ==> store.users == old(store.users)
    ensures FindByEmail(old(store.users), email).Some? ==>
      store.users == UpdatedById(old(store.users), FindByEmail(old(store.users), email).value.id,
                                 u => GrantReset(u, token, nowMs))
  {
    var user := FindByEmail(store.users, email);
    if user.None? {
      return ResetRequestMessage;
    }
    store.UpdateById(user.value.id, u => GrantReset(u, token, nowMs));
    message := ResetRequestMessage;
  }

  /** The guard of `resetPassword`: a user holds the token and its expiry is present
      and not earlier than now. */
  predicate ResetAccepted(user: Option<User>, nowMs: int) {
    user.Some? && user.value.resetPasswordExpires.Some? && !(user.value.resetPasswordExpires.value < nowMs)
  }

  /** `resetPassword`: rejects an unknown token, a missing expiry and an expiry earlier
      than now; otherwise stores the new hash for that user. */
  method ResetPassword(store: UserStore, token: string, hashedPassword: string, nowMs: int)
    returns (r: Result<string, AuthError>)
    modifies store
    ensures var user := FindByResetToken(old(store.users), token);
      && (!ResetAccepted(user, nowMs) ==>
            r == Failure(BadRequest(ResetTokenInvalidMessage)) && store.users == old(store.users))
      && (ResetAccepted(user, nowMs) ==>
            r == Success(ResetDoneMessage)
            && store.users == UpdatedById(old(store.users), user.value.id, (u: User) => u.(password := hashedPassword)))
  {
    var user := FindByResetToken(store.users, token);
    if user.None? || user.value.resetPasswordExpires.None? || user.value.resetPasswordExpires.value < nowMs {
      return Failure(BadRequest(ResetTokenInvalidMessage));
    }
    store.UpdateById(user.value.id, (u: User) => u.(password := hashedPassword));
    r := Success(ResetDoneMessage);
  }

  /** A reset granted at `grantedMs` is accepted up to and including one hour later and
      refused after that; a user without an expiry is always refused. */
  lemma ResetWindowHolds(u: User, token: string, grantedMs: int, nowMs: int)
    ensures ResetAccepted(Some(GrantReset(u, token, grantedMs)), nowMs) <==> nowMs <= grantedMs + 3600000
    ensures u.resetPasswordExpires.None? ==> !ResetAccepted(Some(u), nowMs)
    ensures !ResetAccepted(None, nowMs)
  {
  }

  /** Granting a reset touches only the reset fields, so uniqueness of e-mails and IEEE
      numbers survives a reset request, and the token finds its user afterwards. */
  lemma GrantKeepsUsersUnique(users: seq<User>, id: string, token: string, nowMs: int)
    requires UniqueUsers(users)
    ensures UniqueUsers(UpdatedById(users, id, u => GrantReset(u, token, nowMs)))
    ensures (exists i :: 0 <= i < |users| && users[i].id == id) ==>
      FindByResetToken(UpdatedById(users, id, u => GrantReset(u, token, nowMs)), token).Some?
  {
    var after := UpdatedById(users, id, u => GrantReset(u, token, nowMs));
    if i :| 0 <= i < |users| && users[i].id == id {
      assert after[i].resetPasswordToken == Some(token);
      assert after[i] in after;
    }
  }
}
