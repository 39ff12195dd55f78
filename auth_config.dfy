/** The environment the authentication components read through `ConfigService`
    and the settings they derive from it. `AuthService`, `TokenRefreshMiddleware`,
    `JwtRefreshStrategy` and `TokenCookiesHelper` each repeat the same derivation;
    here it is written once. */
module AuthConfig {
  import opened Wrappers

  /** `JWT_SECRET`, `JWT_REFRESH_SECRET`, `JWT_EXPIRATION`, `JWT_REFRESH_EXPIRATION`,
      `NODE_ENV`; unset variables are `None`. */
  datatype Env = Env(
    jwtSecret: string,
    jwtRefreshSecret: Option<string>,
    jwtExpiration: Option<string>,
    jwtRefreshExpiration: Option<string>,
    nodeEnv: Option<string>)

  datatype Config = Config(
    jwtSecret: string,
    jwtRefreshSecret: string,
    accessTokenExpiration: string,
    refreshTokenExpiration: string)

  const RefreshSecretSuffix := "_refresh"
  const DefaultAccessExpiration := "15m"
  const DefaultRefreshExpiration := "7d"

  /** The secret refresh tokens are signed and verified with. */
  function RefreshSecret(env: Env): string {
    OrElse(env.jwtRefreshSecret, env.jwtSecret + RefreshSecretSuffix)
  }

  function FromEnv(env: Env): Config {
    Config(
      env.jwtSecret,
      RefreshSecret(env),
      OrElse(env.jwtExpiration, DefaultAccessExpiration),
      OrElse(env.jwtRefreshExpiration, DefaultRefreshExpiration))
  }

  /** Without a usable `JWT_REFRESH_SECRET` the refresh secret is `JWT_SECRET + "_refresh"`,
      which is never the access secret itself. */
  lemma DerivedRefreshSecret(env: Env)
    requires !Truthy(env.jwtRefreshSecret)
    ensures FromEnv(env).jwtRefreshSecret == env.jwtSecret + "_refresh"
    ensures FromEnv(env).jwtRefreshSecret != FromEnv(env).jwtSecret
  {
    assert |env.jwtSecret + "_refresh"| == |env.jwtSecret| + 8;
  }

  /** Configured values are used verbatim; unset or empty ones fall back to the
      defaults: access tokens live `"15m"`, refresh tokens `"7d"`. */
  lemma ConfigDefaults(env: Env)
    ensures Truthy(env.jwtRefreshSecret) ==> FromEnv(env).jwtRefreshSecret == env.jwtRefreshSecret.value
    ensures FromEnv(env).accessTokenExpiration ==
      if Truthy(env.jwtExpiration) then env.jwtExpiration.value else "15m"
    ensures FromEnv(env).refreshTokenExpiration ==
      if Truthy(env.jwtRefreshExpiration) then env.jwtRefreshExpiration.value else "7d"
  {
  }
}
