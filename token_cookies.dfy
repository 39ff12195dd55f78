/** `TokenCookiesHelper`: how the token pair travels as cookies, and the parser
    that turns a lifetime such as `"15m"` into the cookie's `maxAge` in milliseconds. */
module TokenCookies {
  import opened Wrappers
  import opened Strings
  import opened Http
  import opened AuthConfig

  const AccessCookieName := "access_token"
  const RefreshCookieName := "refresh_token"

  /** The fallback lifetime, fifteen minutes in milliseconds. */
  const DefaultMaxAge: nat := 15 * 60 * 1000

  /** `expiration` matches `^(\d+)([smhd])$`. */
  predicate MatchesDuration(expiration: string) {
    |expiration| >= 2
    && AllDigits(expiration[..|expiration| - 1])
    && expiration[|expiration| - 1] in "smhd"
  }

  function UnitMillis(unit: char): nat {
    match unit
    case 's' => 1000
    case 'm' => 60 * 1000
    case 'h' => 60 * 60 * 1000
    case 'd' => 24 * 60 * 60 * 1000
    case _ => 0
  }

  /** `parseExpiration`: milliseconds for `<digits><unit>`, fifteen minutes otherwise. */
  function ParseExpiration(expiration: string): nat {
    if !MatchesDuration(expiration) then DefaultMaxAge
    else
      var value := DigitsValue(expiration[..|expiration| - 1]);
      match expiration[|expiration| - 1]
      case 's' => value * 1000
      case 'm' => value * 60 * 1000
      case 'h' => value * 60 * 60 * 1000
      case 'd' => value * 24 * 60 * 60 * 1000
      case _ => DefaultMaxAge
  }

  /** A well-formed lifetime is its number times its unit's length. */
  lemma ParseSpelledDuration(n: nat, unit: char)
    requires unit in "smhd"
    ensures MatchesDuration(NatToDigits(n) + [unit])
    ensures ParseExpiration(NatToDigits(n) + [unit]) == n * UnitMillis(unit)
  {
    var s := NatToDigits(n) + [unit];
    assert s[..|s| - 1] == NatToDigits(n);
    DigitsRoundTrip(n);
  }

  /** Anything else falls back to fifteen minutes: the empty string, a number without
      a unit, an upper-case unit, a fraction. */
  lemma ParseFallbacks()
    ensures ParseExpiration("") == 900000
    ensures ParseExpiration("15") == 900000
    ensures ParseExpiration("2H") == 900000
    ensures ParseExpiration("1.5h") == 900000
    ensures ParseExpiration("m") == 900000
  {
    assert !IsDigit("1.5h"[1]);
  }

  lemma SpellFifteenAndSeven()
    ensures NatToDigits(15) == "15" && NatToDigits(7) == "7"
  {
    assert DigitChar(1) == '1' && DigitChar(5) == '5' && DigitChar(7) == '7';
    assert NatToDigits(15) == NatToDigits(1) + [DigitChar(5)];
  }

  /** The default lifetimes: `"15m"` is 900000 ms and `"7d"` is 604800000 ms. */
  lemma ParseDefaults()
    ensures MatchesDuration(DefaultAccessExpiration) && ParseExpiration(DefaultAccessExpiration) == 900000
    ensures MatchesDuration(DefaultRefreshExpiration) && ParseExpiration(DefaultRefreshExpiration) == 604800000
  {
    SpellFifteenAndSeven();
    assert DefaultAccessExpiration == NatToDigits(15) + ['m'];
    assert DefaultRefreshExpiration == NatToDigits(7) + ['d'];
    ParseSpelledDuration(15, 'm');
    ParseSpelledDuration(7, 'd');
  }

  lemma MulStrict(n: nat, m: nat, k: nat)
    requires n < m && k > 0
    ensures n * k < m * k
  {
    assert m * k == n * k + (m - n) * k;
  }

  /** For a fixed unit the parsed lifetime grows strictly with the number. */
  lemma ParseMonotonic(n: nat, m: nat, unit: char)
    requires unit in "smhd" && n < m
    ensures ParseExpiration(NatToDigits(n) + [unit]) < ParseExpiration(NatToDigits(m) + [unit])
  {
    ParseSpelledDuration(n, unit);
    ParseSpelledDuration(m, unit);
    assert UnitMillis(unit) > 0;
    MulStrict(n, m, UnitMillis(unit));
  }

  lemma WholeSeconds(k: nat)
    ensures (k * 1000) % 1000 == 0
  {
  }

  /** Every parsed lifetime is a whole number of seconds. */
  lemma ParseWholeSeconds(expiration: string)
    ensures ParseExpiration(expiration) % 1000 == 0
  {
    if MatchesDuration(expiration) {
      var value := DigitsValue(expiration[..|expiration| - 1]);
      match expiration[|expiration| - 1]
      case 's' => WholeSeconds(value);
      case 'm' => WholeSeconds(value * 60);
      case 'h' => WholeSeconds(value * 60 * 60);
      case 'd' => WholeSeconds(value * 24 * 60 * 60);
      case _ =>
    }
  }

  /** A token cookie with the shared options (`httpOnly`, `secure` in production,
      `sameSite: 'lax'`, `path: '/'`) and the `maxAge` of the given lifetime. */
  function TokenCookie(value: string, secure: bool, expiration: string): Cookie {
    SetCookie(value, true, secure, "lax", "/", ParseExpiration(expiration))
  }

  class TokenCookiesHelper {
    const isProduction: bool
    const accessTokenExpiration: string
    const refreshTokenExpiration: string

    constructor(env: Env)
      ensures isProduction == (env.nodeEnv == Some("production"))
      ensures accessTokenExpiration == FromEnv(env).accessTokenExpiration
      ensures refreshTokenExpiration == FromEnv(env).refreshTokenExpiration
    {
      isProduction := env.nodeEnv == Some("production");
      accessTokenExpiration := FromEnv(env).accessTokenExpiration;
      refreshTokenExpiration := FromEnv(env).refreshTokenExpiration;
    }

    /** `setTokenCookies`: queues exactly the two token cookies, each living as long as
        its own configured lifetime; no header other than `Set-Cookie` changes. */
    method SetTokenCookies(res: Response, accessToken: string, refreshToken: string)
      modifies res
      ensures res.cookies == old(res.cookies)
        [AccessCookieName := TokenCookie(accessToken, isProduction, accessTokenExpiration)]
        [RefreshCookieName := TokenCookie(refreshToken, isProduction, refreshTokenExpiration)]
      ensures res.headers == old(res.headers)
    {
      res.QueueCookie(AccessCookieName, TokenCookie(accessToken, isProduction, accessTokenExpiration));
      res.QueueCookie(RefreshCookieName, TokenCookie(refreshToken, isProduction, refreshTokenExpiration));
    }

    /** `clearTokenCookies`: clears both cookie names on path `/` and nothing else; no
        header other than `Set-Cookie` changes. */
    method ClearTokenCookies(res: Response)
      modifies res
      ensures res.cookies == old(res.cookies)[AccessCookieName := ClearCookie("/")][RefreshCookieName := ClearCookie("/")]
      ensures res.headers == old(res.headers)
    {
      res.QueueCookie(AccessCookieName, ClearCookie("/"));
      res.QueueCookie(RefreshCookieName, ClearCookie("/"));
    }
  }

  /** What `setTokenCookies` queues, for a helper built from `env`: exactly the two
      token cookies, both `httpOnly`, `sameSite=lax`, on path `/`, `secure` exactly in
      production, and each living as long as its own lifetime setting says (fifteen
      minutes and seven days by default). */
  lemma SetTokenCookiesAttributes(env: Env, accessToken: string, refreshToken: string, before: map<string, Cookie>)
    ensures
      var secure := env.nodeEnv == Some("production");
      var after := before[AccessCookieName := TokenCookie(accessToken, secure, FromEnv(env).accessTokenExpiration)]
                         [RefreshCookieName := TokenCookie(refreshToken, secure, FromEnv(env).refreshTokenExpiration)];
      && after.Keys == before.Keys + {"access_token", "refresh_token"}
      && (forall name :: name in after && name != "access_token" && name != "refresh_token" ==> after[name] == before[name])
      && (forall name :: name in {"access_token", "refresh_token"} ==>
            after[name].SetCookie? && after[name].httpOnly && after[name].sameSite == "lax"
            && after[name].path == "/" && (after[name].secure <==> env.nodeEnv == Some("production")))
      && after["access_token"].value == accessToken
      && after["refresh_token"].value == refreshToken
      && after["access_token"].maxAge == ParseExpiration(FromEnv(env).accessTokenExpiration)
      && after["refresh_token"].maxAge == ParseExpiration(FromEnv(env).refreshTokenExpiration)
      && (!Truthy(env.jwtExpiration) ==> after["access_token"].maxAge == 900000)
      && (!Truthy(env.jwtRefreshExpiration) ==> after["refresh_token"].maxAge == 604800000)
  {
    ParseDefaults();
  }
}
