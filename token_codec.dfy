/** The JSON Web Token codec the authentication code calls through `JwtService.sign`
    and `JwtService.verify`, modelled symbolically: a token is the text encoding of
    its payload, its expiry (`exp`, in seconds) and the secret it was signed with,
    the secret standing in for the HMAC signature. Verification distinguishes the two
    failures the callers branch on: `TokenExpiredError` (a genuine token whose `exp`
    has been reached) and every other failure (malformed text, wrong secret). */
module TokenCodec {
  import opened Wrappers
  import opened Strings

  /** The identity claims a token carries: `sub`, `email`, `role`. */
  datatype Claims = Claims(sub: string, email: string, role: string)

  /** The decoded payload: the claims and the `isRefreshToken` marker claim
      (an absent marker reads as false). */
  datatype Payload = Payload(claims: Claims, isRefreshToken: bool)

  /** A signed token before encoding. */
  datatype Token = Token(payload: Payload, secret: string, exp: nat)

  /** Outcome of `verify`: the payload, a `TokenExpiredError`, or any other error. */
  datatype Verdict = Verified(payload: Payload) | Expired | Invalid

  // ---------------------------------------------------------------------------
  // Text encoding. Real tokens are base64url segments joined by '.', so they never
  // contain a space or a stray '.'; the escaping below keeps that shape.

  function EscapeChar(c: char): string {
    if c == '%' then "%p" else if c == ' ' then "%s" else if c == '.' then "%d" else [c]
  }

  function Escape(s: string): (r: string)
    ensures ' ' !in r && '.' !in r
    decreases |s|
  {
    if s == [] then [] else EscapeChar(s[0]) + Escape(s[1..])
  }

  function UnescapeCode(c: char): Option<char> {
    if c == 'p' then Some('%') else if c == 's' then Some(' ') else if c == 'd' then Some('.') else None
  }

  function Unescape(s: string): Option<string>
    decreases |s|
  {
    if s == [] then Some([])
    else if s[0] == '%' then
      if |s| < 2 then None
      else match (UnescapeCode(s[1]), Unescape(s[2..]))
        case (Some(c), Some(r)) => Some([c] + r)
        case _ => None
    else match Unescape(s[1..])
      case Some(r) => Some([s[0]] + r)
      case None => None
  }

  lemma {:induction false} UnescapeEscape(s: string)
    ensures Unescape(Escape(s)) == Some(s)
    decreases |s|
  {
    if s != [] {
      UnescapeEscape(s[1..]);
      var e := Escape(s);
      var head := EscapeChar(s[0]);
      assert e == head + Escape(s[1..]);
      if s[0] == '%' || s[0] == ' ' || s[0] == '.' {
        assert e[0] == '%' && e[2..] == Escape(s[1..]);
      } else {
        assert e[0] == s[0] && e[1..] == Escape(s[1..]);
      }
      assert s == [s[0]] + s[1..];
    }
  }

  function FlagField(b: bool): string {
    if b then "1" else "0"
  }

  function Fields(t: Token): (f: seq<string>)
    ensures |f| == 6
    ensures forall i :: 0 <= i < 6 ==> '.' !in f[i] && ' ' !in f[i]
  {
    var exp := NatToDigits(t.exp);
    assert forall i :: 0 <= i < |exp| ==> IsDigit(exp[i]);
    [Escape(t.payload.claims.sub), Escape(t.payload.claims.email), Escape(t.payload.claims.role),
     FlagField(t.payload.isRefreshToken), exp, Escape(t.secret)]
  }

  /** The token's text form: six '.'-separated fields, never containing a space. */
  function Encode(t: Token): (text: string)
    ensures ' ' !in text
  {
    JoinAvoids(Fields(t), '.', ' ');
    Join(Fields(t), '.')
  }

  /** Reads a token back from text; `None` for anything malformed. */
  function Decode(text: string): Option<Token> {
    var f := Split(text, '.');
    if |f| != 6 || !(f[3] == "1" || f[3] == "0") || f[4] == [] || !AllDigits(f[4]) then None
    else match (Unescape(f[0]), Unescape(f[1]), Unescape(f[2]), Unescape(f[5]))
      case (Some(sub), Some(email), Some(role), Some(secret)) =>
        Some(Token(Payload(Claims(sub, email, role), f[3] == "1"), secret, DigitsValue(f[4])))
      case _ => None
  }

  lemma DecodeEncode(t: Token)
    ensures Decode(Encode(t)) == Some(t)
  {
    var f := Fields(t);
    SplitJoin(f, '.');
    UnescapeEscape(t.payload.claims.sub);
    UnescapeEscape(t.payload.claims.email);
    UnescapeEscape(t.payload.claims.role);
    UnescapeEscape(t.secret);
    DigitsRoundTrip(t.exp);
  }

  // ---------------------------------------------------------------------------
  // sign / verify

  /** `jwtService.sign(payload, { secret, expiresIn })` at time `now` (seconds):
      `exp` is `now + lifetime`. */
  function Sign(payload: Payload, secret: string, lifetime: nat, now: nat): string {
    Encode(Token(payload, secret, now + lifetime))
  }

  /** `jwtService.verify(text, { secret })` at time `now` (seconds): the signature is
      checked first, then expiry (`now >= exp` is a `TokenExpiredError`). */
  function Verify(text: string, secret: string, now: nat): Verdict {
    match Decode(text)
    case None => Invalid
    case Some(t) =>
      if t.secret != secret then Invalid
      else if now >= t.exp then Expired
      else Verified(t.payload)
  }

  /** A token verifies to its own payload under its own secret until it expires. */
  lemma VerifySignedBeforeExpiry(payload: Payload, secret: string, lifetime: nat, issued: nat, now: nat)
    requires now < issued + lifetime
    ensures Verify(Sign(payload, secret, lifetime, issued), secret, now) == Verified(payload)
  {
    DecodeEncode(Token(payload, secret, issued + lifetime));
  }

  /** Once its lifetime has elapsed, a genuine token fails with expiry, never as invalid. */
  lemma VerifySignedAfterExpiry(payload: Payload, secret: string, lifetime: nat, issued: nat, now: nat)
    requires now >= issued + lifetime
    ensures Verify(Sign(payload, secret, lifetime, issued), secret, now) == Expired
  {
    DecodeEncode(Token(payload, secret, issued + lifetime));
  }

  /** Under any other secret a token is invalid, whether or not it has expired. */
  lemma VerifyOtherSecret(payload: Payload, secret: string, other: string, lifetime: nat, issued: nat, now: nat)
    requires other != secret
    ensures Verify(Sign(payload, secret, lifetime, issued), other, now) == Invalid
  {
    DecodeEncode(Token(payload, secret, issued + lifetime));
  }

  /** Whatever verifies, or expires, under `secret` decodes to a token carrying that
      secret. The codec is symbolic, so this is not unforgeability: the secret is a
      readable field of every token. */
  lemma VerifyNeedsSecret(text: string, secret: string, now: nat)
    requires Verify(text, secret, now) != Invalid
    ensures Decode(text).Some? && Decode(text).value.secret == secret
    ensures Verify(text, secret, now) == Expired <==> now >= Decode(text).value.exp
  {
  }
}
