/**
 * Bearer tokens: how login mints one (`generateToken`) and how the
 * authentication plugin accepts one (the HMAC256 verifier with the configured
 * audience and issuer, then the `validate` callback).
 */
module Jwt {
  import opened Wrappers
  import opened KotlinInt

  /** The `ktor.security.jwt` configuration; `lifetimeMinutes` is the raw property text, if present. */
  datatype JwtConfig = JwtConfig(secret: string, audience: string, issuer: string, lifetimeMinutes: Option<string>)

  /**
   * The payload of a token; `expiresAt` is the `exp` NumericDate, the expiry
   * in epoch milliseconds divided by 1000 as a Java `long` division.
   */
  datatype Claims = Claims(audience: seq<string>, issuer: string, userId: int, expiresAt: int)

  datatype Token = Token(claims: Claims, signature: string)

  /** HMAC-SHA256 of the encoded claims under a secret; an uninterpreted function. */
  type Signer = (Claims, string) -> string

  const DEFAULT_LIFETIME_MINUTES: Int32 := 60

  /** The configured lifetime, or 60 when the property is missing or is not an Int. */
  function LifetimeMinutes(property: Option<string>): (r: Int32)
    ensures r == DEFAULT_LIFETIME_MINUTES || (property.Some? && ParseInt(property.value) == Some(r))
    ensures property.Some? && ParseInt(property.value).Some? ==> r == ParseInt(property.value).value
  {
    match property
    case None => DEFAULT_LIFETIME_MINUTES
    case Some(text) => ParseInt(text).GetOr(DEFAULT_LIFETIME_MINUTES)
  }

  /** A lifetime written as a decimal Int is the lifetime used; anything unreadable means 60. */
  lemma LifetimeFromProperty(property: Option<string>, n: Int32)
    ensures property == Some(ShowInt(n)) ==> LifetimeMinutes(property) == n
    ensures property.None? || ParseInt(property.value).None? ==> LifetimeMinutes(property) == 60
  {
    ParseShowInt(n);
  }

  /**
   * `System.currentTimeMillis() + lifetime * 60 * 1000`: the two products are
   * taken in Int, which amounts to the whole product wrapped to an Int.
   */
  function ExpiryMillis(nowMillis: int, lifetime: Int32): (r: int)
    ensures r == nowMillis + Wrap(lifetime as int * 60000)
  {
    var l: int, m: int := lifetime, Mul(lifetime, 60);
    var k := (l * 60 - m) / MODULUS;
    assert l * 60000 - m * 1000 == MODULUS * (k * 1000);
    WrapCongruent(l * 60000, m * 1000);
    nowMillis + Mul(m, 1000)
  }

  /** Up to 35791 minutes the expiry is exactly the lifetime later. */
  lemma ExpiryExact(nowMillis: int, lifetime: Int32)
    requires 0 <= lifetime <= 35791
    ensures ExpiryMillis(nowMillis, lifetime) == nowMillis + lifetime as int * 60000
  {
  }

  /**
   * From 35792 to 71582 minutes the Int product wraps to a negative offset:
   * the token is issued already expired.
   */
  lemma ExpiryOverflows(nowMillis: int, lifetime: Int32)
    requires 35792 <= lifetime <= 71582
    ensures ExpiryMillis(nowMillis, lifetime) == nowMillis + lifetime as int * 60000 - MODULUS
    ensures ExpiryMillis(nowMillis, lifetime) < nowMillis
  {
    var x := lifetime as int * 60000;
    WrapCongruent(x, x - MODULUS);
  }

  /**
   * The token `generateToken` signs for `userId` at time `nowMillis`: it names
   * the user, exactly the configured audience and issuer, carries the wrapped
   * expiry in seconds, and is signed with the secret.
   */
  function GenerateToken(userId: int, cfg: JwtConfig, nowMillis: int, sign: Signer): (t: Token)
    ensures t.claims.userId == userId && t.claims.audience == [cfg.audience] && t.claims.issuer == cfg.issuer
    ensures t.claims.expiresAt
         == DivTrunc(nowMillis + Wrap(LifetimeMinutes(cfg.lifetimeMinutes) as int * 60000), 1000)
    ensures t.signature == sign(t.claims, cfg.secret)
  {
    var expiry := ExpiryMillis(nowMillis, LifetimeMinutes(cfg.lifetimeMinutes));
    var claims := Claims([cfg.audience], cfg.issuer, userId, DivTrunc(expiry, 1000));
    Token(claims, sign(claims, cfg.secret))
  }

  /** The library verifier built from the configuration: signature, audience, issuer and expiry. */
  predicate VerifierAccepts(cfg: JwtConfig, sign: Signer, token: Token, nowMillis: int) {
    && token.signature == sign(token.claims, cfg.secret)
    && cfg.audience in token.claims.audience
    && token.claims.issuer == cfg.issuer
    && nowMillis < token.claims.expiresAt * 1000
  }

  /** The `validate` callback: a principal only when the configured audience is among the token's audiences. */
  function Validate(claims: Claims, audience: string): (r: Option<int>)
    ensures r.Some? <==> audience in claims.audience
    ensures r.Some? ==> r.value == claims.userId
  {
    if audience in claims.audience then Some(claims.userId) else None
  }

  /**
   * The authentication gate in front of every protected route: the caller's
   * userId when the verifier and the callback both accept, nothing otherwise.
   * The callback never rejects a token that the verifier accepted.
   */
  function Authenticate(cfg: JwtConfig, sign: Signer, token: Token, nowMillis: int): (r: Option<int>)
    ensures r.Some? <==> VerifierAccepts(cfg, sign, token, nowMillis)
    ensures r.Some? ==> r.value == token.claims.userId
  {
    if VerifierAccepts(cfg, sign, token, nowMillis) then Validate(token.claims, cfg.audience) else None
  }

  /**
   * A token minted at `issuedAt` authenticates its user, and no one else, at
   * every instant before the whole second its `exp` names, and at none from
   * then on; for an expiry after 1970 that is the second in which it expires.
   */
  lemma IssuedTokenAuthenticates(userId: int, cfg: JwtConfig, issuedAt: int, nowMillis: int, sign: Signer)
    ensures var expiry := ExpiryMillis(issuedAt, LifetimeMinutes(cfg.lifetimeMinutes));
      var r := Authenticate(cfg, sign, GenerateToken(userId, cfg, issuedAt, sign), nowMillis);
      && (r.Some? ==> r.value == userId)
      && (r.Some? <==> nowMillis < DivTrunc(expiry, 1000) * 1000)
      && (0 <= expiry ==> (r.Some? <==> nowMillis / 1000 < expiry / 1000))
  {
  }

  /**
   * With no lifetime configured, a token issued after 1970 is accepted until
   * the second in which its hour ends.
   */
  lemma DefaultTokenLivesOneHour(userId: int, cfg: JwtConfig, issuedAt: int, nowMillis: int, sign: Signer)
    requires cfg.lifetimeMinutes.None?
    ensures ExpiryMillis(issuedAt, LifetimeMinutes(cfg.lifetimeMinutes)) == issuedAt + 3_600_000
    ensures var accepted := Authenticate(cfg, sign, GenerateToken(userId, cfg, issuedAt, sign), nowMillis).Some?;
      0 <= issuedAt ==> (accepted <==> nowMillis / 1000 < issuedAt / 1000 + 3600)
  {
    IssuedTokenAuthenticates(userId, cfg, issuedAt, nowMillis, sign);
  }

  /** A token whose signature is not the secret's signature of its claims is refused, whatever it claims. */
  lemma ForgedTokenRejected(cfg: JwtConfig, sign: Signer, token: Token, nowMillis: int)
    requires token.signature != sign(token.claims, cfg.secret)
    ensures Authenticate(cfg, sign, token, nowMillis) == None
  {
  }

  /** A token for another audience or issuer is refused, whoever it names. */
  lemma ForeignTokenRejected(cfg: JwtConfig, sign: Signer, token: Token, nowMillis: int)
    requires cfg.audience !in token.claims.audience || token.claims.issuer != cfg.issuer
    ensures Authenticate(cfg, sign, token, nowMillis) == None
  {
  }
}
