/** CustomAuthenticationFilter: the login filter. It hands the request's
    credentials to the authentication manager and, once they are accepted,
    answers with an access token, a refresh token and two facts about the
    user. Tokens are JSON Web Tokens whose claim sets use the registered
    claims "sub", "iss" and "exp" of section 4.1 of RFC 7519, signed with
    HMAC SHA-256 (HS256, section 3.2 of RFC 7518). The signature itself is a
    parameter; the clock is read as integer milliseconds passed in. */
module AuthenticationFilter {
  import opened Common
  import opened Decimal
  import opened Users

  newtype byte = b: int | 0 <= b < 256

  /** A signing algorithm with its key. */
  datatype Algorithm = HMAC256(key: seq<byte>)

  /** The UTF-8 bytes of an ASCII string. */
  function AsciiBytes(s: string): (bytes: seq<byte>)
    requires forall i :: 0 <= i < |s| ==> s[i] < 128 as char
    ensures |bytes| == |s|
    ensures forall i :: 0 <= i < |s| ==> bytes[i] as int == s[i] as int
  {
    seq(|s|, i requires 0 <= i < |s| => s[i] as int as byte)
  }

  /** Both tokens are signed with the key made of the bytes of "secret". */
  const SigningAlgorithm := HMAC256(AsciiBytes("secret"))

  /** Lifetimes in milliseconds, as the filter adds them to the clock. */
  const AccessTokenLifetime: int := 3600 * 60
  const RefreshTokenLifetime: int := 20000 * 60

  /** A JWT claim set: subject, expiry (in clock milliseconds), issuer, and
      the private "roles" claim when present. */
  datatype ClaimSet = ClaimSet(subject: string, expiresAt: int, issuer: string, roles: Option<seq<string>>)

  /** The request parameters `attemptAuthentication` reads; a missing one is null. */
  function Parameter(params: map<string, string>, name: string): (r: Option<string>)
    ensures r.Some? <==> name in params
    ensures r.Some? ==> r.value == params[name]
  {
    if name in params then Some(params[name]) else None
  }

  datatype AuthenticationToken = UsernamePasswordAuthenticationToken(principal: Option<string>, credentials: Option<string>)

  /** `attemptAuthentication`: the "email" and "password" parameters, as
      they are, become principal and credentials of the token the
      authentication manager decides on. */
  function AttemptAuthentication<A>(params: map<string, string>, authenticate: AuthenticationToken -> A): (r: A)
    ensures r == authenticate(UsernamePasswordAuthenticationToken(Parameter(params, "email"), Parameter(params, "password")))
  {
    authenticate(UsernamePasswordAuthenticationToken(Parameter(params, "email"), Parameter(params, "password")))
  }

  /** The access token's claims: the username as subject, the request URL as
      issuer, the user's authorities in order as roles. */
  function AccessClaims(user: UserDetails, requestUrl: string, now: int): (c: ClaimSet)
    ensures c.subject == user.username && c.issuer == requestUrl
    ensures c.expiresAt > now && c.roles == Some(user.authorities)
  {
    ClaimSet(user.username, now + AccessTokenLifetime, requestUrl, Some(user.authorities))
  }

  /** The refresh token's claims: the same subject and issuer, no roles. */
  function RefreshClaims(user: UserDetails, requestUrl: string, now: int): (c: ClaimSet)
    ensures c.subject == user.username && c.issuer == requestUrl
    ensures c.expiresAt > now && c.roles.None?
  {
    ClaimSet(user.username, now + RefreshTokenLifetime, requestUrl, None)
  }

  /** `successfulAuthentication`: signs both tokens, looks the user up by
      the authenticated username and fills the response map. The clock is
      read once per token. A username no user holds fails with NOT_FOUND. */
  method SuccessfulAuthentication(
    principal: UserDetails, requestUrl: string, accessNow: int, refreshNow: int,
    sign: (ClaimSet, Algorithm) -> string, userService: UserService)
    returns (r: Result<map<string, string>>)
    requires userService.Valid()
    ensures r.Success? <==> HasEmail(userService.users, principal.username)
    ensures r.Failure? ==> r.error == ResourceException(NotFound)
    ensures r.Success? ==>
              && r.value.Keys == {"jwt", "jwt_refresh", "userRight", "sessionUserId"}
              && r.value["jwt"] == sign(AccessClaims(principal, requestUrl, accessNow), SigningAlgorithm)
              && r.value["jwt_refresh"] == sign(RefreshClaims(principal, requestUrl, refreshNow), SigningAlgorithm)
              && exists id :: id in userService.users && userService.users[id].email == principal.username &&
                   r.value["userRight"] == userService.users[id].roleLabel &&
                   r.value["sessionUserId"] == LongToString(id)
  {
    var algorithm := SigningAlgorithm;
    var accessToken := sign(AccessClaims(principal, requestUrl, accessNow), algorithm);
    var refreshToken := sign(RefreshClaims(principal, requestUrl, refreshNow), algorithm);
    var found := userService.GetUserByEmail(principal.username);
    if found.Failure? {
      r := Failure(found.error);
      return;
    }
    var tokens: map<string, string> := map[];
    tokens := tokens["jwt" := accessToken];
    tokens := tokens["jwt_refresh" := refreshToken];
    tokens := tokens["userRight" := found.value.roleLabel];
    tokens := tokens["sessionUserId" := LongToString(found.value.id)];
    r := Success(tokens);
  }

  /** The signing key is the six bytes of "secret". */
  lemma SigningKeyIsSecret()
    ensures SigningAlgorithm.key == [0x73, 0x65, 0x63, 0x72, 0x65, 0x74]
  {
  }

  /** Only the two credential parameters reach the authentication manager. */
  lemma AttemptAuthenticationReadsOnlyCredentials<A>(
    params: map<string, string>, other: map<string, string>, authenticate: AuthenticationToken -> A)
    requires Parameter(params, "email") == Parameter(other, "email")
    requires Parameter(params, "password") == Parameter(other, "password")
    ensures AttemptAuthentication(params, authenticate) == AttemptAuthentication(other, authenticate)
  {
  }

  /** Both tokens name the same subject and issuer; only the access token
      carries roles, and for one clock reading the refresh token expires
      later. In general it expires later unless the clock went back by at
      least the difference of the two lifetimes between the readings. */
  lemma TokenClaims(user: UserDetails, requestUrl: string, accessNow: int, refreshNow: int)
    ensures var access, refresh := AccessClaims(user, requestUrl, accessNow), RefreshClaims(user, requestUrl, refreshNow);
            && access.subject == refresh.subject == user.username
            && access.issuer == refresh.issuer == requestUrl
            && access.roles == Some(user.authorities) && refresh.roles.None?
            && access.expiresAt == accessNow + 216000
            && refresh.expiresAt == refreshNow + 1200000
            && (refresh.expiresAt > access.expiresAt <==> refreshNow - accessNow > -984000)
            && (accessNow == refreshNow ==> refresh.expiresAt > access.expiresAt)
  {
  }
}
