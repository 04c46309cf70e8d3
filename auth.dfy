/**
 * The Google login callback: find or create the user by the verified email,
 * then build the access token's claims. Signing the claims is left to the
 * token library and not modelled; the token is represented by its claims.
 */
module Auth {
  import opened Wrappers
  import opened Http
  import opened PyStr
  import opened Users
  import Config
  import Deps

  const SsoNotConfiguredError := HttpError(500, "Google SSO not configured")
  const NoEmailError := HttpError(400, "No email returned from Google")

  /** The profile the identity provider verified. */
  datatype UserInfo = UserInfo(email: Option<string>, displayName: Option<string>, picture: Option<string>)

  /**
   * The state of the SSO client and the outcome of `verify_and_process`: no
   * client configured, verification raised (with its message), or a result
   * that may be `None`.
   */
  datatype SsoOutcome = SsoNotConfigured | SsoFailed(message: string) | SsoVerified(info: Option<UserInfo>)

  /** The claims the token carries: `sub` and `exp` (seconds since the epoch). */
  datatype Claims = Claims(sub: string, exp: int)

  /** The callback's response body. */
  datatype TokenResponse = TokenResponse(accessToken: Claims, tokenType: string, user: User)

  /** `not user_info or not user_info.email` is false: there is a non-empty email. */
  predicate HasEmail(info: Option<UserInfo>) {
    info.Some? && info.value.email.Some? && info.value.email.value != ""
  }

  /**
   * The token claims for a user: the subject is the decimal id and the expiry
   * lies `expireMinutes` minutes after the issue time (whole seconds).
   */
  function BuildClaims(userId: int, issuedAt: int, expireMinutes: int): (c: Claims)
    ensures c.sub == IntToString(userId)
    ensures ParseInt(c.sub) == Some(userId)
    ensures c.exp - issuedAt == expireMinutes * 60
  {
    IntStringRoundTrip(userId);
    Claims(IntToString(userId), issuedAt + expireMinutes * 60)
  }

  /** With the default setting a token lives one hour. */
  lemma DefaultLifetimeIsOneHour(userId: int, issuedAt: int)
    ensures BuildClaims(userId, issuedAt, Config.DefaultAccessTokenExpireMinutes).exp == issuedAt + 3600
  {
  }

  /**
   * A token issued for a user, once it decodes, gets that same user through
   * the authentication gate.
   */
  lemma IssuedTokenAuthenticates(t: Table, id: int, issuedAt: int, expireMinutes: int)
    requires id in t
    ensures Deps.GetCurrentUser(Deps.Decoded(Some(Deps.StrClaim(BuildClaims(id, issuedAt, expireMinutes).sub))), t) == Ok(t[id])
  {
    Deps.DecimalSubResolves(t, id);
  }

  /**
   * `google_callback`. `now` is the issue time in seconds, `expireMinutes` the
   * configured `ACCESS_TOKEN_EXPIRE_MINUTES`, and `newId` the key the database
   * assigns if a record is inserted.
   */
  method GoogleCallback(table: UserTable, sso: SsoOutcome, newId: int, now: int, expireMinutes: int)
    returns (r: Result<TokenResponse, HttpError>)
    requires table.Valid()
    requires newId > 0 && newId !in table.users
    modifies table
    ensures table.Valid()
    ensures old(PairingInvariant(table.users)) ==> PairingInvariant(table.users)
    ensures sso.SsoNotConfigured? ==> r == Err(SsoNotConfiguredError)
    ensures sso.SsoFailed? ==> r == Err(HttpError(400, "SSO Error: " + sso.message))
    ensures sso.SsoVerified? && !HasEmail(sso.info) ==> r == Err(NoEmailError)
    ensures r.Err? ==> table.users == old(table.users)
    ensures sso.SsoVerified? && HasEmail(sso.info) ==> r.Ok?
    ensures r.Ok? ==>
      && sso.SsoVerified? && HasEmail(sso.info)
      && var info := sso.info.value;
      && var u := r.value.user;
      && u.email == info.email.value
      && r.value.tokenType == "bearer"
      && r.value.accessToken == BuildClaims(u.id, now, expireMinutes)
      && u.id in table.users && table.users[u.id] == u
      && (EmailInUse(old(table.users), u.email) ==>
            table.users == old(table.users))
      && (!EmailInUse(old(table.users), u.email) ==>
            u == NewUser(newId, u.email, info.displayName, info.picture) &&
            table.users == old(table.users)[newId := u])
  {
    if sso.SsoNotConfigured? {
      return Err(SsoNotConfiguredError);
    }
    if sso.SsoFailed? {
      return Err(HttpError(400, "SSO Error: " + sso.message));
    }
    var info := sso.info;
    if !HasEmail(info) {
      return Err(NoEmailError);
    }
    var email := info.value.email.value;
    var user: User;
    if EmailInUse(table.users, email) {
      var k :| k in table.users && table.users[k].email == email;
      user := table.users[k];
    } else {
      user := NewUser(newId, email, info.value.displayName, info.value.picture);
      InsertNewUser(table.users, newId, email, info.value.displayName, info.value.picture);
      table.users := table.users[newId := user];
    }
    var claims := BuildClaims(user.id, now, expireMinutes);
    r := Ok(TokenResponse(claims, "bearer", user));
  }
}
