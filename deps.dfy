/**
 * The authentication gate `get_current_user`: a bearer token's decoded claims
 * become the user they name, or a rejection. It only reads the table.
 */
module Deps {
  import opened Wrappers
  import opened Http
  import opened PyStr
  import opened Users

  const CredentialsError := HttpError(403, "Could not validate credentials")
  const UserNotFoundError := HttpError(404, "User not found")

  /**
   * A JSON value found under the `sub` claim. The token library's own claim
   * checks are not part of this model; python-jose is documented to reject a
   * non-string `sub` by default (a `JWTError`, hence 403), in which case
   * `IntClaim` is never decoded. It is kept for a decoder that does not check.
   */
  datatype SubClaim = StrClaim(s: string) | IntClaim(n: int)

  /**
   * What `jwt.decode` yields: a failure (bad signature, expired, malformed,
   * all `JWTError`) or the payload's `sub` entry (`None` when absent or null).
   */
  datatype DecodeResult = DecodeFailed | Decoded(sub: Option<SubClaim>)

  /** The id whose decimal form is exactly `s`, if there is one. */
  function CanonicalId(s: string): (r: Option<int>)
    ensures r.Some? ==> IntToString(r.value) == s
    ensures forall n :: IntToString(n) == s ==> r == Some(n)
  {
    var p := ParseInt(s);
    if p.Some? && IntToString(p.value) == s then
      assert forall n :: IntToString(n) == s ==> n == p.value by {
        forall n | IntToString(n) == s ensures n == p.value {
          IntToStringInjective(n, p.value);
        }
      }
      p
    else
      assert forall n :: IntToString(n) == s ==> false by {
        forall n | IntToString(n) == s ensures false {
          IntStringRoundTrip(n);
        }
      }
      None
  }

  /**
   * `session.get(User, token_data)` with the raw claim: an integer is a key;
   * a string matches through the store's coercion of a decimal text to an
   * integer key; `None` loads nothing.
   */
  function DirectGet(t: Table, sub: Option<SubClaim>): (r: Option<User>)
    ensures r.Some? ==> r.value in t.Values
    ensures sub.None? ==> r.None?
    ensures forall n :: sub == Some(IntClaim(n)) ==> (r.Some? <==> n in t)
    ensures forall n :: sub == Some(StrClaim(IntToString(n))) ==> (r.Some? <==> n in t)
    ensures r.Some? && sub.value.StrClaim? ==>
      exists k :: k in t && IntToString(k) == sub.value.s && r.value == t[k]
  {
    match sub
    case None => None
    case Some(IntClaim(n)) => if n in t then Some(t[n]) else None
    case Some(StrClaim(s)) =>
      match CanonicalId(s)
      case Some(k) => if k in t then Some(t[k]) else None
      case None => None
  }

  /** `int(token_data)`: `None` stands for the `TypeError`/`ValueError` the bare `except` catches. */
  function IntOf(sub: Option<SubClaim>): (r: Option<int>)
    ensures sub.None? ==> r.None?
    ensures forall n :: sub == Some(IntClaim(n)) ==> r == Some(n)
    ensures forall n :: sub == Some(StrClaim(IntToString(n))) ==> r == Some(n)
  {
    assert forall n :: ParseInt(IntToString(n)) == Some(n) by {
      forall n ensures ParseInt(IntToString(n)) == Some(n) {
        IntStringRoundTrip(n);
      }
    }
    match sub
    case None => None
    case Some(IntClaim(n)) => Some(n)
    case Some(StrClaim(s)) => ParseInt(s)
  }

  /** Loading a user by an integer key, when there is one. */
  function LookupId(t: Table, id: Option<int>): (r: Result<User, HttpError>)
    ensures r.Ok? <==> id.Some? && id.value in t
    ensures r.Ok? ==> r.value == t[id.value]
    ensures r.Err? ==> r.error == UserNotFoundError
  {
    if id.Some? && id.value in t then Ok(t[id.value]) else Err(UserNotFoundError)
  }

  /**
   * `get_current_user`: a decode failure is 403; otherwise the direct lookup,
   * then the `int(...)` fallback; no user found is 404.
   */
  function GetCurrentUser(decoded: DecodeResult, t: Table): (r: Result<User, HttpError>)
    ensures r == Err(CredentialsError) <==> decoded.DecodeFailed?
    ensures r.Err? ==> r.error == CredentialsError || r.error == UserNotFoundError
    ensures r.Ok? ==> r.value in t.Values
    ensures decoded.Decoded? ==> r == LookupId(t, IntOf(decoded.sub))
  {
    match decoded
    case DecodeFailed => Err(CredentialsError)
    case Decoded(sub) =>
      var first := DirectGet(t, sub);
      FallbackAgrees(t, sub);
      var user :=
        if first.Some? then first
        else
          match IntOf(sub)
          case Some(n) => if n in t then Some(t[n]) else None
          case None => None;
      if user.Some? then Ok(user.value) else Err(UserNotFoundError)
  }

  /**
   * Whenever the direct lookup finds a user, the `int(...)` fallback would
   * have found the same one: the first step never changes the outcome.
   */
  lemma FallbackAgrees(t: Table, sub: Option<SubClaim>)
    ensures DirectGet(t, sub).Some? ==>
      var n := IntOf(sub); n.Some? && n.value in t && DirectGet(t, sub) == Some(t[n.value])
  {
    if sub.Some? && sub.value.StrClaim? {
      var s := sub.value.s;
      var c := CanonicalId(s);
      if c.Some? {
        IntStringRoundTrip(c.value);
      }
    }
  }

  /** A `sub` that is missing, or that `int()` rejects, ends in 404 and not 403. */
  lemma UnparseableSubIsNotFound(t: Table, sub: Option<SubClaim>)
    requires IntOf(sub).None?
    ensures GetCurrentUser(Decoded(sub), t) == Err(UserNotFoundError)
  {
  }

  /**
   * A `sub` holding an information separator (U+001C..U+001F) anywhere:
   * `int()` rejects it and no key's decimal form contains one, so the answer
   * is 404.
   */
  lemma SeparatorSubIsNotFound(t: Table, s: string)
    requires exists i :: 0 <= i < |s| && IsSeparatorControl(s[i])
    ensures GetCurrentUser(Decoded(Some(StrClaim(s))), t) == Err(UserNotFoundError)
  {
  }

  /** `sub == str(id)` for an existing record resolves to that record. */
  lemma DecimalSubResolves(t: Table, id: int)
    requires id in t
    ensures GetCurrentUser(Decoded(Some(StrClaim(IntToString(id)))), t) == Ok(t[id])
  {
    IntStringRoundTrip(id);
  }
}
