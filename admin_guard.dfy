/** The shared-secret guard in front of code issuance, and the part of the
    create-codes form handler that runs before any code is generated: the
    guard, then the optional expiry date. */
module AdminGuard {
  import opened Wrappers
  import opened Text

  datatype AdminError = AdminTokenNotConfigured | Forbidden | InvalidExpiresDate

  /** The process was started with an admin token. The token is read from the
      environment and tested for truthiness, so an empty token counts as no
      token at all. */
  predicate IsConfigured(adminToken: Option<string>)
  {
    adminToken.Some? && adminToken.value != ""
  }

  /** `require_admin(token)`: fail-closed when no token is configured,
      otherwise an exact match of the supplied token is demanded. */
  function RequireAdmin(adminToken: Option<string>, token: string): (r: Outcome<AdminError>)
    ensures r.Pass? <==> IsConfigured(adminToken) && token == adminToken.value
    ensures !IsConfigured(adminToken) ==> r == Fail(AdminTokenNotConfigured)
    ensures IsConfigured(adminToken) && token != adminToken.value ==> r == Fail(Forbidden)
  {
    if !IsConfigured(adminToken) then Fail(AdminTokenNotConfigured)
    else if token != adminToken.value then Fail(Forbidden)
    else Pass
  }

  /** No token the caller can supply gets past a guard with no configured
      token, and no two distinct tokens both get past one with a token. */
  lemma {:induction false} GuardAdmitsOnlyTheToken(adminToken: Option<string>, t1: string, t2: string)
    requires RequireAdmin(adminToken, t1).Pass? && RequireAdmin(adminToken, t2).Pass?
    ensures t1 == t2 && IsConfigured(adminToken)
  {
  }

  /** The preamble of the create-codes handler: the guard runs first; then a
      blank expiry field means "no expiry", and any other text is handed,
      trimmed, to the date parser (`parseDate`, the `%Y-%m-%d` parse at UTC
      midnight), whose refusal is `InvalidExpiresDate`. On success the result
      is the expiry to give the new codes. */
  function AdminCreatePreamble(adminToken: Option<string>, token: string, expiresDate: string,
                               parseDate: string -> Option<int>): (r: Result<Option<int>, AdminError>)
    ensures RequireAdmin(adminToken, token).Fail? ==> r == Failure(RequireAdmin(adminToken, token).error)
    ensures r == Success(None) <==> RequireAdmin(adminToken, token).Pass? && Strip(expiresDate) == []
    ensures r.Success? && r.value.Some? ==>
              Strip(expiresDate) != [] && parseDate(Strip(expiresDate)) == r.value
    ensures RequireAdmin(adminToken, token).Pass? && Strip(expiresDate) != [] && parseDate(Strip(expiresDate)).Some? ==>
              r == Success(parseDate(Strip(expiresDate)))
    ensures r == Failure(InvalidExpiresDate) <==>
              RequireAdmin(adminToken, token).Pass? && Strip(expiresDate) != [] && parseDate(Strip(expiresDate)).None?
  {
    match RequireAdmin(adminToken, token)
    case Fail(e) => Failure(e)
    case Pass =>
      var trimmed := Strip(expiresDate);
      if trimmed == [] then Success(None)
      else match parseDate(trimmed)
        case None => Failure(InvalidExpiresDate)
        case Some(t) => Success(Some(t))
  }
}
