/**
 * The per-browser session and the two guards every handler goes through:
 * `login_required` (is a user id in the session?) and the CSRF token check
 * (does the form carry the session's token?).
 */
module Guards {
  import opened Wrappers

  /**
   * The session keys the application uses: `user_id`, `username` and `_csrf`.
   * A missing key is `None`.
   */
  datatype Session = Session(userId: Option<nat>, username: Option<string>, csrf: Option<string>)

  /** What `session.clear()` leaves behind. */
  const EMPTY_SESSION := Session(None, None, None)

  /** The current user as `login_required` sees it: a user id that Python treats as true. */
  function CurrentUser(s: Session): (r: Option<nat>)
    ensures r.Some? ==> r == s.userId && r.value != 0
    ensures r.None? ==> s.userId.None? || s.userId.value == 0
  {
    match s.userId
    case Some(id) => if id != 0 then Some(id) else None
    case None => None
  }

  /** Python truthiness of an optional string: present and non-empty. */
  predicate Truthy(t: Option<string>)
  {
    t.Some? && t.value != ""
  }

  /** `validate_csrf` passes: both tokens are present, non-empty and equal. */
  predicate CsrfValid(s: Session, form: Option<string>)
  {
    Truthy(s.csrf) && Truthy(form) && s.csrf.value == form.value
  }

  /**
   * `get_csrf`: the session's token when it has one, otherwise `newToken`
   * (the output of `secrets.token_urlsafe(32)`, never empty), stored in the session.
   */
  function IssueCsrf(s: Session, newToken: string): (r: (Session, string))
    requires newToken != ""
    ensures r.0.userId == s.userId && r.0.username == s.username
    ensures Truthy(s.csrf) ==> r == (s, s.csrf.value)
  {
    if Truthy(s.csrf) then (s, s.csrf.value) else (s.(csrf := Some(newToken)), newToken)
  }

  /** The token `get_csrf` hands to a form is accepted when that form is posted back. */
  lemma IssuedTokenValidates(s: Session, newToken: string)
    requires newToken != ""
    ensures CsrfValid(IssueCsrf(s, newToken).0, Some(IssueCsrf(s, newToken).1))
  {
  }

  /** Once a token is set, `get_csrf` returns it unchanged, whatever other token it is offered. */
  lemma IssueCsrfIdempotent(s: Session, newToken: string, other: string)
    requires newToken != "" && other != ""
    ensures IssueCsrf(IssueCsrf(s, newToken).0, other) == IssueCsrf(s, newToken)
  {
  }

  /**
   * The only form token accepted is the one the session holds: a missing or
   * empty form token, a session without a token, or any other value fails.
   */
  lemma CsrfAcceptsOnlySessionToken(s: Session, form: Option<string>)
    ensures CsrfValid(s, form) <==> (form == s.csrf && Truthy(form))
  {
  }
}
