/**
 * The signed-in identity kept in the session cookie and the two route guards,
 * `login_required` and `admin_required`, as decisions on that identity.
 */
module Auth {
  import opened Wrappers

  /** The three session keys that sign-in writes together: `user_id`, `username` and `role`. */
  datatype Identity = Identity(userId: nat, username: string, role: string)

  /** What a guard decides: run the handler, or redirect to the sign-in page or to the listing. */
  datatype Guard = Pass | ToLogin | ToEvents

  /** `login_required`: only a signed-in caller gets through; anyone else is sent to sign in. */
  function LoginRequired(session: Option<Identity>): (g: Guard)
    ensures g == Pass <==> session.Some?
    ensures g != Pass ==> g == ToLogin
  {
    if session.None? then ToLogin else Pass
  }

  /**
   * `admin_required`: only a signed-in caller whose session role is "admin" gets through;
   * a caller who is not signed in is sent to sign in, a signed-in non-admin to the listing.
   */
  function AdminRequired(session: Option<Identity>): (g: Guard)
    ensures g == Pass <==> session.Some? && session.value.role == "admin"
    ensures g == ToLogin <==> session.None?
    ensures g == ToEvents <==> session.Some? && session.value.role != "admin"
  {
    if session.None? then ToLogin
    else if session.value.role != "admin" then ToEvents
    else Pass
  }

  /** Every caller the admin guard lets through also passes the sign-in guard. */
  lemma AdminImpliesSignedIn(session: Option<Identity>)
    ensures AdminRequired(session) == Pass ==> LoginRequired(session) == Pass
    ensures LoginRequired(session) != Pass ==> AdminRequired(session) == LoginRequired(session)
  {
  }

  /** The role sign-in stores: the row's role, or "user" when it is NULL or empty. */
  function SessionRole(stored: string): (r: string)
    ensures r != ""
    ensures stored != "" ==> r == stored
    ensures stored == "" ==> r == "user"
  {
    if stored != "" then stored else "user"
  }
}
