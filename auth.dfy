/** The signed-in session, as the identity provider hands it to a request:
    possibly no session, and a user whose id and email may each be missing. */
module Auth {
  import opened Wrappers

  datatype SessionUser = SessionUser(id: Option<string>, email: Option<string>)

  type Session = Option<SessionUser>

  /** `session?.user?.email`. */
  function Email(session: Session): Option<string> {
    if session.Some? then session.value.email else None
  }

  /** `session?.user?.id`. */
  function UserId(session: Session): Option<string> {
    if session.Some? then session.value.id else None
  }

  /** `!!session?.user?.email`: present and not the empty string. */
  predicate HasEmail(session: Session) {
    Email(session).Some? && Email(session).value != ""
  }

  /** `!!session?.user?.id`: present and not the empty string. */
  predicate HasUserId(session: Session) {
    UserId(session).Some? && UserId(session).value != ""
  }
}
