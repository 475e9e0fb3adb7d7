/** The per-request session carried by the cookie (the SessionData declaration). */
module Context {
  import opened Common

  /** `userId` is the only thing the resolvers store in the session. */
  datatype Session = Session(userId: Option<int>)

  /**
   * JavaScript truthiness of `session.userId`: both an absent id and the
   * number 0 are falsy, so both read as "no user".
   */
  predicate HasUserId(s: Session)
  {
    s.userId.Some? && s.userId.value != 0
  }

  /** The id a truthy session carries; 0 stands for the falsy cases. */
  function UserIdOf(s: Session): int
  {
    if HasUserId(s) then s.userId.value else 0
  }
}
