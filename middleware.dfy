/** The `isAuth` middleware that guards mutations needing a logged-in user. */
module Middleware {
  import opened Common
  import opened Context

  /** Either the value `next()` produced, or the error the guard threw. */
  datatype AuthResult<R> = Next(value: R) | Thrown(message: string)

  const NotAuthenticated: string := "not authenticated"

  /**
   * Throws "not authenticated" unless the session holds a truthy user id,
   * otherwise returns exactly what `next()` returns. Being a function, it
   * changes neither the context nor the session.
   */
  function IsAuth<R>(context: Session, next: () -> R): (r: AuthResult<R>)
    ensures r.Next? <==> context.userId.Some? && context.userId.value != 0
    ensures r.Next? ==> r.value == next()
    ensures r.Thrown? ==> r.message == NotAuthenticated
  {
    if !HasUserId(context) then Thrown(NotAuthenticated) else Next(next())
  }

  /** A session whose user id is 0 is rejected like one with no id at all. */
  lemma ZeroUserIdRejected<R>(next: () -> R)
    ensures IsAuth(Session(Some(0)), next) == IsAuth(Session(None), next) == Thrown(NotAuthenticated)
  {
  }

  /** The guard's verdict depends on the session only, never on `next`. */
  lemma VerdictIndependentOfNext<R>(context: Session, next1: () -> R, next2: () -> R)
    ensures IsAuth(context, next1).Thrown? <==> IsAuth(context, next2).Thrown?
  {
  }
}
