/** The route guard wrapped around the pages that need a session. */
module ProtectedRoute {
  import opened Wire

  /** The session user the guard sees; only its role matters here. */
  datatype SessionUser = SessionUser(role: Option<string>)

  datatype Decision = ToLogin | ToHome | RenderChildren

  /** No user goes to /login; an admin-only route sends a non-admin to /; everything
      else renders. */
  function Guard(user: Option<SessionUser>, requireAdmin: bool): (d: Decision)
    ensures user.None? <==> d == ToLogin
    ensures d == ToHome <==> user.Some? && requireAdmin && user.value.role != Some("admin")
    ensures d == RenderChildren <==> user.Some? && (!requireAdmin || user.value.role == Some("admin"))
  {
    if user.None? then ToLogin
    else if requireAdmin && user.value.role != Some("admin") then ToHome
    else RenderChildren
  }

  /** Whatever is let through an admin-only route is let through an ordinary one. */
  lemma AdminRoutesAreStricter(user: Option<SessionUser>)
    ensures Guard(user, true) == RenderChildren ==> Guard(user, false) == RenderChildren
    ensures Guard(user, false) == ToLogin <==> Guard(user, true) == ToLogin
  {
  }
}
