/**
 The client-side route guard: from the logged-in user (the record login
 returned, or none) and the route's optional list of allowed roles, decide
 whether to redirect or to render the route's children.
 */
module ProtectedRoute {
  import opened Values
  import opened Store
  import opened Usuarios

  datatype Decision = RedirectToLogin | RedirectToDashboard | RenderChildren

  function Guard(usuarioLogeado: Option<PublicUser>, allowedRoles: Option<seq<string>>): (d: Decision)
    ensures usuarioLogeado.None? ==> d == RedirectToLogin
    ensures (usuarioLogeado.Some? && allowedRoles.Some? && usuarioLogeado.value.rol !in allowedRoles.value)
            ==> d == RedirectToDashboard
    ensures usuarioLogeado.Some? && allowedRoles.None? ==> d == RenderChildren
    ensures d == RenderChildren <==>
              usuarioLogeado.Some? && (allowedRoles.None? || usuarioLogeado.value.rol in allowedRoles.value)
  {
    if usuarioLogeado.None? then
      RedirectToLogin
    // An empty array is truthy, so `Some([])` still restricts the route.
    else if allowedRoles.Some? && usuarioLogeado.value.rol !in allowedRoles.value then
      RedirectToDashboard
    else
      RenderChildren
  }

  /** An empty role list admits nobody: every logged-in user is sent to the dashboard. */
  lemma EmptyRoleListAdmitsNobody(u: PublicUser)
    ensures Guard(Some(u), Some([])) == RedirectToDashboard
  {
  }

  /** Allowing more roles never takes access away. */
  lemma MoreRolesKeepAccess(u: Option<PublicUser>, roles: seq<string>, more: seq<string>)
    requires Guard(u, Some(roles)) == RenderChildren
    ensures Guard(u, Some(roles + more)) == RenderChildren
  {
  }

  /** A user who has just logged in passes every guard that lists their role. */
  lemma LoginPassesGuard(db: Db, req: LoginRequest, matches: (string, string) -> bool, roles: seq<string>)
    requires Login(db, req, matches).LoggedIn?
    requires db.users[req.email.value].rol in roles
    ensures Guard(Some(Login(db, req, matches).usuario), Some(roles)) == RenderChildren
  {
  }
}
