/** The client session (`useAuthStore`): who is logged in, and the three
    transitions login, logout and setUser. `isLoggedIn` starts as `None`
    (the store is not yet known) and becomes a boolean at the first login or
    logout. The layouts of the branch and admin areas and the home page
    decide from it where to send the visitor. */
module Session {
  import opened Common
  import opened Entities
  import DocStore

  type UserDoc = DocStore.Doc<User>

  datatype AuthState = AuthState(user: Option<UserDoc>, isLoggedIn: Option<bool>)

  const Init: AuthState := AuthState(None, None)

  function Login(s: AuthState, u: UserDoc): (r: AuthState)
    ensures r.user == Some(u) && r.isLoggedIn == Some(true)
  {
    AuthState(Some(u), Some(true))
  }

  function Logout(s: AuthState): (r: AuthState)
    ensures r.user.None? && r.isLoggedIn == Some(false)
  {
    AuthState(None, Some(false))
  }

  /** `setUser(fields)`: overlays the fields on the current user; without a
      current user nothing happens. `isLoggedIn` is never touched. */
  function SetUser(s: AuthState, p: UserPatch): (r: AuthState)
    ensures r.isLoggedIn == s.isLoggedIn
    ensures s.user.None? ==> r == s
    ensures s.user.Some? ==> r.user.Some? && r.user.value.id == s.user.value.id &&
                             r.user.value.data == ApplyUserPatch(s.user.value.data, p)
  {
    match s.user
    case None => s
    case Some(u) => s.(user := Some(u.(data := ApplyUserPatch(u.data, p))))
  }

  datatype AuthEvent = LoginEvent(u: UserDoc) | LogoutEvent | SetUserEvent(p: UserPatch)

  function Apply(s: AuthState, e: AuthEvent): AuthState
  {
    match e
    case LoginEvent(u) => Login(s, u)
    case LogoutEvent => Logout(s)
    case SetUserEvent(p) => SetUser(s, p)
  }

  function Run(s: AuthState, es: seq<AuthEvent>): AuthState
  {
    if |es| == 0 then s else Apply(Run(s, es[..|es| - 1]), es[|es| - 1])
  }

  /** A user is present exactly when logged in, and an unknown login state
      has no user. */
  predicate Coherent(s: AuthState)
  {
    && (s.user.Some? <==> s.isLoggedIn == Some(true))
    && (s.isLoggedIn.None? ==> s.user.None?)
  }

  predicate ChangesLogin(e: AuthEvent)
  {
    e.LoginEvent? || e.LogoutEvent?
  }

  /** Every reachable state is coherent, and the login state is unknown
      exactly until the first login or logout: no transition sets it back
      to `null`. */
  lemma {:induction false} RunInvariant(es: seq<AuthEvent>)
    ensures Coherent(Run(Init, es))
    ensures Run(Init, es).isLoggedIn.None? <==> forall i :: 0 <= i < |es| ==> !ChangesLogin(es[i])
  {
    if |es| > 0 {
      RunInvariant(es[..|es| - 1]);
    }
  }

  /** Once known, the login state stays known whatever follows. */
  lemma {:induction false} KnownStaysKnown(s: AuthState, es: seq<AuthEvent>)
    requires s.isLoggedIn.Some?
    ensures Run(s, es).isLoggedIn.Some?
  {
    if |es| > 0 {
      KnownStaysKnown(s, es[..|es| - 1]);
    }
  }

  // ---------------------------------------------------------------------
  // role gates

  const LoginPath: string := "/auth/login"

  /** What a layout does: where it redirects (if anywhere), whether it logs
      out first, and whether it renders its children. */
  datatype Decision = Decision(redirect: Option<string>, logout: bool, render: bool)

  function RoleOf(s: AuthState): Option<string>
  {
    match s.user
    case Some(u) => Some(u.data.role)
    case None => None
  }

  /** The layout guard for the area reserved to `role`: nothing while the
      login state is unknown; to the login page when logged out; logout then
      login page when the role differs; children only when logged in with
      that role. */
  function RoleGate(s: AuthState, role: string): (d: Decision)
    ensures s.isLoggedIn.None? ==> d.redirect.None? && !d.logout
    ensures s.isLoggedIn == Some(false) ==> d.redirect == Some(LoginPath) && !d.logout
    ensures s.isLoggedIn == Some(true) && RoleOf(s) != Some(role) ==> d.redirect == Some(LoginPath) && d.logout
    ensures d.render <==> s.isLoggedIn == Some(true) && RoleOf(s) == Some(role)
    ensures d.logout ==> d.redirect == Some(LoginPath)
  {
    var render := RoleOf(s) == Some(role) && s.isLoggedIn == Some(true);
    match s.isLoggedIn
    case None => Decision(None, false, render)
    case Some(false) => Decision(Some(LoginPath), false, render)
    case Some(true) =>
      if RoleOf(s) != Some(role) then Decision(Some(LoginPath), true, render)
      else Decision(None, false, render)
  }

  /** The branch area (`/branch`), reserved to role `user`. */
  function BranchGate(s: AuthState): Decision
  {
    RoleGate(s, UserRole)
  }

  /** The admin area (`/admin`), reserved to role `admin`. */
  function AdminGate(s: AuthState): Decision
  {
    RoleGate(s, AdminRole)
  }

  /** A gate renders or sends away, never both; and after the logout it asks
      for, a second evaluation only redirects, so it settles. */
  lemma GateSettles(s: AuthState, role: string)
    ensures RoleGate(s, role).render ==> RoleGate(s, role).redirect.None? && !RoleGate(s, role).logout
    ensures RoleGate(s, role).logout ==>
              RoleGate(Logout(s), role) == Decision(Some(LoginPath), false, false)
  {
  }

  /** The home page's redirect: none while unknown, the login page when
      logged out, the area of a `user` or an `admin`, and none for any other
      role (a guest stays on the blank page). */
  function Home(s: AuthState): (r: Option<string>)
    ensures s.isLoggedIn.None? ==> r.None?
    ensures s.isLoggedIn == Some(false) ==> r == Some(LoginPath)
    ensures s.isLoggedIn == Some(true) && RoleOf(s) == Some(UserRole) ==> r == Some("/branch")
    ensures s.isLoggedIn == Some(true) && RoleOf(s) == Some(AdminRole) ==> r == Some("/admin")
    ensures s.isLoggedIn == Some(true) && RoleOf(s) != Some(UserRole) && RoleOf(s) != Some(AdminRole) ==> r.None?
  {
    match s.isLoggedIn
    case None => None
    case Some(false) => Some(LoginPath)
    case Some(true) =>
      if RoleOf(s) == Some(UserRole) then Some("/branch")
      else if RoleOf(s) == Some(AdminRole) then Some("/admin")
      else None
  }

  /** The home page sends a visitor to an area exactly when that area's
      gate would render for them. */
  lemma HomeAgreesWithGates(s: AuthState)
    ensures Home(s) == Some("/branch") <==> BranchGate(s).render
    ensures Home(s) == Some("/admin") <==> AdminGate(s).render
  {
  }
}
