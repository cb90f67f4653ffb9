/** The navigation guard: it reads the persisted snapshot, sends visitors without a
    session to '/login', renews the session timer of those with one, and checks the
    target route's permission list (any one of them suffices). */
module RouteGuard {
  import opened Wrappers
  import opened Sequences
  import Auth
  import ApiTypes
  import Api

  /** `next()` or `next(path)`. */
  datatype Decision = Allow | Redirect(path: string)

  /** A route of the table and the permissions its meta lists, if any. */
  datatype Route = Route(path: string, permissions: Option<seq<string>>)

  /** The application's route table. */
  const Routes: seq<Route> := [
    Route("/", Some(["view_dashboard"])),
    Route("/users", Some(["view_users"])),
    Route("/users/create", Some(["view_users", "add_users"])),
    Route("/users/:id", Some(["view_user", "edit_users"])),
    Route("/login", None),
    Route("/401", None),
    Route("/:pathMatch(.*)*", None)
  ]

  /** The snapshot's flag, false when there is no snapshot. */
  predicate SignedIn(data: Option<Auth.Snapshot>) {
    data.Some? && data.value.isAuthenticated
  }

  /** The snapshot's permissions, empty when there are none. */
  function Held(data: Option<Auth.Snapshot>): seq<string> {
    if data.Some? && data.value.permissions.Some? then data.value.permissions.value else []
  }

  /** The decision for a navigation to `path` whose route lists `required`. */
  function Decide(data: Option<Auth.Snapshot>, path: string, required: Option<seq<string>>): (d: Decision)
    ensures !SignedIn(data) ==> d == if path == "/login" then Allow else Redirect("/login")
    ensures SignedIn(data) && (exists p :: p in required.GetOr([]) && p in Held(data)) ==> d == Allow
    ensures SignedIn(data) && required.GetOr([]) == [] ==> d == Allow
    ensures (SignedIn(data) && required.GetOr([]) != [] &&
             forall p :: p in required.GetOr([]) ==> p !in Held(data)) ==>
      d == if path == "/401" then Allow else Redirect("/401")
    ensures SignedIn(data) && d != Allow ==>
      d == Redirect("/401") && required.GetOr([]) != [] &&
      forall p :: p in required.GetOr([]) ==> p !in Held(data)
  {
    if !SignedIn(data) then
      if path == "/login" then Allow else Redirect("/login")
    else
      var needed := required.GetOr([]);
      if |needed| == 0 || SomeIn(needed, Held(data)) then Allow
      else if path != "/401" then Redirect("/401")
      else Allow
  }

  /** A redirect never points at the path being visited, and only ever points at
      '/login' or '/401'. */
  lemma NoRedirectLoop(data: Option<Auth.Snapshot>, path: string, required: Option<seq<string>>)
    ensures Decide(data, path, required).Redirect? ==>
      var target := Decide(data, path, required).path;
      target != path && (target == "/login" || target == "/401")
  {
  }

  /** More permissions never turn an admitted navigation into a redirect. */
  lemma DecideMonotone(data: Option<Auth.Snapshot>, more: seq<string>, path: string, required: Option<seq<string>>)
    requires data.Some? && forall p :: p in Held(data) ==> p in more
    ensures Decide(data, path, required) == Allow ==>
      Decide(Some(data.value.(permissions := Some(more))), path, required) == Allow
  {
    var d' := Some(data.value.(permissions := Some(more)));
    assert Held(d') == more;
  }

  /** The session state a user of `role` holds after logging in. */
  function SessionOf(role: ApiTypes.Role): Auth.Snapshot {
    Auth.Snapshot(None, true, Some(Api.RolePermissions(role)))
  }

  /** Every signed-in role reaches the dashboard. */
  lemma DashboardForEveryRole(role: ApiTypes.Role)
    ensures Decide(Some(SessionOf(role)), "/", Routes[0].permissions) == Allow
  {
    assert "view_dashboard" in Held(Some(SessionOf(role)));
  }

  /** A viewer is sent from the user list to '/401'. */
  lemma ViewerKeptFromUserList()
    ensures Decide(Some(SessionOf(ApiTypes.Viewer)), "/users", Routes[1].permissions) == Redirect("/401")
  {
  }

  /** The permission list is any-of: a manager, who lacks `add_users` and
      `edit_users`, still opens the create page and profiles. */
  lemma ManagerAdmittedByAnyOf()
    ensures Decide(Some(SessionOf(ApiTypes.Manager)), "/users/create", Routes[2].permissions) == Allow
    ensures Decide(Some(SessionOf(ApiTypes.Manager)), "/users/7", Routes[3].permissions) == Allow
    ensures "add_users" !in Api.RolePermissions(ApiTypes.Manager)
  {
    assert "view_users" in Held(Some(SessionOf(ApiTypes.Manager)));
    assert "view_user" in Held(Some(SessionOf(ApiTypes.Manager)));
  }

  /** An administrator is admitted to every route of the table. */
  lemma AdminEverywhere(k: nat)
    requires k < |Routes|
    ensures Decide(Some(SessionOf(ApiTypes.Admin)), Routes[k].path, Routes[k].permissions) == Allow
  {
    var admin := Held(Some(SessionOf(ApiTypes.Admin)));
    assert "view_dashboard" in admin && "view_users" in admin && "view_user" in admin;
  }

  /** Without a session every route but '/login' redirects there. */
  lemma AnonymousToLogin(k: nat)
    requires k < |Routes| && Routes[k].path != "/login"
    ensures Decide(None, Routes[k].path, Routes[k].permissions) == Redirect("/login")
  {
  }

  /** `routeGuardMiddleware` for a navigation to `path` whose route lists
      `required`: the decision from the snapshot, and one renewal of the session
      timer when there is a session. */
  method Guard(store: Auth.AuthStore, path: string, required: Option<seq<string>>, now: int) returns (d: Decision)
    requires store.Valid()
    modifies store
    ensures store.Valid()
    ensures d == Decide(old(store.storage), path, required)
    ensures !SignedIn(old(store.storage)) ==> unchanged(store)
    ensures SignedIn(old(store.storage)) ==>
      && store.timeoutId == Some(old(store.nextHandle))
      && store.timers == map[old(store.nextHandle) := now + Auth.SessionTimeout]
      && store.nextHandle == old(store.nextHandle) + 1
      && store.storage == old(store.storage)
      && store.isAuthenticated == old(store.isAuthenticated)
      && store.user == old(store.user) && store.permissions == old(store.permissions)
      && store.error == old(store.error) && store.navigations == old(store.navigations)
  {
    var data := store.AuthenticatedUserData();
    d := Decide(data, path, required);
    if SignedIn(data) {
      store.ResetSessionTimeout(now);
    }
  }
}
