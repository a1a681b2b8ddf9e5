/** The dashboard route: which view is shown for the sign-in state and the user's role. */
module Dashboard {
  import opened Wrappers
  import opened Roles

  datatype View =
    | LoadingView
    | NoRoleView
    | StudentHome
    | HallAdminHome
    | SecurityHome
    | SuperAdminHome
    | UnknownRoleView

  /** The view rendered. `role` is the role string the role lookup produced, None while
      it has produced none (no user, lookup failed, no row). */
  function DashboardView(authLoading: bool, roleLoading: bool, role: Option<string>): View {
    if authLoading || roleLoading then LoadingView
    else if role.None? || role.value == "" then NoRoleView
    else if role.value == "student" then StudentHome
    else if role.value == "hall_admin" then HallAdminHome
    else if role.value == "security" then SecurityHome
    else if role.value == "super_admin" then SuperAdminHome
    else UnknownRoleView
  }

  /** The page sends the visitor to the sign-in page once authentication has settled
      without a user. */
  predicate RedirectsToSignIn(authLoading: bool, signedIn: bool) {
    !authLoading && !signedIn
  }

  /** The dashboard that belongs to each role. */
  function HomeOf(r: Role): View {
    match r
    case Student => StudentHome
    case HallAdmin => HallAdminHome
    case Security => SecurityHome
    case SuperAdmin => SuperAdminHome
  }

  /** The role a view is the dashboard of, if it is one. */
  function RoleOfView(v: View): Option<Role> {
    match v
    case StudentHome => Some(Student)
    case HallAdminHome => Some(HallAdmin)
    case SecurityHome => Some(Security)
    case SuperAdminHome => Some(SuperAdmin)
    case _ => None
  }

  /** Loading wins over everything; a missing or empty role never reaches a dashboard;
      a dashboard is shown only to the role it belongs to; any other role string gets
      the unknown-role view. */
  lemma DashboardViewSpec(authLoading: bool, roleLoading: bool, role: Option<string>)
    ensures var v := DashboardView(authLoading, roleLoading, role);
      && ((authLoading || roleLoading) <==> v == LoadingView)
      && (v == NoRoleView <==> !authLoading && !roleLoading && (role.None? || role.value == ""))
      && (RoleOfView(v).Some? ==> role == Some(RoleToken(RoleOfView(v).value)))
      && (v == UnknownRoleView <==>
            !authLoading && !roleLoading && role.Some? && role.value != "" && ParseRole(role.value).None?)
  {
  }

  /** Each role reaches exactly its own dashboard, and no two roles share one. */
  lemma EachRoleHasItsDashboard(r: Role)
    ensures DashboardView(false, false, Some(RoleToken(r))) == HomeOf(r)
    ensures RoleOfView(HomeOf(r)) == Some(r)
    ensures forall r': Role :: HomeOf(r') == HomeOf(r) ==> r' == r
  {
  }

  // -------------------------------------------------------------------------
  // The role lookup hook that feeds `role` and `roleLoading`
  // -------------------------------------------------------------------------

  /** The hook's state: the role it last stored and its loading flag. */
  datatype RoleLookup = RoleLookup(role: Option<string>, loading: bool)

  /** Before its first effect has finished: no role, still loading. */
  const InitialLookup: RoleLookup := RoleLookup(None, true)

  /** One finished run of the hook's effect for the current user id. `fetched` is the
      role the single-row query returned, None when it failed or found no single row. */
  function LookupEffect(h: RoleLookup, userId: Option<string>, fetched: Option<string>)
    : (h': RoleLookup)
    ensures !h'.loading
    ensures h'.role == (if userId.Some? && userId.value != "" && fetched.Some? then fetched else h.role)
  {
    if userId.None? || userId.value == "" then RoleLookup(h.role, false)
    else if fetched.Some? then RoleLookup(fetched, false)
    else RoleLookup(h.role, false)
  }

  /** One run of the effect: the user id it ran for and what the query returned. */
  datatype LookupRun = LookupRun(userId: Option<string>, fetched: Option<string>)

  /** The hook's state after a series of effect runs, oldest first. */
  function RunLookups(h: RoleLookup, runs: seq<LookupRun>): RoleLookup
    decreases |runs|
  {
    if runs == [] then h
    else RunLookups(LookupEffect(h, runs[0].userId, runs[0].fetched), runs[1..])
  }

  predicate NoUser(run: LookupRun) {
    run.userId.None? || run.userId.value == ""
  }

  /** Runs without a user never store a role, and once one has run the hook has stopped
      loading. */
  lemma {:induction false} NoUserStoresNoRole(h: RoleLookup, runs: seq<LookupRun>)
    requires forall i | 0 <= i < |runs| :: NoUser(runs[i])
    ensures RunLookups(h, runs).role == h.role
    ensures runs != [] ==> !RunLookups(h, runs).loading
    decreases |runs|
  {
    if runs != [] {
      var h1 := LookupEffect(h, runs[0].userId, runs[0].fetched);
      NoUserStoresNoRole(h1, runs[1..]);
      if runs[1..] == [] {
        assert RunLookups(h, runs) == h1;
      }
    }
  }

  /** A visitor who has not been signed in at any point of the visit never sees a
      dashboard: the page loads, then shows the no-role view while the redirect to the
      sign-in page takes effect. */
  lemma NeverSignedInSeesNoDashboard(authLoading: bool, runs: seq<LookupRun>)
    requires forall i | 0 <= i < |runs| :: NoUser(runs[i])
    ensures var h := RunLookups(InitialLookup, runs);
      && RoleOfView(DashboardView(authLoading, h.loading, h.role)).None?
      && (!authLoading && runs != [] ==>
            && RedirectsToSignIn(authLoading, !NoUser(runs[|runs| - 1]))
            && DashboardView(authLoading, h.loading, h.role) == NoRoleView)
  {
    NoUserStoresNoRole(InitialLookup, runs);
  }

  /** Signing out does not clear the stored role: the effect for the missing user id only
      clears the loading flag, so the page still renders the dashboard of the role looked
      up before, in the same render in which the redirect to sign-in is due. */
  lemma SignOutKeepsStaleRole(h: RoleLookup, uid: string, r: Role, out: LookupRun, authLoading: bool)
    requires uid != "" && NoUser(out)
    ensures var signedIn := LookupEffect(h, Some(uid), Some(RoleToken(r)));
      var signedOut := LookupEffect(signedIn, out.userId, out.fetched);
      && signedOut.role == Some(RoleToken(r))
      && (!authLoading ==>
            && RedirectsToSignIn(authLoading, !NoUser(out))
            && DashboardView(authLoading, signedOut.loading, signedOut.role) == HomeOf(r))
  {
    EachRoleHasItsDashboard(r);
  }
}
