/** The super administrator's read-only overview: statistics, the filtered request list
    and the user list with its role filter. */
module SuperAdminDashboard {
  import opened Wrappers
  import opened Text
  import opened Collections
  import opened StatusBadge
  import opened Roles
  import opened ExitRequests

  // -------------------------------------------------------------------------
  // Request list: status filter, then free-text search
  // -------------------------------------------------------------------------

  /** A fetched request with the joined student's name (absent when the join is empty). */
  datatype ListedRequest = ListedRequest(request: ExitRequest, studentName: Option<string>)

  const AllFilter: string := "all"

  /** The status filter: "all" keeps everything, any other value the rows whose status
      token equals it. */
  predicate KeptByStatus(statusFilter: string, x: ListedRequest) {
    statusFilter == AllFilter || Token(x.request.status) == statusFilter
  }

  /** The search: the lowercased query occurs in the lowercased student name,
      destination or reason. */
  predicate MatchesQuery(query: string, x: ListedRequest) {
    var q := Lower(query);
    || (x.studentName.Some? && Includes(Lower(x.studentName.value), q))
    || Includes(Lower(x.request.destination), q)
    || Includes(Lower(x.request.reason), q)
  }

  /** The list shown under "All Requests": exactly the requests passing both filters,
      each as often as fetched, in fetched order. */
  function FilterRequests(requests: seq<ListedRequest>, statusFilter: string, query: string)
    : (r: seq<ListedRequest>)
    ensures forall x | x in r :: x in requests && KeptByStatus(statusFilter, x)
                                 && (query == "" || MatchesQuery(query, x))
    ensures forall x | x in requests && KeptByStatus(statusFilter, x)
                       && (query == "" || MatchesQuery(query, x)) :: x in r
    ensures IsSubsequence(r, requests)
    ensures forall x | x in requests ::
      multiset(r)[x] == if KeptByStatus(statusFilter, x) && (query == "" || MatchesQuery(query, x))
                        then multiset(requests)[x] else 0
  {
    var byStatus := if statusFilter != AllFilter
                    then Filter(requests, x => KeptByStatus(statusFilter, x))
                    else requests;
    var r := if query != "" then Filter(byStatus, x => MatchesQuery(query, x)) else byStatus;
    assert IsSubsequence(r, requests) by {
      SubsequenceReflexive(requests);
      FilterIsSubsequence(requests, x => KeptByStatus(statusFilter, x));
      SubsequenceReflexive(byStatus);
      FilterIsSubsequence(byStatus, x => MatchesQuery(query, x));
      SubsequenceTransitive(r, byStatus, requests);
    }
    FilterMultiplicity(requests, x => KeptByStatus(statusFilter, x));
    FilterMultiplicity(byStatus, x => MatchesQuery(query, x));
    assert forall x | x in requests && x !in byStatus :: multiset(byStatus)[x] == 0;
    r
  }

  /** With neither filter set, the whole fetched list is shown. */
  lemma NoFilterKeepsAll(requests: seq<ListedRequest>)
    ensures FilterRequests(requests, AllFilter, "") == requests
  {
  }

  // -------------------------------------------------------------------------
  // User list: four role tables, tagged and concatenated, then the role filter
  // -------------------------------------------------------------------------

  /** A row of one of the four role tables, as far as the list uses it. */
  datatype ProfileRow = ProfileRow(id: string, fullName: Option<string>, email: Option<string>)

  /** A row with the role of the table it came from. */
  datatype UserEntry = UserEntry(profile: ProfileRow, role: string)

  /** `rows.map(r => ({ ...r, role }))`. */
  function Tag(rows: seq<ProfileRow>, role: Role): (r: seq<UserEntry>)
    ensures |r| == |rows|
    ensures forall i | 0 <= i < |rows| :: r[i] == UserEntry(rows[i], RoleToken(role))
  {
    seq(|rows|, i requires 0 <= i < |rows| => UserEntry(rows[i], RoleToken(role)))
  }

  /** The user list: students, hall admins, security, super admins, in that order; a
      table whose query returned nothing contributes nothing. */
  function AllUsers(students: Option<seq<ProfileRow>>, hallAdmins: Option<seq<ProfileRow>>,
                    security: Option<seq<ProfileRow>>, superAdmins: Option<seq<ProfileRow>>)
    : seq<UserEntry>
  {
    Tag(students.GetOr([]), Student) + Tag(hallAdmins.GetOr([]), HallAdmin)
    + Tag(security.GetOr([]), Security) + Tag(superAdmins.GetOr([]), SuperAdmin)
  }

  /** `users.push(...rows.map(...))`, one row at a time. */
  method PushTagged(users: seq<UserEntry>, rows: seq<ProfileRow>, role: Role)
    returns (users': seq<UserEntry>)
    ensures users' == users + Tag(rows, role)
  {
    users' := users;
    var i := 0;
    while i < |rows|
      invariant 0 <= i <= |rows|
      invariant users' == users + Tag(rows[..i], role)
    {
      assert Tag(rows[..i + 1], role) == Tag(rows[..i], role) + [UserEntry(rows[i], RoleToken(role))];
      users' := users' + [UserEntry(rows[i], RoleToken(role))];
      i := i + 1;
    }
    assert rows[..i] == rows;
  }

  /** Builds the user list by pushing each table's tagged rows in turn. */
  method FetchAllUsers(students: Option<seq<ProfileRow>>, hallAdmins: Option<seq<ProfileRow>>,
                       security: Option<seq<ProfileRow>>, superAdmins: Option<seq<ProfileRow>>)
    returns (users: seq<UserEntry>)
    ensures users == AllUsers(students, hallAdmins, security, superAdmins)
  {
    ghost var a := Tag(students.GetOr([]), Student);
    ghost var b := Tag(hallAdmins.GetOr([]), HallAdmin);
    ghost var c := Tag(security.GetOr([]), Security);
    ghost var d := Tag(superAdmins.GetOr([]), SuperAdmin);
    users := [];
    if students.Some? {
      users := PushTagged(users, students.value, Student);
    }
    assert users == a;
    if hallAdmins.Some? {
      users := PushTagged(users, hallAdmins.value, HallAdmin);
    }
    assert users == a + b;
    if security.Some? {
      users := PushTagged(users, security.value, Security);
    }
    assert users == a + b + c;
    if superAdmins.Some? {
      users := PushTagged(users, superAdmins.value, SuperAdmin);
    }
    assert users == a + b + c + d;
  }

  /** The role filter: "all" keeps everyone, any other value the users with that role,
      each as often as listed, in order. */
  function FilterUsers(users: seq<UserEntry>, roleFilter: string): (r: seq<UserEntry>)
    ensures forall u | u in r :: u in users && (roleFilter == AllFilter || u.role == roleFilter)
    ensures forall u | u in users && (roleFilter == AllFilter || u.role == roleFilter) :: u in r
    ensures IsSubsequence(r, users)
    ensures forall u | u in users ::
      multiset(r)[u] == if roleFilter == AllFilter || u.role == roleFilter then multiset(users)[u] else 0
  {
    if roleFilter != AllFilter then
      FilterIsSubsequence(users, (u: UserEntry) => u.role == roleFilter);
      FilterMultiplicity(users, (u: UserEntry) => u.role == roleFilter);
      Filter(users, (u: UserEntry) => u.role == roleFilter)
    else
      SubsequenceReflexive(users);
      users
  }

  /** Filtering the user list by a role gives back exactly that role's table, in order. */
  lemma {:induction false} FilterByRoleGivesItsTable(
    students: Option<seq<ProfileRow>>, hallAdmins: Option<seq<ProfileRow>>,
    security: Option<seq<ProfileRow>>, superAdmins: Option<seq<ProfileRow>>, role: Role)
    ensures FilterUsers(AllUsers(students, hallAdmins, security, superAdmins), RoleToken(role))
            == Tag(RowsOf(role, students, hallAdmins, security, superAdmins), role)
  {
    var keep := (u: UserEntry) => u.role == RoleToken(role);
    var all := AllUsers(students, hallAdmins, security, superAdmins);
    RoleFilterOfAllUsers(students, hallAdmins, security, superAdmins, role);
    assert FilterUsers(all, RoleToken(role)) == Filter(all, keep);
  }

  lemma {:induction false} RoleFilterOfAllUsers(
    students: Option<seq<ProfileRow>>, hallAdmins: Option<seq<ProfileRow>>,
    security: Option<seq<ProfileRow>>, superAdmins: Option<seq<ProfileRow>>, role: Role)
    ensures Filter(AllUsers(students, hallAdmins, security, superAdmins), (u: UserEntry) => u.role == RoleToken(role))
            == Tag(RowsOf(role, students, hallAdmins, security, superAdmins), role)
  {
    var keep := (u: UserEntry) => u.role == RoleToken(role);
    var a := Tag(students.GetOr([]), Student);
    var b := Tag(hallAdmins.GetOr([]), HallAdmin);
    var c := Tag(security.GetOr([]), Security);
    var d := Tag(superAdmins.GetOr([]), SuperAdmin);
    FilterConcat(a + b + c, d, keep);
    FilterConcat(a + b, c, keep);
    FilterConcat(a, b, keep);
    SegmentFilter(students.GetOr([]), Student, role);
    SegmentFilter(hallAdmins.GetOr([]), HallAdmin, role);
    SegmentFilter(security.GetOr([]), Security, role);
    SegmentFilter(superAdmins.GetOr([]), SuperAdmin, role);
  }

  /** The rows of the table that holds the given role. */
  function RowsOf(role: Role, students: Option<seq<ProfileRow>>, hallAdmins: Option<seq<ProfileRow>>,
                  security: Option<seq<ProfileRow>>, superAdmins: Option<seq<ProfileRow>>)
    : seq<ProfileRow>
  {
    match role
    case Student => students.GetOr([])
    case HallAdmin => hallAdmins.GetOr([])
    case Security => security.GetOr([])
    case SuperAdmin => superAdmins.GetOr([])
  }

  /** One table's tagged rows survive a role filter whole when the roles agree and not at
      all otherwise. */
  lemma SegmentFilter(rows: seq<ProfileRow>, tagged: Role, wanted: Role)
    ensures Filter(Tag(rows, tagged), (u: UserEntry) => u.role == RoleToken(wanted))
            == if tagged == wanted then Tag(rows, tagged) else []
  {
    var keep := (u: UserEntry) => u.role == RoleToken(wanted);
    if tagged == wanted {
      FilterAll(Tag(rows, tagged), keep);
    } else {
      FilterNone(Tag(rows, tagged), keep);
    }
  }

  /** The label shown for a user's role; an unrecognised role is shown as it is. */
  function RoleLabel(role: string): string {
    if role == "student" then "Student"
    else if role == "hall_admin" then "Hall Admin"
    else if role == "security" then "Security"
    else if role == "super_admin" then "Super Admin"
    else role
  }

  /** The four roles get four distinct labels, each different from the role's token; any
      other string is its own label. */
  lemma RoleLabelSpec(role: string)
    ensures ParseRole(role).None? <==> RoleLabel(role) == role
    ensures forall a: Role, b: Role :: a != b ==> RoleLabel(RoleToken(a)) != RoleLabel(RoleToken(b))
  {
  }

  // -------------------------------------------------------------------------
  // Statistics
  // -------------------------------------------------------------------------

  datatype Stats = Stats(totalUsers: nat, totalRequests: nat, pendingRequests: nat, approvedRequests: nat)

  /** The overview cards, from the counts the queries return; a missing count is 0. */
  function StatsFrom(studentsCount: Option<nat>, hallAdminsCount: Option<nat>,
                     securityCount: Option<nat>, superAdminsCount: Option<nat>,
                     requestsCount: Option<nat>, pendingCount: Option<nat>,
                     approvedCount: Option<nat>): Stats
  {
    Stats(
      studentsCount.GetOr(0) + hallAdminsCount.GetOr(0) + securityCount.GetOr(0) + superAdminsCount.GetOr(0),
      requestsCount.GetOr(0), pendingCount.GetOr(0), approvedCount.GetOr(0))
  }

  predicate IsPending(r: ExitRequest) {
    r.status == Pending
  }

  predicate IsApproved(r: ExitRequest) {
    r.status == Approved
  }

  /** When every count query answers, the total-users card equals the length of the user
      list, and the pending and approved cards together never exceed the request total. */
  lemma StatsAgreeWithLists(students: seq<ProfileRow>, hallAdmins: seq<ProfileRow>,
                            security: seq<ProfileRow>, superAdmins: seq<ProfileRow>,
                            table: seq<ExitRequest>)
    ensures var st := StatsFrom(Some(|students|), Some(|hallAdmins|), Some(|security|),
                                Some(|superAdmins|), Some(|table|),
                                Some(Count(table, IsPending)), Some(Count(table, IsApproved)));
      && st.totalUsers == |AllUsers(Some(students), Some(hallAdmins), Some(security), Some(superAdmins))|
      && st.pendingRequests + st.approvedRequests <= st.totalRequests
  {
    CountDisjoint(table, IsPending, IsApproved);
  }
}
