# Campus exit gate: the exit-request lifecycle in Dafny

The application coordinates leaving campus. A student files an exit request. A hall
administrator approves it, which issues a pass credential, or declines it. A security
officer at the gate looks the pass up and records the student's exit and later return.
A super administrator watches everything through read-only lists and counts.

There is no separate engine module in the source. The lifecycle lives in the role
dashboards: their handlers write `exit_requests` rows, and their render conditions decide
which buttons appear. The model keeps those two layers apart, as the code does:

- **Writes** (`ExitRequests.RequestStore.Update` with a `Patch`) stand for
  `update({...}).eq("id", id)`. They never look at the row's current status.
- **Guards** (`HallAdminDashboard.ReviewButtons`, `SecurityDashboard.GateButtons`) are the
  conditions under which a button is rendered.

`Lifecycle` then proves that a shown button followed by its unchecked write moves a row
only along pending→approved, pending→declined, approved→exited or exited→returned. It
also proves that every such edge has a button. A row reached this way stays
`Consistent`: reviewer and review time are set together, a credential naming the row
exists exactly from approval on, and the actual return time exists exactly once
returned. In such a table no two requests share a credential, and looking a credential
up finds its own row.

Modules follow the source files: `StudentDashboard`, `HallAdminDashboard`,
`SecurityDashboard`, `SuperAdminDashboard`, `StatusBadge` and `Dashboard`. Shared
pieces live in `ExitRequests` (the row type, the patches and the table as a class over
`map<Id, ExitRequest>`), `Roles`, `Text` (JavaScript `trim`, decimal numerals,
`lastIndexOf`, case mapping, `includes`), `Collections` (`filter`, subsequences, counts,
ordering by a key) and `Wrappers` (`Option`).

Modelling choices:
- Clock readings are `nat` parameters in milliseconds. Where a handler reads the clock
  twice, the model has two parameters: `Date.now()` for the credential and `new Date()`
  for `reviewed_at`, or `actual_return_date` and `updated_at`.
- A failing remote call is a `failure: bool` parameter. On failure nothing changes and
  the handler reports the error.
- Table-assigned values are parameters: the new row's `id` and its `created_at` and
  `updated_at`.
- The signed-in user is a parameter of the writing handlers, always present. The
  dashboards that write are rendered only when a role is stored. The role is stored only
  by a lookup for a signed-in user, but it survives a sign-out
  (`Dashboard.SignOutKeepsStaleRole`). The handlers' behaviour in that render, with no
  user, is not modelled; see "## Left out".
- The UI lists are snapshots. The guarded compositions in `Lifecycle` therefore require
  that the shown status is the stored one.

The model follows what the code does:
- Every status write is unconditional. Which changes are legal is decided only by the
  buttons that are rendered.
- There is no one-active-request rule and no hall-required rule. There are no edit and
  withdraw operations.
- A write whose id matches no row succeeds silently. The handler reports success.
- The role lookup does not clear its stored role when the user signs out. For one render
  the dashboard of the previous role is still shown, alongside the redirect to sign-in
  (`Dashboard.SignOutKeepsStaleRole`).

## Model

| member | source | states |
|---|---|---|
| `StatusBadge.ParseStatus` | src/components/StatusBadge.tsx:3 | a status string is one of the five statuses exactly when it is one of the five lowercase tokens |
| `StatusBadge.TokenRoundTrip` | src/components/StatusBadge.tsx:3 | distinct statuses have distinct tokens, and parsing a token gives its status back |
| `StatusBadge.VariantsDistinct` | src/components/StatusBadge.tsx:10-16 | every status has a style entry, and no two statuses share one |
| `StatusBadge.Capitalize` | src/components/StatusBadge.tsx:20 | the label text keeps the length, uppercases the first character and leaves the rest unchanged |
| `StatusBadge.Label` | src/components/StatusBadge.tsx:20 | a badge label has the token's length and starts with a capital; lowercasing that capital gives back the stored token |
| `StatusBadge.LabelValues` | src/components/StatusBadge.tsx:20 | the labels are "Pending", "Approved", "Declined", "Exited" and "Returned", pairwise distinct |
| `Roles.ParseRole` | src/hooks/useUserRole.tsx:4 | a role string names a role exactly when it is one of the four role tokens |
| `ExitRequests.ApplyPatch` | src/pages/HallAdminDashboard.tsx:51-59 | a write sets the status its patch names, whatever the row's current status, and never changes the id, requester, draft fields or creation time |
| `ExitRequests.RequestStore.Insert` | src/pages/StudentDashboard.tsx:64-73 | an insert adds the row under its id unless the call fails or the id is taken; then the table is unchanged |
| `ExitRequests.RequestStore.Update` | src/pages/HallAdminDashboard.tsx:51-59 | an update rewrites only the row with the given id, with no status check; no matching row is still a success |
| `ExitRequests.RequestStore.SelectByCredential` | src/pages/SecurityDashboard.tsx:49-56 | a single-row lookup yields a row exactly when one row carries the credential; no match and several matches both yield nothing |
| `StudentDashboard.IssuesFrom` | src/pages/StudentDashboard.tsx:19-24 | the schema issues from a given rule on are exactly the broken rules, in schema order |
| `StudentDashboard.Issues` | src/pages/StudentDashboard.tsx:19-24 | a draft raises no issue iff its reason has 5 to 200 characters, its destination 3 to 100, its return date is non-empty and its comments have at most 500 |
| `StudentDashboard.FirstIssue` | src/pages/StudentDashboard.tsx:89-94 | with `Message` giving each rule's text (lines 20-23), the reported issue is a broken rule, and every rule checked before it holds |
| `StudentDashboard.NewRequest` | src/pages/StudentDashboard.tsx:64-71 | a new row is pending for the current user, copies reason and destination, stores an empty comment as null, and has no reviewer, pass or return time |
| `StudentDashboard.RequestForm.HandleSubmit` | src/pages/StudentDashboard.tsx:58-103 | an invalid draft reports the first issue's message and inserts nothing; a valid one is inserted as pending and the four fields reset to ""; any failure leaves table and form unchanged |
| `HallAdminDashboard.PassCredential` | src/pages/HallAdminDashboard.tsx:49 | a credential is non-empty and starts with "CEMS-" |
| `HallAdminDashboard.CredentialRoundTrip` | src/pages/HallAdminDashboard.tsx:49 | splitting a credential at its last '-' recovers the request id and the issuing time, even for ids that contain dashes |
| `HallAdminDashboard.CredentialInjective` | src/pages/HallAdminDashboard.tsx:49 | equal credentials come from the same request id and the same time, so distinct requests never share one |
| `HallAdminDashboard.ReviewButtonsByStatus` | src/pages/HallAdminDashboard.tsx:176-208 | for the card's buttons `ReviewButtons`: Approve and Decline are shown iff the status is pending; View QR Code iff approved with a non-empty credential; never both kinds |
| `HallAdminDashboard.HandleApprove` | src/pages/HallAdminDashboard.tsx:48-74 | approval writes status approved, reviewer, review time and the credential for that id to that row only, whatever its status |
| `HallAdminDashboard.HandleDecline` | src/pages/HallAdminDashboard.tsx:76-99 | declining writes status declined, reviewer and review time to that row only, and leaves the credential alone |
| `SecurityDashboard.GateButtonsOnlyForUsable` | src/pages/SecurityDashboard.tsx:204-216 | for the result card's buttons `GateButtons`: Mark as Exited is shown iff approved and Mark as Returned iff exited; a button is shown iff the pass is usable; never both |
| `SecurityDashboard.GatePage.HandleSearch` | src/pages/SecurityDashboard.tsx:44-76 | a blank pass id does nothing; otherwise the trimmed id is looked up exactly; a unique match becomes the result, flagged unless approved or exited; anything else clears the result |
| `SecurityDashboard.GatePage.HandleMarkExited` | src/pages/SecurityDashboard.tsx:78-104 | with no result nothing happens; otherwise only status exited and the update time are written to that row, and on success the shown status is exited and the pass id is cleared |
| `SecurityDashboard.GatePage.HandleMarkReturned` | src/pages/SecurityDashboard.tsx:106-133 | with no result nothing happens; otherwise status returned, actual return time and update time are written, and on success the shown status is returned and the pass id is cleared |
| `SecurityDashboard.RecentActivitySpec` | src/pages/SecurityDashboard.tsx:28-42 | the recent-activity list `RecentActivity` holds only exited or returned rows, none listed more often than it is stored, newest update first, as many as exist up to 10, and no omitted row is newer than a shown one |
| `Collections.TopByKey` | src/pages/SecurityDashboard.tsx:35-37 | ordering by a key and limiting to n keeps n elements (or all), a sub-multiset of the input, in order, and leaves out none larger than one kept |
| `Collections.InsertDescending` | src/pages/SecurityDashboard.tsx:36 | inserting into an ordered list adds exactly that element |
| `Collections.SortDescending` | src/pages/SecurityDashboard.tsx:36 | ordering by a key, largest first, is an ordered permutation of its input |
| `Collections.Filter` | src/pages/SuperAdminDashboard.tsx:41 | a filter keeps exactly the elements that satisfy its predicate |
| `Collections.FilterMultiplicity` | src/pages/SuperAdminDashboard.tsx:41 | a kept element appears in a filter's result exactly as often as in the input, and any other element not at all |
| `Collections.FilterIsSubsequence` | src/pages/SuperAdminDashboard.tsx:38-50 | a filter's result is an order-preserving subsequence of its input |
| `Text.TrimEmptyIffBlank` | src/pages/SecurityDashboard.tsx:46 | a pass id trims to "" exactly when it is empty or all whitespace |
| `Text.Includes` | src/pages/SuperAdminDashboard.tsx:45-47 | `includes` holds exactly when the query occurs at some position of the text |
| `SuperAdminDashboard.FilterRequests` | src/pages/SuperAdminDashboard.tsx:38-51 | a request is listed iff the status filter is "all" or equals its status, and the query is empty or occurs, lowercased, in the student name, destination or reason; each listed request appears as often as fetched, in fetched order |
| `SuperAdminDashboard.NoFilterKeepsAll` | src/pages/SuperAdminDashboard.tsx:38-51 | with filter "all" and an empty query the fetched list is shown unchanged |
| `SuperAdminDashboard.Tag` | src/pages/SuperAdminDashboard.tsx:126 | tagging keeps every row, in order, and gives each its table's role |
| `SuperAdminDashboard.PushTagged` | src/pages/SuperAdminDashboard.tsx:126 | pushing a table's tagged rows appends exactly them to the list |
| `SuperAdminDashboard.FetchAllUsers` | src/pages/SuperAdminDashboard.tsx:119-152 | the user list is students, hall admins, security, then super admins, each tagged with its table's role; a failed query adds nothing |
| `SuperAdminDashboard.FilterUsers` | src/pages/SuperAdminDashboard.tsx:53-59 | role filter "all" keeps every user; any other value keeps exactly the users with that role, each as often as listed, in order |
| `SuperAdminDashboard.FilterByRoleGivesItsTable` | src/pages/SuperAdminDashboard.tsx:53-59 | filtering the fetched user list by a role gives back exactly that role's table |
| `SuperAdminDashboard.SegmentFilter` | src/pages/SuperAdminDashboard.tsx:56 | one table's tagged rows pass a role filter whole or not at all |
| `SuperAdminDashboard.RoleLabelSpec` | src/pages/SuperAdminDashboard.tsx:154-161 | under `RoleLabel`, the four roles get four distinct fixed labels; any other string is returned unchanged, and only those are |
| `SuperAdminDashboard.StatsAgreeWithLists` | src/pages/SuperAdminDashboard.tsx:61-100 | in the statistics `StatsFrom` builds, total users, with missing counts taken as 0, equals the length of the user list when all counts are present; pending plus approved never exceed total requests |
| `Collections.CountDisjoint` | src/pages/SuperAdminDashboard.tsx:85-93 | counts of two exclusive properties add up to at most the number of rows |
| `Dashboard.DashboardViewSpec` | src/pages/Dashboard.tsx:21-58 | in the rendered view `DashboardView`, loading wins; a null or empty role shows the no-role view; a dashboard is shown only for its own role; any other role string shows the unknown-role view |
| `Dashboard.EachRoleHasItsDashboard` | src/pages/Dashboard.tsx:42-50 | each of the four roles reaches exactly its own dashboard, and no two share one |
| `Dashboard.LookupEffect` | src/hooks/useUserRole.tsx:10-27 | a finished lookup stops loading; it stores the fetched role only when there is a user and the query succeeded, and otherwise keeps the stored role |
| `Dashboard.NoUserStoresNoRole` | src/hooks/useUserRole.tsx:11-14 | lookups without a user leave the stored role as it was and end the loading state |
| `Dashboard.NeverSignedInSeesNoDashboard` | src/pages/Dashboard.tsx:15-40 | a visitor never signed in during the visit sees no dashboard; once the lookup has run and authentication settled, they get the no-role view and are redirected to sign-in |
| `Dashboard.SignOutKeepsStaleRole` | src/hooks/useUserRole.tsx:11-14 | after a sign-out the previous role stays stored, so the page renders that role's dashboard while the redirect to sign-in is due |
| `Lifecycle.OfferedByStatus` | src/pages/HallAdminDashboard.tsx:176 | approve and decline are offered iff pending, mark-exited iff approved, mark-returned iff exited |
| `Lifecycle.OfferedActionFollowsEdge` | src/pages/SecurityDashboard.tsx:204-216 | a shown button followed by its unchecked write moves the row along one of the four edges |
| `Lifecycle.EveryEdgeIsOffered` | src/pages/HallAdminDashboard.tsx:176-196 | every edge is offered from its source state, and its write lands in its target state |
| `Lifecycle.TerminalStatesOfferNothing` | src/pages/SecurityDashboard.tsx:204-216 | declined and returned requests offer no action at all |
| `Lifecycle.UncheckedWriteCanLeaveTheLifecycle` | src/pages/HallAdminDashboard.tsx:77-84 | the decline write on a returned row gives a declined row, which is no edge; only the missing button prevents it |
| `Lifecycle.SubmittedRowIsConsistent` | src/pages/StudentDashboard.tsx:64-71 | a new row is consistent: no reviewer, no credential, no return time |
| `Lifecycle.OfferedActionKeepsConsistent` | src/pages/HallAdminDashboard.tsx:51-58 | offered actions keep reviewer and time paired, the credential present exactly from approval and naming its row, and the return time exactly once returned |
| `Lifecycle.CredentialsAreUnique` | src/pages/HallAdminDashboard.tsx:49 | in a consistent table two rows with the same credential are the same row |
| `Lifecycle.CredentialLooksUpItsRow` | src/pages/SecurityDashboard.tsx:55 | in a consistent table a row's credential matches that row and no other |
| `Lifecycle.InsertKeepsStoreConsistent` | src/pages/StudentDashboard.tsx:64 | adding a consistent row keeps the table consistent |
| `Lifecycle.Submit` | src/pages/StudentDashboard.tsx:58-87 | a submission keeps the table consistent; on success it adds the new pending row under an id not yet taken and changes no existing row, otherwise nothing |
| `Lifecycle.Review` | src/pages/HallAdminDashboard.tsx:176-196 | clicking a shown review button keeps the table consistent and moves only that row, along an edge |
| `Lifecycle.Search` | src/pages/SecurityDashboard.tsx:58-74 | a search leaves the gate page showing the stored status of its result |
| `Lifecycle.Gate` | src/pages/SecurityDashboard.tsx:204-216 | clicking a shown gate button keeps the table consistent, moves only that row along an edge, and the page still shows the stored status |

## Left out

- Remote I/O: the client library itself and its transport. The table is an in-memory
  map. Joined columns (the student's name) are inputs. Filters, ordering, limits and
  exact counts are modelled as functions on the rows they query.
- Time: clocks are parameters. ISO-8601 rendering, `date-fns` formatting and the
  conversion of the return date are left out. The converted return date arrives as a
  parameter that is None when the conversion throws.
- Presentation: toasts, dialogs, tabs, loading spinners, list refreshes after an
  action, QR image rendering and icons.
- Files not modelled: the profile section (fetch and update of profile fields), the
  landing page and the layout. The role lookup hook is modelled by `Dashboard.LookupEffect`
  and `Dashboard.RunLookups`. The `role` and `roleLoading` inputs of
  `Dashboard.DashboardView` are the fields of the state that `RunLookups` produces.
- Concurrency and stale snapshots. `Lifecycle.Review` and `Lifecycle.Gate` require that
  the shown status is the stored one. With another writer in between, an unchecked write
  could leave the lifecycle (`Lifecycle.UncheckedWriteCanLeaveTheLifecycle`).
- Validation lengths count characters, not UTF-16 code units.
- The too-long messages use the validation library's default wording.
- Text.Lower: maps only ASCII `A`–`Z`. The browser's `toLowerCase` also maps other
  letters, so the search filter is modelled exactly only for ASCII text.
- Text.UpperChar: maps only ASCII `a`–`z`, unlike `toUpperCase`, which can also change a
  string's length (`ß` becomes `SS`). `StatusBadge.Capitalize` applies it only to
  the five ASCII status tokens, where the two agree.
- The new row's `student_id` is the signed-in user's id. The case where that id is
  undefined is not modelled.
- HallAdminDashboard.HandleApprove and HallAdminDashboard.HandleDecline: the reviewer is
  always a user id. With no user, as in the stale render after a sign-out,
  `reviewed_by: user?.id` is undefined and the client drops that key. The write then sets
  `reviewed_at` without `reviewed_by`, which breaks the reviewer/time pairing of
  `Lifecycle.Consistent`. That write is not modelled, so `Lifecycle.Review` assumes a
  signed-in reviewer.
