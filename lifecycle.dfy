/** The exit-request lifecycle as the dashboards enforce it together: the buttons decide
    which transitions are offered, the handlers write without checking. Offered
    transitions follow exactly the edges pending→approved, pending→declined,
    approved→exited and exited→returned. */
module Lifecycle {
  import opened Wrappers
  import opened StatusBadge
  import opened ExitRequests
  import opened StudentDashboard
  import opened HallAdminDashboard
  import opened SecurityDashboard

  /** The lifecycle's edges. */
  predicate IsEdge(from: Status, to: Status) {
    || (from == Pending && to == Approved)
    || (from == Pending && to == Declined)
    || (from == Approved && to == Exited)
    || (from == Exited && to == Returned)
  }

  /** The state-changing buttons across the hall-admin and gate dashboards. */
  datatype Action = Approve | Decline | MarkExited | MarkReturned

  /** The actions a row's status makes available: the review buttons of its card and the
      gate buttons of its search result. */
  function Offered(r: ExitRequest): set<Action> {
    (if ApproveButton in ReviewButtons(r) then {Approve} else {})
    + (if DeclineButton in ReviewButtons(r) then {Decline} else {})
    + (if MarkExitedButton in GateButtons(r.status) then {MarkExited} else {})
    + (if MarkReturnedButton in GateButtons(r.status) then {MarkReturned} else {})
  }

  /** Which actions are offered, status by status. */
  lemma OfferedByStatus(r: ExitRequest)
    ensures Approve in Offered(r) <==> r.status == Pending
    ensures Decline in Offered(r) <==> r.status == Pending
    ensures MarkExited in Offered(r) <==> r.status == Approved
    ensures MarkReturned in Offered(r) <==> r.status == Exited
  {
    ReviewButtonsByStatus(r);
    GateButtonsOnlyForUsable(r.status);
  }

  /** The clock readings a handler takes. */
  datatype Clock = Clock(issuedMs: nat, now: Timestamp, returnTime: Timestamp)

  /** The patch each action's handler writes to the row. */
  function PatchFor(a: Action, r: ExitRequest, actor: UserId, t: Clock): Patch {
    match a
    case Approve => ApprovalPatch(r.id, actor, t.issuedMs, t.now)
    case Decline => DeclinePatch(actor, t.now)
    case MarkExited => ExitedPatch(t.now)
    case MarkReturned => ReturnedPatch(t.returnTime, t.now)
  }

  /** The row after the action's handler wrote to it. */
  function Perform(a: Action, r: ExitRequest, actor: UserId, t: Clock): ExitRequest {
    ApplyPatch(PatchFor(a, r, actor, t), r)
  }

  /** An offered action followed by its unchecked write moves the row along an edge. */
  lemma OfferedActionFollowsEdge(a: Action, r: ExitRequest, actor: UserId, t: Clock)
    requires a in Offered(r)
    ensures IsEdge(r.status, Perform(a, r, actor, t).status)
  {
    OfferedByStatus(r);
  }

  /** The action that takes a row along an edge. */
  function EdgeAction(from: Status, to: Status): Action
    requires IsEdge(from, to)
  {
    if to == Approved then Approve
    else if to == Declined then Decline
    else if to == Exited then MarkExited
    else MarkReturned
  }

  /** Every edge is offered: from any row in the edge's source state some dashboard shows
      the button whose write lands in the edge's target state. */
  lemma EveryEdgeIsOffered(r: ExitRequest, to: Status, actor: UserId, t: Clock)
    requires IsEdge(r.status, to)
    ensures EdgeAction(r.status, to) in Offered(r)
    ensures Perform(EdgeAction(r.status, to), r, actor, t).status == to
  {
    OfferedByStatus(r);
  }

  /** Declined and returned are terminal: no dashboard offers anything for them. */
  lemma TerminalStatesOfferNothing(r: ExitRequest)
    requires r.status == Declined || r.status == Returned
    ensures Offered(r) == {}
  {
    OfferedByStatus(r);
  }

  /** The writes alone do not enforce the lifecycle: the decline write applied to a
      returned row yields a declined row, which is no edge. Only the buttons stand in
      the way. */
  lemma UncheckedWriteCanLeaveTheLifecycle(r: ExitRequest, actor: UserId, t: Clock)
    requires r.status == Returned
    ensures !IsEdge(r.status, Perform(Decline, r, actor, t).status)
    ensures Decline !in Offered(r)
  {
    TerminalStatesOfferNothing(r);
  }

  // -------------------------------------------------------------------------
  // What a row looks like at each status, when it got there by offered actions
  // -------------------------------------------------------------------------

  /** Reviewer and review time are set together, exactly once the row left pending; a
      credential naming the row exists exactly once it was approved; the actual return
      time exactly once it was returned. */
  predicate Consistent(r: ExitRequest) {
    && (r.reviewedBy.Some? <==> r.reviewedAt.Some?)
    && (r.reviewedBy.None? <==> r.status == Pending)
    && (r.qrCode.Some? <==> (r.status == Approved || r.status == Exited || r.status == Returned))
    && (r.qrCode.Some? ==> CredentialOwner(r.qrCode.value) == Some(r.id))
    && (r.actualReturnDate.Some? <==> r.status == Returned)
  }

  lemma SubmittedRowIsConsistent(id: Id, student: UserId, d: FormData, returnIso: string, now: Timestamp)
    ensures Consistent(NewRequest(id, student, d, returnIso, now))
  {
  }

  lemma OfferedActionKeepsConsistent(a: Action, r: ExitRequest, actor: UserId, t: Clock)
    requires Consistent(r) && a in Offered(r)
    ensures Consistent(Perform(a, r, actor, t))
  {
    OfferedByStatus(r);
    var r' := Perform(a, r, actor, t);
    match a
    case Approve =>
      CredentialRoundTrip(r.id, t.issuedMs);
      assert r'.qrCode == Some(PassCredential(r.id, t.issuedMs));
    case Decline =>
    case MarkExited =>
    case MarkReturned =>
  }

  /** Every row is filed under its id and consistent. */
  ghost predicate StoreConsistent(rows: map<Id, ExitRequest>) {
    forall id | id in rows :: rows[id].id == id && Consistent(rows[id])
  }

  /** In a consistent table no credential is shared by two requests. */
  lemma CredentialsAreUnique(rows: map<Id, ExitRequest>, i: Id, j: Id)
    requires StoreConsistent(rows)
    requires i in rows && j in rows && rows[i].qrCode.Some? && rows[i].qrCode == rows[j].qrCode
    ensures i == j
  {
  }

  /** So looking a row's credential up finds that row and no other. */
  lemma CredentialLooksUpItsRow(rows: map<Id, ExitRequest>, id: Id)
    requires StoreConsistent(rows) && id in rows && rows[id].qrCode.Some?
    ensures CredentialMatches(rows, rows[id].qrCode.value) == {id}
  {
    forall j | j in CredentialMatches(rows, rows[id].qrCode.value) ensures j == id {
      CredentialsAreUnique(rows, j, id);
    }
  }

  lemma InsertKeepsStoreConsistent(rows: map<Id, ExitRequest>, r: ExitRequest)
    requires StoreConsistent(rows) && Consistent(r)
    ensures StoreConsistent(rows[r.id := r])
  {
  }

  // -------------------------------------------------------------------------
  // The dashboards in use: a button is only clicked when it is shown
  // -------------------------------------------------------------------------

  /** Each row either stayed as it was or moved along one edge. */
  ghost predicate StepsAlongEdges(before: map<Id, ExitRequest>, after: map<Id, ExitRequest>) {
    && after.Keys == before.Keys
    && forall k | k in after :: after[k] == before[k] || IsEdge(before[k].status, after[k].status)
  }

  /** A submission keeps the table consistent and at most adds one new pending row under
      an id not yet taken; no existing row changes. */
  method Submit(form: RequestForm, store: RequestStore, user: UserId, newId: Id,
                returnIso: Option<string>, now: Timestamp, failure: bool)
    returns (outcome: SubmitOutcome)
    requires store.Valid() && StoreConsistent(store.rows)
    modifies form, store
    ensures store.Valid() && StoreConsistent(store.rows)
    ensures outcome.Submitted? ==>
      && returnIso.Some? && newId !in old(store.rows)
      && store.rows == old(store.rows)[newId := NewRequest(newId, user, old(form.formData), returnIso.value, now)]
    ensures !outcome.Submitted? ==> store.rows == old(store.rows)
  {
    ghost var d := form.formData;
    outcome := form.HandleSubmit(store, user, newId, returnIso, now, failure);
    if outcome.Submitted? {
      SubmittedRowIsConsistent(newId, user, d, returnIso.value, now);
    }
  }

  /** A click on a shown review button of the card for row `id`. */
  method Review(store: RequestStore, id: Id, a: Action, reviewer: UserId, t: Clock, failure: bool)
    returns (ok: bool)
    requires store.Valid() && StoreConsistent(store.rows)
    requires id in store.rows && (a == Approve || a == Decline) && a in Offered(store.rows[id])
    modifies store
    ensures store.Valid() && StoreConsistent(store.rows)
    ensures StepsAlongEdges(old(store.rows), store.rows)
    ensures store.rows == if ok then old(store.rows)[id := Perform(a, old(store.rows)[id], reviewer, t)]
                          else old(store.rows)
  {
    ghost var r := store.rows[id];
    if a == Approve {
      ok := HandleApprove(store, id, reviewer, t.issuedMs, t.now, failure);
    } else {
      ok := HandleDecline(store, id, reviewer, t.now, failure);
    }
    OfferedActionFollowsEdge(a, r, reviewer, t);
    OfferedActionKeepsConsistent(a, r, reviewer, t);
  }

  /** The gate page shows the current status of the request it looked up. */
  ghost predicate ShowsCurrent(page: GatePage, store: RequestStore)
    reads page, store
  {
    page.searchResult.Some? ==>
      && page.searchResult.value.id in store.rows
      && store.rows[page.searchResult.value.id].status == page.searchResult.value.status
  }

  /** A successful search leaves the page showing the current row. */
  method Search(page: GatePage, store: RequestStore, failure: bool) returns (outcome: SearchOutcome)
    requires store.Valid() && ShowsCurrent(page, store)
    modifies page
    ensures ShowsCurrent(page, store)
  {
    outcome := page.HandleSearch(store, failure);
  }

  /** A click on a shown gate button under the search result. The gate writes record no
      officer, so the actor passed to Perform is immaterial. */
  method Gate(page: GatePage, store: RequestStore, a: Action, officerClock: Clock, failure: bool)
    returns (outcome: GateOutcome)
    requires store.Valid() && StoreConsistent(store.rows) && ShowsCurrent(page, store)
    requires page.searchResult.Some? && (a == MarkExited || a == MarkReturned)
    requires a in Offered(page.searchResult.value)
    modifies page, store
    ensures store.Valid() && StoreConsistent(store.rows) && ShowsCurrent(page, store)
    ensures StepsAlongEdges(old(store.rows), store.rows)
    ensures outcome == Recorded ==>
              var id := old(page.searchResult).value.id;
              store.rows == old(store.rows)[id := Perform(a, old(store.rows)[id], "", officerClock)]
    ensures outcome != Recorded ==> store.rows == old(store.rows)
  {
    ghost var id := page.searchResult.value.id;
    ghost var r := store.rows[id];
    assert Offered(r) == Offered(page.searchResult.value);
    if a == MarkExited {
      outcome := page.HandleMarkExited(store, officerClock.now, failure);
    } else {
      outcome := page.HandleMarkReturned(store, officerClock.returnTime, officerClock.now, failure);
    }
    OfferedActionFollowsEdge(a, r, "", officerClock);
    OfferedActionKeepsConsistent(a, r, "", officerClock);
  }
}
