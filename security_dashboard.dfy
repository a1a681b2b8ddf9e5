/** The gate officer's side: looking up a pass, recording exit and return, and the
    recent-activity list. */
module SecurityDashboard {
  import opened Wrappers
  import opened Text
  import opened Collections
  import opened StatusBadge
  import opened ExitRequests

  /** A pass can be used at the gate while approved (to leave) or exited (to come back). */
  predicate Usable(s: Status) {
    s == Approved || s == Exited
  }

  datatype GateButton = MarkExitedButton | MarkReturnedButton

  /** The gate buttons shown under a search result. */
  function GateButtons(s: Status): set<GateButton> {
    (if s == Approved then {MarkExitedButton} else {})
    + (if s == Exited then {MarkReturnedButton} else {})
  }

  /** A gate button is offered exactly for the usable statuses, one button each. */
  lemma GateButtonsOnlyForUsable(s: Status)
    ensures GateButtons(s) != {} <==> Usable(s)
    ensures MarkExitedButton in GateButtons(s) <==> s == Approved
    ensures MarkReturnedButton in GateButtons(s) <==> s == Exited
    ensures |GateButtons(s)| <= 1
  {
    if s == Approved {
      assert GateButtons(s) == {MarkExitedButton};
    } else if s == Exited {
      assert GateButtons(s) == {MarkReturnedButton};
    } else {
      assert GateButtons(s) == {};
    }
  }

  datatype SearchOutcome =
    | SearchSkipped
    | PassNotFound
    | PassFound(usable: bool)

  datatype GateOutcome = NoSelection | Recorded | RecordFailed

  /** q names exactly one row, the one filed under id. */
  ghost predicate SoleMatch(rows: map<Id, ExitRequest>, q: string, id: Id) {
    CredentialMatches(rows, q) == {id}
  }

  /** The verify-passes tab: the typed pass id and the request last looked up. */
  class GatePage {
    var passId: string
    var searchResult: Option<ExitRequest>

    constructor ()
      ensures passId == "" && searchResult == None
    {
      passId := "";
      searchResult := None;
    }

    /** Looks the trimmed pass id up. A blank pass id does nothing at all. A unique match
        becomes the search result, flagged unusable unless approved or exited; anything
        else (no match, several, a failed call) clears the result. */
    method HandleSearch(store: RequestStore, failure: bool) returns (outcome: SearchOutcome)
      requires store.Valid()
      modifies this
      ensures passId == old(passId)
      ensures outcome.SearchSkipped? <==> Trim(passId) == ""
      ensures outcome.SearchSkipped? ==> searchResult == old(searchResult)
      ensures outcome.PassFound? ==>
                && !failure
                && searchResult.Some?
                && SoleMatch(store.rows, Trim(passId), searchResult.value.id)
                && store.rows[searchResult.value.id] == searchResult.value
                && outcome.usable == Usable(searchResult.value.status)
      ensures outcome.PassNotFound? ==> searchResult == None
      ensures Trim(passId) != "" && !failure && (exists id :: SoleMatch(store.rows, Trim(passId), id))
              ==> outcome.PassFound?
    {
      var q := Trim(passId);
      if q == "" {
        return SearchSkipped;
      }
      var found: Option<ExitRequest> := None;
      if !failure {
        found := store.SelectByCredential(q);
      }
      if found.Some? {
        searchResult := found;
        outcome := PassFound(Usable(found.value.status));
      } else {
        searchResult := None;
        outcome := PassNotFound;
      }
    }

    /** Records the exit of the looked-up request: the row's status and update time are
        written, whatever its status; on success the shown status follows and the pass
        id field is cleared. */
    method HandleMarkExited(store: RequestStore, now: Timestamp, failure: bool)
      returns (outcome: GateOutcome)
      requires store.Valid()
      modifies this, store
      ensures store.Valid()
      ensures old(searchResult).None? ==>
                outcome == NoSelection && store.rows == old(store.rows)
                && passId == old(passId) && searchResult == old(searchResult)
      ensures old(searchResult).Some? ==> outcome == (if failure then RecordFailed else Recorded)
      ensures outcome == RecordFailed ==>
                store.rows == old(store.rows) && passId == old(passId)
                && searchResult == old(searchResult)
      ensures outcome == Recorded ==>
                var id := old(searchResult).value.id;
                && store.rows == (if id in old(store.rows)
                                  then old(store.rows)[id := old(store.rows)[id].(status := Exited, updatedAt := now)]
                                  else old(store.rows))
                && searchResult == Some(old(searchResult).value.(status := Exited))
                && passId == ""
    {
      if searchResult.None? {
        return NoSelection;
      }
      var shown := searchResult.value;
      var ok := store.Update(shown.id, ExitedPatch(now), failure);
      if !ok {
        return RecordFailed;
      }
      searchResult := Some(shown.(status := Exited));
      passId := "";
      outcome := Recorded;
    }

    /** Records the return of the looked-up request: status, actual return time and
        update time are written, whatever its status. `returnTime` and `now` are the two
        clock readings the handler takes. */
    method HandleMarkReturned(store: RequestStore, returnTime: Timestamp, now: Timestamp,
                              failure: bool)
      returns (outcome: GateOutcome)
      requires store.Valid()
      modifies this, store
      ensures store.Valid()
      ensures old(searchResult).None? ==>
                outcome == NoSelection && store.rows == old(store.rows)
                && passId == old(passId) && searchResult == old(searchResult)
      ensures old(searchResult).Some? ==> outcome == (if failure then RecordFailed else Recorded)
      ensures outcome == RecordFailed ==>
                store.rows == old(store.rows) && passId == old(passId)
                && searchResult == old(searchResult)
      ensures outcome == Recorded ==>
                var id := old(searchResult).value.id;
                && store.rows == (if id in old(store.rows)
                                  then old(store.rows)[id := old(store.rows)[id].(
                                         status := Returned, actualReturnDate := Some(returnTime),
                                         updatedAt := now)]
                                  else old(store.rows))
                && searchResult == Some(old(searchResult).value.(status := Returned))
                && passId == ""
    {
      if searchResult.None? {
        return NoSelection;
      }
      var shown := searchResult.value;
      var ok := store.Update(shown.id, ReturnedPatch(returnTime, now), failure);
      if !ok {
        return RecordFailed;
      }
      searchResult := Some(shown.(status := Returned));
      passId := "";
      outcome := Recorded;
    }
  }

  // -------------------------------------------------------------------------
  // Recent activity: exited or returned requests, newest update first, at most ten.
  // -------------------------------------------------------------------------

  const RecentLimit: nat := 10

  /** A request that has been through the gate at least once. */
  predicate InGateLog(r: ExitRequest) {
    r.status == Exited || r.status == Returned
  }

  /** The key the list is ordered by. */
  function UpdatedAt(r: ExitRequest): int {
    r.updatedAt
  }

  /** The recent-activity list built from all rows of the table. */
  function RecentActivity(table: seq<ExitRequest>): seq<ExitRequest> {
    TakeAtMost(SortDescending(Filter(table, InGateLog), UpdatedAt), RecentLimit)
  }

  /** The list holds only exited or returned rows of the table, each at most as often as
      it occurs there, newest update first, as many as there are up to ten, and no such row left out was updated later than one
      shown. */
  lemma RecentActivitySpec(table: seq<ExitRequest>)
    ensures var r := RecentActivity(table);
      && |r| == (if Count(table, InGateLog) <= RecentLimit then Count(table, InGateLog) else RecentLimit)
      && multiset(r) <= multiset(Filter(table, InGateLog))
      && (forall x | x in r :: x in table && InGateLog(x))
      && Descending(r, UpdatedAt)
      && (forall x, y | x in table && InGateLog(x) && x !in r && y in r :: UpdatedAt(y) >= UpdatedAt(x))
  {
    var kept := Filter(table, InGateLog);
    var r := TakeAtMost(SortDescending(kept, UpdatedAt), RecentLimit);
    assert RecentActivity(table) == r;
    TopByKey(kept, UpdatedAt, RecentLimit);
    assert forall x | x in table && InGateLog(x) :: x in kept;
  }
}
