/** The `exit_requests` table: its row type, the patches the dashboards write to it,
    and an in-memory store standing for the remote table. */
module ExitRequests {
  import opened Wrappers
  import opened StatusBadge

  type Id = string
  type UserId = string
  /** A point in time in milliseconds since the epoch (ISO-8601 rendering is left out). */
  type Timestamp = nat

  /** One row of `exit_requests`. */
  datatype ExitRequest = ExitRequest(
    id: Id,
    studentId: UserId,
    reason: string,
    destination: string,
    expectedReturnDate: string,
    additionalComments: Option<string>,
    status: Status,
    reviewedBy: Option<UserId>,
    reviewedAt: Option<Timestamp>,
    qrCode: Option<string>,
    actualReturnDate: Option<Timestamp>,
    createdAt: Timestamp,
    updatedAt: Timestamp)

  /** The columns written by one `.update({...})` call of a dashboard handler. */
  datatype Patch =
    | ApprovePatch(reviewer: UserId, reviewTime: Timestamp, credential: string)
    | DeclinePatch(reviewer: UserId, reviewTime: Timestamp)
    | ExitedPatch(exitUpdatedAt: Timestamp)
    | ReturnedPatch(returnTime: Timestamp, returnUpdatedAt: Timestamp)

  /** The status a patch writes. */
  function PatchStatus(p: Patch): Status {
    match p
    case ApprovePatch(_, _, _) => Approved
    case DeclinePatch(_, _) => Declined
    case ExitedPatch(_) => Exited
    case ReturnedPatch(_, _) => Returned
  }

  /** The submitted part of a row: identity, requester and the draft fields. */
  predicate SameSubmission(r: ExitRequest, r': ExitRequest) {
    && r'.id == r.id && r'.studentId == r.studentId
    && r'.reason == r.reason && r'.destination == r.destination
    && r'.expectedReturnDate == r.expectedReturnDate
    && r'.additionalComments == r.additionalComments
    && r'.createdAt == r.createdAt
  }

  /** A row after a patch is written to it. The new status is the patch's, whatever the
      row's current status: the write itself checks nothing. */
  function ApplyPatch(p: Patch, r: ExitRequest): (r': ExitRequest)
    ensures r'.status == PatchStatus(p)
    ensures SameSubmission(r, r')
  {
    match p
    case ApprovePatch(who, at, credential) =>
      r.(status := Approved, reviewedBy := Some(who), reviewedAt := Some(at), qrCode := Some(credential))
    case DeclinePatch(who, at) =>
      r.(status := Declined, reviewedBy := Some(who), reviewedAt := Some(at))
    case ExitedPatch(at) =>
      r.(status := Exited, updatedAt := at)
    case ReturnedPatch(back, at) =>
      r.(status := Returned, actualReturnDate := Some(back), updatedAt := at)
  }

  /** The ids of the rows whose `qr_code` equals q. */
  ghost function CredentialMatches(rows: map<Id, ExitRequest>, q: string): set<Id> {
    set id | id in rows && rows[id].qrCode == Some(q)
  }

  /** The remote table, keyed by request id. A call may fail (the `failure` argument stands
      for the error the client library returns); a failed call changes nothing. */
  class RequestStore {
    var rows: map<Id, ExitRequest>

    /** Every row is filed under its own id. */
    ghost predicate Valid()
      reads this
    {
      forall id | id in rows :: rows[id].id == id
    }

    constructor ()
      ensures Valid() && rows == map[]
    {
      rows := map[];
    }

    /** `insert(row)`: refused when the call fails or the id is already taken. */
    method Insert(r: ExitRequest, failure: bool) returns (ok: bool)
      requires Valid()
      modifies this
      ensures Valid()
      ensures ok == (!failure && r.id !in old(rows))
      ensures rows == if ok then old(rows)[r.id := r] else old(rows)
    {
      ok := !failure && r.id !in rows;
      if ok {
        rows := rows[r.id := r];
      }
    }

    /** `update(patch).eq("id", id)`: writes the patch to the row with that id, if any,
        without looking at its status. Matching no row is not an error. */
    method Update(id: Id, p: Patch, failure: bool) returns (ok: bool)
      requires Valid()
      modifies this
      ensures Valid()
      ensures ok == !failure
      ensures rows == if ok && id in old(rows) then old(rows)[id := ApplyPatch(p, old(rows)[id])]
                      else old(rows)
    {
      ok := !failure;
      if ok && id in rows {
        rows := rows[id := ApplyPatch(p, rows[id])];
      }
    }

    /** `select().eq("qr_code", q).single()`: yields a row only when exactly one row
        carries that credential; none or several is reported as nothing found. */
    method SelectByCredential(q: string) returns (found: Option<ExitRequest>)
      requires Valid()
      ensures found.Some? ==> found.value.id in rows && rows[found.value.id] == found.value
      ensures found.Some? ==> CredentialMatches(rows, q) == {found.value.id}
      ensures found.None? ==> CredentialMatches(rows, q) == {}
                              || exists a, b :: a in CredentialMatches(rows, q)
                                                && b in CredentialMatches(rows, q) && a != b
    {
      var remaining := rows.Keys;
      var first: Option<Id> := None;
      var several := false;
      ghost var hits: set<Id> := {};
      while remaining != {}
        invariant remaining <= rows.Keys
        invariant hits == CredentialMatches(rows, q) - remaining
        invariant !several ==> (first.None? <==> hits == {})
        invariant !several && first.Some? ==> hits == {first.value}
        invariant several ==> exists a, b :: a in hits && b in hits && a != b
        decreases remaining
      {
        var id :| id in remaining;
        if rows[id].qrCode == Some(q) {
          if first.Some? {
            several := true;
          } else {
            first := Some(id);
          }
          hits := hits + {id};
        }
        remaining := remaining - {id};
      }
      if !several && first.Some? {
        found := Some(rows[first.value]);
      } else {
        found := None;
      }
    }
  }
}
