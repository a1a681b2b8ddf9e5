/** The hall administrator's side: reviewing pending requests and issuing passes. */
module HallAdminDashboard {
  import opened Wrappers
  import opened Text
  import opened StatusBadge
  import opened ExitRequests

  const CredentialPrefix: string := "CEMS-"

  /** The pass credential issued on approval: the prefix, the request id, a dash and the
      issuing time in milliseconds, written in decimal. */
  function PassCredential(requestId: Id, issuedMs: nat): (c: string)
    ensures |c| > |CredentialPrefix| && c[..|CredentialPrefix|] == CredentialPrefix
  {
    CredentialPrefix + requestId + "-" + NatToDecimal(issuedMs)
  }

  /** Splits a credential back into request id and issuing time: after the prefix, the
      id runs up to the last dash and the time is the digits that follow it. */
  function ParseCredential(c: string): Option<(Id, nat)> {
    if |c| < |CredentialPrefix| || c[..|CredentialPrefix|] != CredentialPrefix then None
    else
      var rest := c[|CredentialPrefix|..];
      match LastIndexOf(rest, '-')
      case None => None
      case Some(k) =>
        var digits := rest[k + 1..];
        if digits != [] && AllDigits(digits) then Some((rest[..k], DecimalToNat(digits)))
        else None
  }

  /** The request id a credential names, if it is well formed. */
  function CredentialOwner(c: string): Option<Id> {
    match ParseCredential(c)
    case Some((id, _)) => Some(id)
    case None => None
  }

  /** Parsing recovers the id and time a credential was made from, even when the id
      itself contains dashes (decimal digits never do). */
  lemma CredentialRoundTrip(requestId: Id, issuedMs: nat)
    ensures ParseCredential(PassCredential(requestId, issuedMs)) == Some((requestId, issuedMs))
  {
    var c := PassCredential(requestId, issuedMs);
    var digits := NatToDecimal(issuedMs);
    var rest := requestId + "-" + digits;
    assert c[|CredentialPrefix|..] == rest;
    assert rest[|requestId|] == '-';
    assert forall j | |requestId| < j < |rest| :: rest[j] == digits[j - |requestId| - 1];
    var k := LastIndexOf(rest, '-');
    assert k == Some(|requestId|);
    assert rest[..|requestId|] == requestId && rest[|requestId| + 1..] == digits;
    DecimalRoundTrip(issuedMs);
  }

  /** Distinct requests never share a credential, whatever their issuing times. */
  lemma CredentialInjective(id1: Id, ms1: nat, id2: Id, ms2: nat)
    requires PassCredential(id1, ms1) == PassCredential(id2, ms2)
    ensures id1 == id2 && ms1 == ms2
  {
    CredentialRoundTrip(id1, ms1);
    CredentialRoundTrip(id2, ms2);
  }

  datatype ReviewButton = ApproveButton | DeclineButton | ViewQrButton

  /** The buttons a request card shows: approve and decline while the request is
      pending, the pass viewer once it is approved with a non-empty credential. */
  function ReviewButtons(r: ExitRequest): set<ReviewButton> {
    (if r.status == Pending then {ApproveButton, DeclineButton} else {})
    + (if r.status == Approved && r.qrCode.Some? && r.qrCode.value != "" then {ViewQrButton} else {})
  }

  /** Which buttons appear depends on the status alone, except the pass viewer, which
      also needs a credential; no card ever offers both a decision and the viewer. */
  lemma ReviewButtonsByStatus(r: ExitRequest)
    ensures ApproveButton in ReviewButtons(r) <==> r.status == Pending
    ensures DeclineButton in ReviewButtons(r) <==> r.status == Pending
    ensures ViewQrButton in ReviewButtons(r) <==> r.status == Approved && r.qrCode.Some? && r.qrCode.value != ""
    ensures !(ApproveButton in ReviewButtons(r) && ViewQrButton in ReviewButtons(r))
  {
  }

  /** The columns approval writes. */
  function ApprovalPatch(requestId: Id, reviewer: UserId, issuedMs: nat, now: Timestamp): Patch {
    ApprovePatch(reviewer, now, PassCredential(requestId, issuedMs))
  }

  /** Approves a request: status, reviewer, review time and a fresh credential, written
      to the row with that id whatever its status. `issuedMs` and `now` are the two
      clock readings the handler takes. */
  method HandleApprove(store: RequestStore, requestId: Id, reviewer: UserId,
                       issuedMs: nat, now: Timestamp, failure: bool)
    returns (ok: bool)
    requires store.Valid()
    modifies store
    ensures store.Valid()
    ensures ok == !failure
    ensures store.rows ==
      if ok && requestId in old(store.rows)
      then old(store.rows)[requestId := old(store.rows)[requestId].(
             status := Approved, reviewedBy := Some(reviewer), reviewedAt := Some(now),
             qrCode := Some(PassCredential(requestId, issuedMs)))]
      else old(store.rows)
  {
    ok := store.Update(requestId, ApprovalPatch(requestId, reviewer, issuedMs, now), failure);
  }

  /** Declines a request: status, reviewer and review time; the credential is not touched. */
  method HandleDecline(store: RequestStore, requestId: Id, reviewer: UserId,
                       now: Timestamp, failure: bool)
    returns (ok: bool)
    requires store.Valid()
    modifies store
    ensures store.Valid()
    ensures ok == !failure
    ensures store.rows ==
      if ok && requestId in old(store.rows)
      then old(store.rows)[requestId := old(store.rows)[requestId].(
             status := Declined, reviewedBy := Some(reviewer), reviewedAt := Some(now))]
      else old(store.rows)
  {
    ok := store.Update(requestId, DeclinePatch(reviewer, now), failure);
  }
}
