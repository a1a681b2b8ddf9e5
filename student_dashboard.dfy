/** The student's side: the request form, its schema and the submission handler. */
module StudentDashboard {
  import opened Wrappers
  import opened StatusBadge
  import opened ExitRequests

  /** The form state; every field is a string, "" when left blank. */
  datatype FormData = FormData(
    reason: string,
    destination: string,
    expectedReturnDate: string,
    additionalComments: string)

  const EmptyForm := FormData("", "", "", "")

  /** One rule of the request schema, in the order the schema checks them. */
  datatype Issue =
    | ReasonTooShort | ReasonTooLong
    | DestinationTooShort | DestinationTooLong
    | ReturnDateMissing
    | CommentsTooLong

  /** Position of a rule in the schema: field order, and a field's minimum before its maximum. */
  function Rank(i: Issue): nat {
    match i
    case ReasonTooShort => 0
    case ReasonTooLong => 1
    case DestinationTooShort => 2
    case DestinationTooLong => 3
    case ReturnDateMissing => 4
    case CommentsTooLong => 5
  }

  /** Whether the draft breaks rule i. */
  predicate Violates(d: FormData, i: Issue) {
    match i
    case ReasonTooShort => |d.reason| < 5
    case ReasonTooLong => |d.reason| > 200
    case DestinationTooShort => |d.destination| < 3
    case DestinationTooLong => |d.destination| > 100
    case ReturnDateMissing => |d.expectedReturnDate| < 1
    case CommentsTooLong => |d.additionalComments| > 500
  }

  /** The bounds the schema imposes, stated directly. */
  predicate ValidDraft(d: FormData) {
    && 5 <= |d.reason| <= 200
    && 3 <= |d.destination| <= 100
    && |d.expectedReturnDate| >= 1
    && |d.additionalComments| <= 500
  }

  /** The rule of a given rank. */
  function IssueAt(k: nat): (i: Issue)
    requires k < 6
    ensures Rank(i) == k
  {
    [ReasonTooShort, ReasonTooLong, DestinationTooShort, DestinationTooLong,
     ReturnDateMissing, CommentsTooLong][k]
  }

  /** The issues of rank k and above that the draft raises, in schema order. */
  function IssuesFrom(d: FormData, k: nat): (issues: seq<Issue>)
    requires k <= 6
    ensures forall j | 0 <= j < |issues| :: Rank(issues[j]) >= k
    ensures forall i :: i in issues <==> Violates(d, i) && Rank(i) >= k
    ensures forall j, l | 0 <= j < l < |issues| :: Rank(issues[j]) < Rank(issues[l])
    decreases 6 - k
  {
    if k == 6 then []
    else
      var rest := IssuesFrom(d, k + 1);
      assert forall i :: Rank(i) >= k ==> Rank(i) >= k + 1 || i == IssueAt(k);
      if Violates(d, IssueAt(k)) then [IssueAt(k)] + rest else rest
  }

  /** All the issues the schema reports for a draft, in schema order. */
  function Issues(d: FormData): (issues: seq<Issue>)
    ensures issues == [] <==> ValidDraft(d)
    ensures forall i :: i in issues <==> Violates(d, i)
    ensures forall j, k | 0 <= j < k < |issues| :: Rank(issues[j]) < Rank(issues[k])
  {
    var issues := IssuesFrom(d, 0);
    assert ValidDraft(d) <==> forall i: Issue :: !Violates(d, i) by {
      assert !Violates(d, ReasonTooShort) && !Violates(d, ReasonTooLong)
             && !Violates(d, DestinationTooShort) && !Violates(d, DestinationTooLong)
             && !Violates(d, ReturnDateMissing) && !Violates(d, CommentsTooLong)
             ==> ValidDraft(d);
    }
    issues
  }

  /** The text shown for an issue: the schema's own messages for the minimums, the
      validation library's default wording for the maximums. */
  function Message(i: Issue): string {
    match i
    case ReasonTooShort => "Reason must be at least 5 characters"
    case ReasonTooLong => "String must contain at most 200 character(s)"
    case DestinationTooShort => "Destination must be at least 3 characters"
    case DestinationTooLong => "String must contain at most 100 character(s)"
    case ReturnDateMissing => "Return date is required"
    case CommentsTooLong => "String must contain at most 500 character(s)"
  }

  /** The one issue the user is told about: the first in schema order. */
  function FirstIssue(d: FormData): (r: Option<Issue>)
    ensures r.None? <==> ValidDraft(d)
    ensures r.Some? ==> Violates(d, r.value)
    ensures r.Some? ==> forall j :: Rank(j) < Rank(r.value) ==> !Violates(d, j)
  {
    var issues := Issues(d);
    if issues == [] then None
    else
      assert forall j :: Violates(d, j) ==> j in issues;
      Some(issues[0])
  }

  /** The row inserted for a validated draft. The expected return arrives already
      converted to ISO form; an empty comment is stored as null. */
  function NewRequest(id: Id, student: UserId, d: FormData, returnIso: string, now: Timestamp)
    : (r: ExitRequest)
    ensures r.id == id && r.studentId == student && r.status == Pending
    ensures r.reason == d.reason && r.destination == d.destination
    ensures r.expectedReturnDate == returnIso
    ensures r.additionalComments.None? <==> d.additionalComments == ""
    ensures r.additionalComments.Some? ==> r.additionalComments.value == d.additionalComments
    ensures r.reviewedBy.None? && r.reviewedAt.None? && r.qrCode.None? && r.actualReturnDate.None?
  {
    ExitRequest(
      id, student, d.reason, d.destination, returnIso,
      if d.additionalComments == "" then None else Some(d.additionalComments),
      Pending, None, None, None, None, now, now)
  }

  datatype SubmitOutcome =
    | Submitted(id: Id)
    | ValidationFailed(message: string)
    | SubmitFailed

  /** The request form of the student dashboard. */
  class RequestForm {
    var formData: FormData

    constructor ()
      ensures formData == EmptyForm
    {
      formData := EmptyForm;
    }

    /** Validates the form, then inserts it as a pending request and clears the form.
        `returnIso` is the return date converted to ISO form, None when the conversion
        throws; `newId` and `now` are the id and time the table assigns. */
    method HandleSubmit(store: RequestStore, user: UserId, newId: Id,
                        returnIso: Option<string>, now: Timestamp, failure: bool)
      returns (outcome: SubmitOutcome)
      requires store.Valid()
      modifies this, store
      ensures store.Valid()
      ensures !ValidDraft(old(formData)) ==>
                outcome == ValidationFailed(Message(FirstIssue(old(formData)).value))
      ensures outcome.Submitted? <==>
                ValidDraft(old(formData)) && returnIso.Some? && !failure && newId !in old(store.rows)
      ensures outcome.Submitted? ==>
                && outcome.id == newId
                && store.rows == old(store.rows)[newId := NewRequest(newId, user, old(formData), returnIso.value, now)]
                && formData == EmptyForm
      ensures !outcome.Submitted? ==> store.rows == old(store.rows) && formData == old(formData)
      ensures outcome.SubmitFailed? <==> ValidDraft(old(formData)) && !outcome.Submitted?
    {
      var issue := FirstIssue(formData);
      if issue.Some? {
        return ValidationFailed(Message(issue.value));
      }
      if returnIso.None? {
        return SubmitFailed;
      }
      var row := NewRequest(newId, user, formData, returnIso.value, now);
      var ok := store.Insert(row, failure);
      if !ok {
        return SubmitFailed;
      }
      formData := EmptyForm;
      outcome := Submitted(newId);
    }
  }
}
