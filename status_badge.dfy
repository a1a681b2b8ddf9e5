/** The status vocabulary of an exit request and how the badge shows it. */
module StatusBadge {
  import opened Wrappers
  import opened Text

  /** The five lifecycle states; nothing else is a status. */
  datatype Status = Pending | Approved | Declined | Exited | Returned

  /** The lowercase token stored in the `status` column. */
  function Token(s: Status): string {
    match s
    case Pending => "pending"
    case Approved => "approved"
    case Declined => "declined"
    case Exited => "exited"
    case Returned => "returned"
  }

  /** Reads a stored status string: exactly the five tokens are statuses. */
  function ParseStatus(t: string): (r: Option<Status>)
    ensures r.Some? ==> Token(r.value) == t
    ensures r.None? ==> forall s: Status :: Token(s) != t
  {
    if t == "pending" then Some(Pending)
    else if t == "approved" then Some(Approved)
    else if t == "declined" then Some(Declined)
    else if t == "exited" then Some(Exited)
    else if t == "returned" then Some(Returned)
    else None
  }

  /** Distinct statuses are stored as distinct tokens, so parsing inverts Token. */
  lemma TokenRoundTrip(s: Status)
    ensures ParseStatus(Token(s)) == Some(s)
    ensures forall s': Status :: Token(s') == Token(s) ==> s' == s
  {
  }

  /** The badge's style classes, one entry per status. */
  function Variant(s: Status): string {
    match s
    case Pending => "bg-warning text-warning-foreground"
    case Approved => "bg-success text-success-foreground"
    case Declined => "bg-destructive text-destructive-foreground"
    case Exited => "bg-status-exited text-primary-foreground"
    case Returned => "bg-status-returned text-white"
  }

  /** No two statuses share a badge style. */
  lemma VariantsDistinct(a: Status, b: Status)
    requires a != b
    ensures Variant(a) != Variant(b)
  {
  }

  /** `t.charAt(0).toUpperCase() + t.slice(1)`, with ASCII case mapping; the status
      tokens it is applied to are ASCII, so nothing is lost for them. */
  function Capitalize(t: string): (r: string)
    ensures |r| == |t|
    ensures t != [] ==> r[0] == UpperChar(t[0]) && r[1..] == t[1..]
  {
    if t == [] then [] else [UpperChar(t[0])] + t[1..]
  }

  /** The badge text: the token with its first letter capitalised. Lowering that letter
      again gives back the stored token, so the label identifies the status. */
  function Label(s: Status): (l: string)
    ensures |l| == |Token(s)| && l != []
    ensures l[1..] == Token(s)[1..] && 'A' <= l[0] <= 'Z'
    ensures [LowerChar(l[0])] + l[1..] == Token(s)
  {
    var t := Token(s);
    assert 'a' <= t[0] <= 'z';
    Capitalize(t)
  }

  /** The five labels as they appear on screen, all distinct. */
  lemma LabelValues()
    ensures Label(Pending) == "Pending" && Label(Approved) == "Approved"
    ensures Label(Declined) == "Declined" && Label(Exited) == "Exited"
    ensures Label(Returned) == "Returned"
    ensures forall a: Status, b: Status :: a != b ==> Label(a) != Label(b)
  {
    forall a: Status, b: Status | a != b ensures Label(a) != Label(b) {
      TokenRoundTrip(a);
    }
  }
}
