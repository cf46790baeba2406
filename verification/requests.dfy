/**
 * The leave and overtime requests page: which requests a session sees,
 * what creating a request sends, and who may approve or reject.
 */
module Requests {
  import opened Wrappers
  import opened Types
  import opened Store

  // ---------------------------------------------------------------- list

  /** The two filter buttons. */
  datatype Filter = AllRequests | PendingOnly

  /** Whether one request passes the filter: a User sees only their own, and "pending" keeps pending ones. */
  predicate Shows(session: Session, filter: Filter, q: Request) {
    (session.role == User ==> q.employeeId == session.userId) &&
    (filter == PendingOnly ==> q.status == Pending)
  }

  /** `filteredRequests`: the requests shown, in the order loaded. */
  function Visible(session: Session, filter: Filter, reqs: seq<Request>): (r: seq<Request>)
    ensures forall q :: q in r <==> q in reqs && Shows(session, filter, q)
    ensures |r| <= |reqs|
  {
    if reqs == [] then []
    else
      assert reqs == [reqs[0]] + reqs[1..];
      (if Shows(session, filter, reqs[0]) then [reqs[0]] else []) + Visible(session, filter, reqs[1..])
  }

  /** An Admin with the "all" filter sees every request. */
  lemma AdminSeesAll(session: Session, reqs: seq<Request>)
    requires session.role == Admin
    ensures Visible(session, AllRequests, reqs) == reqs
  {
    if reqs != [] {
      AdminSeesAll(session, reqs[1..]);
      assert reqs == [reqs[0]] + reqs[1..];
    }
  }

  /** The pending list is the full list with the non-pending requests dropped. */
  lemma {:induction false} PendingWithinAll(session: Session, reqs: seq<Request>)
    ensures Visible(session, PendingOnly, reqs) ==
            Visible(session, PendingOnly, Visible(session, AllRequests, reqs))
  {
    if reqs != [] {
      PendingWithinAll(session, reqs[1..]);
      var rest := Visible(session, AllRequests, reqs[1..]);
      if Shows(session, AllRequests, reqs[0]) {
        var all := [reqs[0]] + rest;
        assert all[0] == reqs[0] && all[1..] == rest;
      } else {
        assert !Shows(session, PendingOnly, reqs[0]);
        assert Visible(session, AllRequests, reqs) == [] + rest;
        assert [] + rest == rest;
      }
    }
  }

  // ---------------------------------------------------------------- create

  /** The request form. */
  datatype Form = Form(kind: RequestType, startDate: string, endDate: string, reason: string)

  /** The form as first opened and as reset after a request is sent: a leave request, all fields empty. */
  function BlankForm(): Form {
    Form(LeaveRequest, "", "", "")
  }

  /** The form is complete when the start date, the end date and the reason are all filled in. */
  predicate Complete(f: Form) {
    f.startDate != "" && f.endDate != "" && f.reason != ""
  }

  /**
   * What `handleCreate` leads to: the request sent (none when the form is
   * incomplete), the form afterwards and whether the dialog stays open.
   * `stored` is whether the store accepted the insert.
   */
  datatype CreateOutcome = CreateOutcome(sent: Option<NewRequest>, form: Form, dialogOpen: bool)

  function HandleCreate(session: Session, f: Form, stored: bool): (o: CreateOutcome)
    ensures o.sent.None? <==> !Complete(f)
    ensures o.sent.Some? ==> o.sent.value == NewRequest(session.userId, f.kind, f.startDate, f.endDate, f.reason)
    ensures o.sent.Some? && stored ==> o.form == BlankForm() && !o.dialogOpen
    ensures !(o.sent.Some? && stored) ==> o.form == f && o.dialogOpen
  {
    if !Complete(f) then CreateOutcome(None, f, true)
    else
      var req := NewRequest(session.userId, f.kind, f.startDate, f.endDate, f.reason);
      if stored then CreateOutcome(Some(req), BlankForm(), false) else CreateOutcome(Some(req), f, true)
  }

  /**
   * A request just created appears in its creator's list under both
   * filters, whatever the creator's role.
   */
  lemma CreatedIsVisible(session: Session, f: Form, reqs: seq<Request>, id: int)
    requires Complete(f)
    ensures var q := CreateRequest(HandleCreate(session, f, true).sent.value, id);
            q in Visible(session, AllRequests, reqs + [q]) && q in Visible(session, PendingOnly, reqs + [q])
  {
  }

  // ---------------------------------------------------------------- decide

  /** Approve and reject are offered only on a pending request, and only to an Admin. */
  predicate CanDecide(role: Role, q: Request) {
    q.status == Pending && role == Admin
  }

  /** Once approved or rejected, a request is never offered for a decision again. */
  lemma DecidedOnce(t: seq<Request>, id: int, status: RequestStatus, role: Role, i: int)
    requires status != Pending && 0 <= i < |t| && t[i].id == id
    ensures !CanDecide(role, UpdateRequestStatus(t, id, status)[i])
  {
  }

  /** A decision leaves requests with other ids, and their availability, as they were. */
  lemma DecisionLeavesOthers(t: seq<Request>, id: int, status: RequestStatus, role: Role, i: int)
    requires 0 <= i < |t| && t[i].id != id
    ensures UpdateRequestStatus(t, id, status)[i] == t[i]
    ensures CanDecide(role, UpdateRequestStatus(t, id, status)[i]) == CanDecide(role, t[i])
  {
  }

  // ---------------------------------------------------------------- dates shown

  /** The dates line of a request: one day, or a from-to range. */
  datatype Span = OneDay(date: string) | Range(from: string, to: string)

  function ShownSpan(q: Request): (s: Span)
    ensures s.OneDay? <==> q.startDate == q.endDate
    ensures s.OneDay? ==> s.date == q.startDate
    ensures s.Range? ==> s.from == q.startDate && s.to == q.endDate
  {
    if q.startDate == q.endDate then OneDay(q.startDate) else Range(q.startDate, q.endDate)
  }
}
