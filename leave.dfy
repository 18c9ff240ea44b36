/** Leave requests: any signed-in user files one, which starts PENDING; an
    administrator sets it to APPROVED or REJECTED by a POST, and every such
    change sends the requester one notification. The current status is not
    consulted, so a decided request can be decided again. */
module Leave {
  import opened Basics
  import opened Text
  import opened Models

  /** The e-mail `send_leave_status_email` composes: to the requester, naming
      the period and the new status. A failed delivery is swallowed, so every
      attempt counts. */
  datatype Notification = Notification(request: nat, recipient: UserId, startDate: Date, endDate: Date, status: LeaveStatus)

  /** The leave table, the notifications sent so far, and the next primary key. */
  datatype Book = Book(requests: map<nat, LeaveRecord>, sent: seq<Notification>, nextId: nat)

  /** Every stored request has a key below the next one to hand out. */
  predicate ValidBook(b: Book) {
    forall k | k in b.requests :: k < b.nextId
  }

  /** The status values the update view accepts from its URL. */
  function DecisionOf(status: string): (r: Option<LeaveStatus>)
    ensures r.Some? <==> status == "APPROVED" || status == "REJECTED"
    ensures r.Some? ==> r.value != Pending && StatusCode(r.value) == status
  {
    if status == "APPROVED" then Some(Approved)
    else if status == "REJECTED" then Some(Rejected)
    else None
  }

  /** `LeaveRequestForm`: both dates given and a reason that is not blank
      once stripped; the stored reason is the stripped text. */
  function ApplySpec(b: Book, user: UserId, startDate: Option<Date>, endDate: Option<Date>, reason: string, now: Timestamp): (r: Book)
    ensures startDate.None? || endDate.None? || Strip(reason) == [] ==> r == b
    ensures startDate.Some? && endDate.Some? && Strip(reason) != [] ==>
              && r.requests == b.requests[b.nextId := NewLeaveRecord(user, startDate.value, endDate.value, Strip(reason), now)]
              && r.sent == b.sent && r.nextId == b.nextId + 1
  {
    if startDate.None? || endDate.None? || Strip(reason) == [] then b
    else
      var rec := NewLeaveRecord(user, startDate.value, endDate.value, Strip(reason), now);
      Book(b.requests[b.nextId := rec], b.sent, b.nextId + 1)
  }

  /** How `update_leave_request_status` ends. */
  datatype UpdateOutcome = NothingDone | NotFound | Updated | InvalidStatus

  /** The update as a function of the book: only a POST for an existing
      request with an accepted status changes it, setting the status,
      refreshing `updated_at` and sending exactly one notification. */
  function UpdateSpec(b: Book, isPost: bool, pk: nat, status: string, now: Timestamp): (r: (UpdateOutcome, Book))
    ensures r.0 != Updated ==> r.1 == b
    ensures r.0 == Updated <==> isPost && pk in b.requests && DecisionOf(status).Some?
    ensures isPost && pk !in b.requests ==> r.0 == NotFound
    ensures !isPost ==> r.0 == NothingDone
    ensures isPost && pk in b.requests && DecisionOf(status).None? ==> r.0 == InvalidStatus
    ensures r.0 == Updated ==>
              var d := DecisionOf(status).value;
              var old_ := b.requests[pk];
              && r.1.requests == b.requests[pk := old_.(status := d, updatedAt := now)]
              && r.1.sent == b.sent + [Notification(pk, old_.user, old_.startDate, old_.endDate, d)]
              && r.1.nextId == b.nextId
  {
    if !isPost then (NothingDone, b)
    else if pk !in b.requests then (NotFound, b)
    else match DecisionOf(status)
      case None => (InvalidStatus, b)
      case Some(d) =>
        var rec := b.requests[pk].(status := d, updatedAt := now);
        (Updated, Book(b.requests[pk := rec], b.sent + [Notification(pk, rec.user, rec.startDate, rec.endDate, d)], b.nextId))
  }

  /** Both operations keep every key below the next one. */
  lemma ApplyKeepsValid(b: Book, user: UserId, startDate: Option<Date>, endDate: Option<Date>, reason: string, now: Timestamp)
    requires ValidBook(b)
    ensures ValidBook(ApplySpec(b, user, startDate, endDate, reason, now))
    ensures var r := ApplySpec(b, user, startDate, endDate, reason, now);
              r != b ==> b.nextId !in b.requests && forall k | k in b.requests :: k in r.requests && r.requests[k] == b.requests[k]
  {
  }

  lemma UpdateKeepsValid(b: Book, isPost: bool, pk: nat, status: string, now: Timestamp)
    requires ValidBook(b)
    ensures ValidBook(UpdateSpec(b, isPost, pk, status, now).1)
    ensures UpdateSpec(b, isPost, pk, status, now).1.requests.Keys == b.requests.Keys
  {
  }

  /** A decided request stays a request of the same user for the same
      period; only its status and `updated_at` move. */
  lemma UpdateTouchesOnlyStatus(b: Book, isPost: bool, pk: nat, status: string, now: Timestamp)
    ensures var r := UpdateSpec(b, isPost, pk, status, now).1;
      forall k | k in b.requests ::
        && r.requests[k].user == b.requests[k].user
        && r.requests[k].startDate == b.requests[k].startDate
        && r.requests[k].endDate == b.requests[k].endDate
        && r.requests[k].reason == b.requests[k].reason
        && r.requests[k].createdAt == b.requests[k].createdAt
        && (k != pk ==> r.requests[k] == b.requests[k])
  {
  }

  /** An administrator's request to the update view. */
  datatype UpdateCall = UpdateCall(isPost: bool, pk: nat, status: string, now: Timestamp)

  function RunUpdates(b: Book, calls: seq<UpdateCall>): Book {
    if calls == [] then b
    else
      var c := calls[|calls| - 1];
      UpdateSpec(RunUpdates(b, calls[..|calls| - 1]), c.isPost, c.pk, c.status, c.now).1
  }

  /** The number of calls that name an existing request with an accepted
      status (the update view never adds or removes requests). */
  function AcceptedCalls(keys: set<nat>, calls: seq<UpdateCall>): nat {
    if calls == [] then 0
    else
      var c := calls[|calls| - 1];
      AcceptedCalls(keys, calls[..|calls| - 1])
        + (if c.isPost && c.pk in keys && DecisionOf(c.status).Some? then 1 else 0)
  }

  /** The notification log grows by exactly one entry per accepted call, and
      the entries already sent are never rewritten. */
  lemma {:induction false} NotificationsCountAcceptedCalls(b: Book, calls: seq<UpdateCall>)
    ensures RunUpdates(b, calls).requests.Keys == b.requests.Keys
    ensures |RunUpdates(b, calls).sent| == |b.sent| + AcceptedCalls(b.requests.Keys, calls)
    ensures RunUpdates(b, calls).sent[..|b.sent|] == b.sent
  {
    if calls != [] {
      var prev := RunUpdates(b, calls[..|calls| - 1]);
      NotificationsCountAcceptedCalls(b, calls[..|calls| - 1]);
      var c := calls[|calls| - 1];
      var r := UpdateSpec(prev, c.isPost, c.pk, c.status, c.now).1;
      assert r.sent[..|prev.sent|] == prev.sent;
      assert r.sent[..|b.sent|] == prev.sent[..|b.sent|];
    }
  }

  /** The status is not checked before it is changed: an approved request can
      still be rejected, and it sends a second notification. */
  lemma DecidedRequestCanBeReversed(b: Book, pk: nat, now: Timestamp)
    requires pk in b.requests && b.requests[pk].status == Approved
    ensures var r := UpdateSpec(b, true, pk, "REJECTED", now);
      r.0 == Updated && r.1.requests[pk].status == Rejected && |r.1.sent| == |b.sent| + 1
  {
  }

  /** The leave table with its notification log, updated in place. */
  class LeaveBook {
    var requests: map<nat, LeaveRecord>
    var sent: seq<Notification>
    var nextId: nat

    function State(): Book
      reads this
    {
      Book(requests, sent, nextId)
    }

    constructor ()
      ensures State() == Book(map[], [], 1)
    {
      requests, sent, nextId := map[], [], 1;
    }

    /** `apply_for_leave` on a POST: a valid form is saved for the caller,
        PENDING; an invalid one saves nothing. */
    method Apply(user: UserId, startDate: Option<Date>, endDate: Option<Date>, reason: string, now: Timestamp)
      returns (saved: bool)
      modifies this
      ensures State() == ApplySpec(old(State()), user, startDate, endDate, reason, now)
      ensures saved <==> State() != old(State())
    {
      saved := false;
      if startDate.Some? && endDate.Some? {
        var text := Strip(reason);
        if text != [] {
          var rec := NewLeaveRecord(user, startDate.value, endDate.value, text, now);
          requests := requests[nextId := rec];
          nextId := nextId + 1;
          saved := true;
        }
      }
    }

    /** `update_leave_request_status`: a GET does nothing; a POST looks the
        request up (404 when missing), then applies an APPROVED or REJECTED
        status, saves and sends one notification; any other status changes
        nothing. */
    method UpdateStatus(isPost: bool, pk: nat, status: string, now: Timestamp)
      returns (outcome: UpdateOutcome)
      modifies this
      ensures (outcome, State()) == UpdateSpec(old(State()), isPost, pk, status, now)
    {
      if !isPost {
        return NothingDone;
      }
      if pk !in requests {
        return NotFound;
      }
      var decision := DecisionOf(status);
      if decision.None? {
        return InvalidStatus;
      }
      var rec := requests[pk].(status := decision.value, updatedAt := now);
      requests := requests[pk := rec];
      sent := sent + [Notification(pk, rec.user, rec.startDate, rec.endDate, decision.value)];
      return Updated;
    }
  }
}
