/** The manager's request list (`src/app/dashboard/requests/page.tsx`): the
    day count of each request, approval, and the two-step rejection dialog.
    The store's `leave_requests` table is held as a sequence; the page lists
    all of it. */
module Requests {
  import opened Common
  import opened Utils
  import opened Leave

  /** The date `calculateDays` measures to: the end date when it is a filled
      in value (`request.end_date || request.start_date`), else the start. */
  function EndOrStart(r: LeaveRequest): (t: int)
    ensures r.endDate.Some? && r.endDate.value.At? ==> t == r.endDate.value.ms
    ensures r.endDate.None? || r.endDate.value == Empty ==> t == r.startDate
  {
    if r.endDate.Some? && r.endDate.value.At? then r.endDate.value.ms else r.startDate
  }

  /** `calculateDays`: one for one-day leave, otherwise the inclusive day span
      from start to end; a missing end date counts as the start date. */
  function CalculateDays(r: LeaveRequest): (d: int)
    ensures d >= 1
    ensures r.leaveType == OneDay ==> d == 1
    ensures r.leaveType != OneDay ==> d == DaySpan(r.startDate, EndOrStart(r))
  {
    if r.leaveType == OneDay then 1 else DaySpan(r.startDate, EndOrStart(r))
  }

  /** A request with no end date, or an empty one, lasts exactly one day. */
  lemma MissingEndIsOneDay(r: LeaveRequest)
    requires r.endDate.None? || r.endDate.value == Empty
    ensures CalculateDays(r) == 1
  {
    DaySpanWholeDays(r.startDate, 0);
  }

  /** The manager's count for a submitted request is the span the employee
      saw on the form: `DaySpan` of the form's dates, or one for one-day
      leave. */
  lemma DaysMatchForm(form: LeaveForm, id: nat, u: UserId)
    requires form.startDate.At?
    ensures form.leaveType == OneDay ==> CalculateDays(SubmitData(form, id, u)) == 1
    ensures form.leaveType != OneDay && form.endDate.At? ==>
              CalculateDays(SubmitData(form, id, u)) == TotalDaysEffect(form, 0)
  {
  }

  /** Approve and reject are offered only on pending requests. */
  predicate OffersDecision(r: LeaveRequest) { r.status == Pending }

  /** Every rejection carries a reason, and only rejections carry one. */
  ghost predicate ReasonsConsistent(table: seq<LeaveRequest>)
  {
    forall i :: 0 <= i < |table| ==> (table[i].rejectionReason.Some? ==> table[i].status == Rejected)
  }

  /** `.update({ status: 'APPROVED' }).eq('id', id)`: only the status of the
      rows with that id changes. */
  function Approve(table: seq<LeaveRequest>, id: nat): (r: seq<LeaveRequest>)
    ensures |r| == |table|
    ensures forall i :: 0 <= i < |table| && table[i].id != id ==> r[i] == table[i]
    ensures forall i :: 0 <= i < |table| && table[i].id == id ==> r[i] == table[i].(status := Approved)
  {
    seq(|table|, i requires 0 <= i < |table| =>
      if table[i].id == id then table[i].(status := Approved) else table[i])
  }

  /** `handleReject`'s update: status, rejection reason and update time of the
      rows with that id, nothing else. */
  function Reject(table: seq<LeaveRequest>, id: nat, reason: string, now: int): (r: seq<LeaveRequest>)
    ensures |r| == |table|
    ensures forall i :: 0 <= i < |table| && table[i].id != id ==> r[i] == table[i]
    ensures forall i :: 0 <= i < |table| && table[i].id == id ==>
              r[i] == table[i].(status := Rejected, rejectionReason := Some(reason), updatedAt := Some(now))
  {
    seq(|table|, i requires 0 <= i < |table| =>
      if table[i].id == id
      then table[i].(status := Rejected, rejectionReason := Some(reason), updatedAt := Some(now))
      else table[i])
  }

  /** A decided request no longer offers approve or reject; the others keep
      their actions. */
  lemma DecisionIsTerminal(table: seq<LeaveRequest>, id: nat, reason: string, now: int, i: int)
    requires 0 <= i < |table|
    ensures table[i].id == id ==> !OffersDecision(Approve(table, id)[i]) && !OffersDecision(Reject(table, id, reason, now)[i])
    ensures table[i].id != id ==>
              OffersDecision(Approve(table, id)[i]) == OffersDecision(table[i]) &&
              OffersDecision(Reject(table, id, reason, now)[i]) == OffersDecision(table[i])
  {
  }

  /** The update `handleReject` sends does not look at the status: a row
      already rejected, which offers no decision, is rewritten with the new
      reason and update time. The reason dialog opened on a rejected row
      reaches this update through its confirm button. */
  lemma RejectRewritesDecided(table: seq<LeaveRequest>, i: int, reason: string, now: int)
    requires 0 <= i < |table| && table[i].status == Rejected
    ensures !OffersDecision(table[i])
    ensures Reject(table, table[i].id, reason, now)[i].rejectionReason == Some(reason)
    ensures Reject(table, table[i].id, reason, now)[i].updatedAt == Some(now)
  {
  }

  /** Approving a request the page offers it on (a pending one, so one with
      no reason) and rejecting any request keep reasons on rejections only. */
  lemma DecisionsKeepReasonsConsistent(table: seq<LeaveRequest>, id: nat, reason: string, now: int)
    requires ReasonsConsistent(table)
    ensures ReasonsConsistent(Reject(table, id, reason, now))
    ensures (forall i :: 0 <= i < |table| && table[i].id == id ==> OffersDecision(table[i])) ==>
              ReasonsConsistent(Approve(table, id))
  {
    var r := Reject(table, id, reason, now);
    forall i | 0 <= i < |r| ensures r[i].rejectionReason.Some? ==> r[i].status == Rejected {
    }
    if forall i :: 0 <= i < |table| && table[i].id == id ==> OffersDecision(table[i]) {
      var a := Approve(table, id);
      forall i | 0 <= i < |a| ensures a[i].rejectionReason.Some? ==> a[i].status == Rejected {
        if table[i].id == id {
          assert OffersDecision(table[i]);
        }
      }
    }
  }

  /** `!rejectionReason.trim()` is false exactly when the reason holds a
      character other than white space. */
  function ConfirmEnabled(reason: string): (b: bool)
    ensures b <==> exists i :: 0 <= i < |reason| && !IsJsWhitespace(reason[i])
  {
    TrimEmptyIffBlank(reason);
    Trim(reason) != ""
  }

  /** A manager's choice on a pending request. */
  datatype Decision = ApproveIt | RejectIt

  /** The requests page state and the store's table. */
  class RequestsPage {
    var table: seq<LeaveRequest>
    var requests: seq<LeaveRequest>
    var selected: Option<LeaveRequest>
    var rejectionReason: string
    var showRejectionDialog: bool

    constructor (table0: seq<LeaveRequest>)
      ensures table == table0 && requests == []
      ensures selected.None? && rejectionReason == "" && !showRejectionDialog
    {
      table, requests := table0, [];
      selected, rejectionReason, showRejectionDialog := None, "", false;
    }

    /** `fetchAllRequests`, run on mount and after each decision: the list is
        the whole table, in the table's order. */
    method FetchAllRequests()
      modifies this`requests
      ensures requests == table
    {
      requests := table;
    }

    /** `handleStatusChange`. Rejecting writes nothing: it selects the
        request, clears the reason and opens the dialog. Approving writes the
        status of that id only and refetches. */
    method HandleStatusChange(request: LeaveRequest, decision: Decision)
      modifies this
      ensures decision == RejectIt ==>
                table == old(table) && requests == old(requests) && selected == Some(request) &&
                rejectionReason == "" && showRejectionDialog
      ensures decision == ApproveIt ==>
                table == Approve(old(table), request.id) && requests == table &&
                selected == old(selected) && rejectionReason == old(rejectionReason) &&
                showRejectionDialog == old(showRejectionDialog)
    {
      if decision == RejectIt {
        selected := Some(request);
        rejectionReason := "";
        showRejectionDialog := true;
        return;
      }
      table := Approve(table, request.id);
      FetchAllRequests();
    }

    /** The text area of the dialog. */
    method TypeReason(text: string)
      modifies this`rejectionReason
      ensures rejectionReason == text
    {
      rejectionReason := text;
    }

    /** `handleReject`: nothing without a selected request; otherwise the
        selected id is rejected with the typed reason, the dialog closes and
        the list is refetched. */
    method HandleReject(now: int)
      modifies this
      ensures old(selected).None? ==>
                table == old(table) && requests == old(requests) && selected.None? &&
                rejectionReason == old(rejectionReason) && showRejectionDialog == old(showRejectionDialog)
      ensures old(selected).Some? ==>
                table == Reject(old(table), old(selected).value.id, old(rejectionReason), now) &&
                requests == table && selected.None? && !showRejectionDialog &&
                rejectionReason == old(rejectionReason)
    {
      if selected.None? {
        return;
      }
      table := Reject(table, selected.value.id, rejectionReason, now);
      showRejectionDialog := false;
      selected := None;
      FetchAllRequests();
    }

    /** The "Confirm Rejection" button: disabled while the trimmed reason is
        empty, so a blank reason never reaches the store. */
    method ConfirmRejection(now: int)
      modifies this
      ensures rejectionReason == old(rejectionReason)
      ensures !ConfirmEnabled(old(rejectionReason)) || old(selected).None? ==>
                table == old(table) && requests == old(requests) && selected == old(selected) &&
                showRejectionDialog == old(showRejectionDialog)
      ensures ConfirmEnabled(old(rejectionReason)) && old(selected).Some? ==>
                table == Reject(old(table), old(selected).value.id, old(rejectionReason), now) &&
                requests == table && selected.None? && !showRejectionDialog
      ensures table != old(table) ==> ConfirmEnabled(old(rejectionReason))
    {
      if !ConfirmEnabled(rejectionReason) {
        return;
      }
      HandleReject(now);
    }

    /** The "Cancel" button of the dialog. */
    method CancelRejection()
      modifies this`showRejectionDialog, this`selected
      ensures !showRejectionDialog && selected.None?
    {
      showRejectionDialog := false;
      selected := None;
    }

    /** The information button beside a rejected request: opens the same
        dialog with the stored reason. */
    method ViewRejectionReason(request: LeaveRequest)
      modifies this`selected, this`rejectionReason, this`showRejectionDialog
      ensures selected == Some(request) && showRejectionDialog
      ensures rejectionReason == if request.rejectionReason.Some? then request.rejectionReason.value else ""
    {
      selected := Some(request);
      rejectionReason := if request.rejectionReason.Some? then request.rejectionReason.value else "";
      showRejectionDialog := true;
    }
  }
}
