/** The employee's leave page (`src/app/dashboard/leave/page.tsx`): the
    request form, the inclusive day span shown beside it, and submission of a
    new request to the `leave_requests` table. */
module Leave {
  import opened Common

  datatype LeaveType = FullDay | Hourly | OneDay

  datatype RequestStatus = Pending | Approved | Rejected

  /** The value of a `datetime-local` input: empty, or a local time in
      milliseconds. */
  datatype DateInput = Empty | At(ms: int)

  datatype LeaveForm = LeaveForm(
    leaveType: LeaveType,
    startDate: DateInput,
    endDate: DateInput,
    hours: int,
    reason: string)

  /** A row of `leave_requests`. `endDate` is `None` for the null written for
      one-day leave, and otherwise the form's end-date field as it was. */
  datatype LeaveRequest = LeaveRequest(
    id: nat,
    userId: UserId,
    leaveType: LeaveType,
    startDate: int,
    endDate: Option<DateInput>,
    hours: int,
    reason: string,
    status: RequestStatus,
    rejectionReason: Option<string>,
    updatedAt: Option<int>)

  /** `Math.ceil(n / d)` for `n >= 0`. */
  function CeilDiv(n: nat, d: int): (r: nat)
    requires d > 0
    ensures (r * d >= n && (r - 1) * d < n) || (n == 0 && r == 0)
  {
    (n + d - 1) / d
  }

  /** `Math.ceil(|end - start| / 86400000) + 1`: the number of calendar days a
      span touches, counting both ends; at least one, and the least count of
      whole days, plus one, that covers the distance. */
  function DaySpan(start: int, end: int): (r: int)
    ensures r >= 1
    ensures (r - 1) * MsPerDay >= Abs(end - start)
    ensures r >= 2 ==> (r - 2) * MsPerDay < Abs(end - start)
  {
    CeilDiv(Abs(end - start), MsPerDay) + 1
  }

  /** The span does not depend on which date is the start. */
  lemma DaySpanSymmetric(a: int, b: int)
    ensures DaySpan(a, b) == DaySpan(b, a)
  {
    assert Abs(b - a) == Abs(a - b);
  }

  /** Two times exactly `k` days apart span `k + 1` days; a time spans one
      day with itself. */
  lemma DaySpanWholeDays(start: int, k: nat)
    ensures DaySpan(start, start + k * MsPerDay) == k + 1
  {
  }

  /** The `totalDays` effect: recomputed when both dates are filled in,
      otherwise left as it was. */
  function TotalDaysEffect(form: LeaveForm, totalDays: int): (r: int)
    ensures form.startDate.At? && form.endDate.At? ==> r == DaySpan(form.startDate.ms, form.endDate.ms) && r >= 1
    ensures !(form.startDate.At? && form.endDate.At?) ==> r == totalDays
  {
    if form.startDate.At? && form.endDate.At? then DaySpan(form.startDate.ms, form.endDate.ms)
    else totalDays
  }

  /** An edit of one form control, named by the control's `name`. */
  datatype FieldChange =
    | SetType(leaveType: LeaveType)
    | SetStart(start: DateInput)
    | SetEnd(end: DateInput)
    | SetHours(hours: int)
    | SetReason(reason: string)

  /** `handleInputChange`'s update of the form: choosing `ONE_DAY` also
      empties the end date; every other change replaces only the field it
      names. */
  function ApplyChange(form: LeaveForm, change: FieldChange): (r: LeaveForm)
    ensures change == SetType(OneDay) ==> r.leaveType == OneDay && r.endDate == Empty
    ensures change.SetType? && change.leaveType != OneDay ==> r == form.(leaveType := change.leaveType)
    ensures change.SetStart? ==> r == form.(startDate := change.start)
    ensures change.SetEnd? ==> r == form.(endDate := change.end)
    ensures change.SetHours? ==> r == form.(hours := change.hours)
    ensures change.SetReason? ==> r == form.(reason := change.reason)
    ensures r.startDate == form.startDate || change.SetStart?
    ensures r.reason == form.reason || change.SetReason?
    ensures r.hours == form.hours || change.SetHours?
  {
    match change
    case SetType(t) => if t == OneDay then form.(leaveType := t, endDate := Empty) else form.(leaveType := t)
    case SetStart(d) => form.(startDate := d)
    case SetEnd(d) => form.(endDate := d)
    case SetHours(h) => form.(hours := h)
    case SetReason(s) => form.(reason := s)
  }

  /** The empty form: full day, no dates, eight hours, no reason. */
  function InitialForm(): (f: LeaveForm)
    ensures f.leaveType == FullDay && f.startDate == Empty && f.endDate == Empty
    ensures f.hours == 8 && f.reason == ""
  {
    LeaveForm(FullDay, Empty, Empty, 8, "")
  }

  /** `submitData`: the form with the end date nulled for one-day leave, the
      session's user and a pending status, whatever the form held. */
  function SubmitData(form: LeaveForm, id: nat, u: UserId): (r: LeaveRequest)
    requires form.startDate.At?
    ensures r.status == Pending && r.userId == u && r.id == id
    ensures r.endDate.None? <==> form.leaveType == OneDay
    ensures r.endDate.Some? ==> r.endDate.value == form.endDate
    ensures r.leaveType == form.leaveType && r.startDate == form.startDate.ms
    ensures r.hours == form.hours && r.reason == form.reason
    ensures r.rejectionReason.None? && r.updatedAt.None?
  {
    LeaveRequest(id, u, form.leaveType, form.startDate.ms,
                 if form.leaveType == OneDay then None else Some(form.endDate),
                 form.hours, form.reason, Pending, None, None)
  }

  /** Whatever was typed before, choosing one-day leave makes the submitted
      end date null. */
  lemma OneDayEndIsNull(form: LeaveForm, id: nat, u: UserId)
    requires form.startDate.At?
    ensures SubmitData(ApplyChange(form, SetType(OneDay)), id, u).endDate.None?
  {
  }

  /** The rows of one user, in table order (`.eq('user_id', ...)`). */
  function UserRequests(table: seq<LeaveRequest>, u: UserId): (r: seq<LeaveRequest>)
    ensures forall x :: x in r <==> x in table && x.userId == u
  {
    if table == [] then []
    else (if table[0].userId == u then [table[0]] else []) + UserRequests(table[1..], u)
  }

  /** The duration banner as written (line 206): shown for any type other
      than one-day leave whenever `totalDays` is positive. */
  function ShowsDurationBanner(form: LeaveForm, totalDays: int): (b: bool)
    ensures b ==> form.leaveType != OneDay
  {
    form.leaveType != OneDay && totalDays > 0
  }

  /** As written, the banner survives a submission: the form is reset to no
      dates but the span of the submitted request stays on screen. */
  lemma StaleBannerAfterSubmit(start: int, end: int)
    ensures var f := InitialForm();
            f.startDate == Empty && f.endDate == Empty &&
            ShowsDurationBanner(f, TotalDaysEffect(f, DaySpan(start, end)))
  {
  }

  /** The banner as evidently intended: the span of the dates on the form,
      shown only when both are filled in and the leave is not one-day. */
  function DurationBanner(form: LeaveForm): (r: Option<int>)
    ensures r.Some? <==> form.leaveType != OneDay && form.startDate.At? && form.endDate.At?
    ensures r.Some? ==> r.value == DaySpan(form.startDate.ms, form.endDate.ms) && r.value >= 1
  {
    if form.leaveType != OneDay && form.startDate.At? && form.endDate.At?
    then Some(DaySpan(form.startDate.ms, form.endDate.ms))
    else None
  }

  /** While both dates are on the form, the banner as written shows what the
      intended one shows. */
  lemma BannerAgreesWithDates(form: LeaveForm, totalDays: int)
    requires form.startDate.At? && form.endDate.At?
    requires totalDays == TotalDaysEffect(form, totalDays)
    ensures ShowsDurationBanner(form, totalDays) <==> DurationBanner(form).Some?
    ensures DurationBanner(form).Some? ==> DurationBanner(form).value == totalDays
  {
  }

  /** The leave page: the store's `leave_requests` table and the page state. */
  class LeavePage {
    /** The `leave_requests` table, newest row first. */
    var table: seq<LeaveRequest>
    var nextId: nat
    var requests: seq<LeaveRequest>
    var form: LeaveForm
    var totalDays: int
    var isLoading: bool
    var error: string

    /** Whenever both dates are filled in, `totalDays` is their span. */
    ghost predicate SpanConsistent()
      reads this
    {
      form.startDate.At? && form.endDate.At? ==> totalDays == DaySpan(form.startDate.ms, form.endDate.ms)
    }

    constructor (table0: seq<LeaveRequest>, nextId0: nat)
      ensures table == table0 && nextId == nextId0 && requests == []
      ensures form == InitialForm() && totalDays == 0 && !isLoading && error == ""
      ensures SpanConsistent()
    {
      table, nextId, requests := table0, nextId0, [];
      form, totalDays, isLoading, error := InitialForm(), 0, false, "";
    }

    /** `handleInputChange`, followed by the `totalDays` effect, which runs
        when a date changed. */
    method HandleInputChange(change: FieldChange)
      modifies this`form, this`totalDays
      ensures form == ApplyChange(old(form), change)
      ensures totalDays ==
                if form.startDate != old(form.startDate) || form.endDate != old(form.endDate)
                then TotalDaysEffect(form, old(totalDays)) else old(totalDays)
      ensures old(SpanConsistent()) ==> SpanConsistent()
    {
      var before := form;
      form := ApplyChange(form, change);
      if form.startDate != before.startDate || form.endDate != before.endDate {
        totalDays := TotalDaysEffect(form, totalDays);
      }
    }

    /** `handleSubmit`. Without a session: the error is set and nothing is
        inserted. With one: one pending row for the session's user is
        inserted, the form is reset and the user's requests are refetched;
        `totalDays` is not reset. The loading flag ends cleared. The start
        date and reason are `required` inputs, so the browser submits only
        with both filled in. */
    method HandleSubmit(session: Option<UserId>)
      requires form.startDate.At? && form.reason != ""
      modifies this
      ensures !isLoading && totalDays == old(totalDays)
      ensures session.None? ==>
                table == old(table) && nextId == old(nextId) && form == old(form) &&
                requests == old(requests) && error == "No session"
      ensures session.Some? ==>
                table == [SubmitData(old(form), old(nextId), session.value)] + old(table) &&
                nextId == old(nextId) + 1 && form == InitialForm() && error == "" &&
                requests == UserRequests(table, session.value)
      ensures old(SpanConsistent()) ==> SpanConsistent()
    {
      isLoading := true;
      error := "";
      if session.None? {
        error := "No session";
        isLoading := false;
        return;
      }
      var u := session.value;
      table := [SubmitData(form, nextId, u)] + table;
      nextId := nextId + 1;
      form := InitialForm();
      requests := UserRequests(table, u);
      isLoading := false;
    }
  }
}
