/** The task board (`src/app/dashboard/tasks/page.tsx`): the expected-time
    fields and their encoding as decimal hours, the due-date normalisation,
    and creation, editing, status change, deletion and the role-filtered
    listing of rows of the `tasks` table. */
module Tasks {
  import opened Common
  import opened Utils

  datatype TaskStatus = Pending | InProgress | Completed

  datatype Priority = Low | Medium | High

  datatype Role = Employee | Manager

  /** A row of `tasks`. `expectedHours` is in hundredths of an hour. */
  datatype Task = Task(
    id: nat,
    title: string,
    description: string,
    dueDate: int,
    priority: Priority,
    status: TaskStatus,
    userId: UserId,
    expectedHours: Option<int>,
    updatedAt: Option<int>)

  // ---------------------------------------------------------------------
  // Expected time
  // ---------------------------------------------------------------------

  /** The longest run of digits at the front of `s`. */
  function LeadingDigits(s: string): (d: string)
    ensures |d| <= |s| && AllDigits(d) && d == s[..|d|]
    ensures |d| < |s| ==> !IsDigit(s[|d|])
  {
    if s != [] && IsDigit(s[0]) then
      var rest := LeadingDigits(s[1..]);
      assert [s[0]] + rest == s[..|rest| + 1];
      [s[0]] + rest
    else []
  }

  /** `parseInt(s)` in base ten: leading white space, an optional sign and
      the digits that follow; `None` for `NaN` when there is no digit. A
      string of digits reads as its value; text with no digit, or whose first
      character is neither white space, a sign nor a digit, is `NaN`; only a
      leading minus makes the value negative. */
  function ParseInt(s: string): (r: Option<int>)
    ensures |s| >= 1 && AllDigits(s) ==> r == Some(DigitsValue(s))
    ensures (forall i :: 0 <= i < |s| ==> !IsDigit(s[i])) ==> r.None?
    ensures s != [] && !IsJsWhitespace(s[0]) && !IsDigit(s[0]) && s[0] != '-' && s[0] != '+' ==> r.None?
    ensures r.Some? && r.value < 0 ==> TrimStart(s) != [] && TrimStart(s)[0] == '-'
  {
    var t := TrimStart(s);
    var negative := t != [] && t[0] == '-';
    var rest := if t != [] && (t[0] == '-' || t[0] == '+') then t[1..] else t;
    var digits := LeadingDigits(rest);
    assert rest != [] ==> rest[0] == s[|s| - |rest|];
    DigitsParseWhole(s);
    if digits == [] then None
    else Some(if negative then -(DigitsValue(digits) as int) else DigitsValue(digits))
  }

  /** The digits at the front of `p + q` are `p` when `q` does not go on
      with a digit. */
  lemma LeadingDigitsOfNumber(p: string, q: string)
    requires AllDigits(p) && (q == [] || !IsDigit(q[0]))
    ensures LeadingDigits(p + q) == p
  {
    var s := p + q;
    assert s[..|p|] == p;
  }

  /** `parseInt` of white space, an optional sign, digits and any text that
      does not go on with a digit is the signed value of those digits:
      `parseInt(" -12px")` is -12 and `parseInt("7.5")` is 7. */
  lemma ParseIntLeadingNumber(w: string, sign: string, p: string, q: string)
    requires forall i :: 0 <= i < |w| ==> IsJsWhitespace(w[i])
    requires sign == "" || sign == "+" || sign == "-"
    requires |p| >= 1 && AllDigits(p) && (q == [] || !IsDigit(q[0]))
    ensures var r := ParseInt(w + (sign + (p + q)));
      r.Some? && r.value == if sign == "-" then -(DigitsValue(p) as int) else DigitsValue(p)
  {
    var s := w + (sign + (p + q));
    TrimStartBeforeNumber(w, sign, p + q);
    if sign == "" {
      ParseIntUnsigned(s, p, q);
    } else {
      assert sign + (p + q) == [sign[0]] + (p + q);
      ParseIntSigned(s, sign[0], p, q);
    }
  }

  /** White space in front of a signed or unsigned number is all that
      `TrimStart` drops. */
  lemma TrimStartBeforeNumber(w: string, sign: string, n: string)
    requires forall i :: 0 <= i < |w| ==> IsJsWhitespace(w[i])
    requires sign == "" || sign == "+" || sign == "-"
    requires |n| >= 1 && IsDigit(n[0])
    ensures TrimStart(w + (sign + n)) == sign + n
  {
    assert !IsJsWhitespace(n[0]);
    TrimStartAfterBlanks(w, sign + n);
  }

  /** The digits of a trimmed text without a sign give its value. */
  lemma ParseIntUnsigned(s: string, p: string, q: string)
    requires |p| >= 1 && AllDigits(p) && (q == [] || !IsDigit(q[0]))
    requires TrimStart(s) == p + q
    ensures ParseInt(s).Some? && ParseInt(s).value == DigitsValue(p)
  {
    var t := TrimStart(s);
    assert t[0] == p[0] && IsDigit(p[0]);
    LeadingDigitsOfNumber(p, q);
  }

  /** A sign in front of the digits of a trimmed text sets the sign of its
      value. */
  lemma ParseIntSigned(s: string, c: char, p: string, q: string)
    requires |p| >= 1 && AllDigits(p) && (q == [] || !IsDigit(q[0]))
    requires (c == '+' || c == '-') && TrimStart(s) == [c] + (p + q)
    ensures ParseInt(s).Some? &&
            ParseInt(s).value == if c == '-' then -(DigitsValue(p) as int) else DigitsValue(p)
  {
    var t := TrimStart(s);
    assert t[0] == c && t[1..] == p + q;
    LeadingDigitsOfNumber(p, q);
  }

  /** `parseInt` of white space, an optional sign and text that does not
      start with a digit is `NaN`; with no sign, that text must not start
      with white space or a sign of its own. */
  lemma ParseIntNoNumber(w: string, sign: string, q: string)
    requires forall i :: 0 <= i < |w| ==> IsJsWhitespace(w[i])
    requires sign == "+" || sign == "-" ||
             (sign == "" && (q == [] || (!IsJsWhitespace(q[0]) && q[0] != '+' && q[0] != '-')))
    requires q == [] || !IsDigit(q[0])
    ensures ParseInt(w + (sign + q)).None?
  {
    var rest := sign + q;
    TrimStartAfterBlanks(w, rest);
    assert (if sign == "" then rest else rest[1..]) == q;
  }

  /** The example of the decimal point: `parseInt("7.5")` is 7. */
  lemma ParseIntStopsAtPoint()
    ensures ParseInt("7.5") == Some(7)
  {
    assert "7.5" == [] + ("" + ("7" + ".5"));
    ParseIntLeadingNumber([], "", "7", ".5");
  }

  /** `parseInt` reads back the decimal form of a number. */
  lemma ParseIntOfNat(n: nat)
    ensures ParseInt(NatToString(n)) == Some(n)
  {
    NatToStringRoundTrip(n);
  }

  /** A string of digits has no white space or sign in front, and all of it
      is the leading number. */
  lemma DigitsParseWhole(s: string)
    ensures |s| >= 1 && AllDigits(s) ==>
              TrimStart(s) == s && s[0] != '-' && s[0] != '+' && LeadingDigits(s) == s
  {
    if |s| >= 1 && AllDigits(s) {
      assert IsDigit(s[0]);
      assert !IsJsWhitespace(s[0]);
      LeadingDigitsOfDigits(s);
    }
  }

  lemma {:induction false} LeadingDigitsOfDigits(s: string)
    requires AllDigits(s)
    ensures LeadingDigits(s) == s
  {
    if s != [] {
      LeadingDigitsOfDigits(s[1..]);
    }
  }

  /** The hours input handler: `Math.min(Math.max(0, parseInt(v) || 0), 24)`.
      Always between 0 and 24; text without a leading number gives 0. */
  function ClampHours(input: string): (h: int)
    ensures 0 <= h <= 24
    ensures ParseInt(input).None? ==> h == 0
    ensures ParseInt(input).Some? ==>
              h == if ParseInt(input).value < 0 then 0
                   else if ParseInt(input).value > 24 then 24 else ParseInt(input).value
  {
    var n := match ParseInt(input) case Some(v) => v case None => 0;
    var atLeastZero := if n > 0 then n else 0;
    if atLeastZero < 24 then atLeastZero else 24
  }

  /** Typing a whole number of hours keeps it when it is at most 24 and caps
      it at 24 otherwise. */
  lemma ClampTypedHours(n: nat)
    ensures ClampHours(NatToString(n)) == if n <= 24 then n else 24
  {
    ParseIntOfNat(n);
  }

  /** The minutes `<select>` offers these; each option's `value` is the
      number written in decimal. */
  const MinuteOptions: seq<nat> := [0, 15, 30, 45]

  predicate IsQuarter(m: int) { m == 0 || m == 15 || m == 30 || m == 45 }

  /** The minutes handler: `parseInt` of the chosen option's value, which is
      the option itself and so always a quarter of an hour. */
  function SelectMinutes(choice: nat): (m: int)
    requires choice < |MinuteOptions|
    ensures m == MinuteOptions[choice] && IsQuarter(m)
  {
    ParseIntOfNat(MinuteOptions[choice]);
    match ParseInt(NatToString(MinuteOptions[choice])) case Some(v) => v case None => 0
  }

  /** `expected_hours`: `hours + minutes / 60` rounded to two decimals when
      positive, else null. In hundredths of an hour: the nearest hundredth to
      the entered time. */
  function ComposeExpected(hours: int, minutes: int): (e: Option<int>)
    ensures e.None? <==> hours * 60 + minutes <= 0
    ensures e.Some? ==> 2 * Abs(e.value * 60 - (hours * 60 + minutes) * 100) <= 60 && e.value >= 0
  {
    var total := hours * 60 + minutes;
    if total > 0 then Some(RoundDiv(total * 100, 60)) else None
  }

  /** Quarter hours are stored exactly: 15 minutes is 0.25 hours. */
  lemma ComposeQuarters(hours: nat, minutes: int)
    requires IsQuarter(minutes) && hours * 60 + minutes > 0
    ensures ComposeExpected(hours, minutes) == Some(hours * 100 + minutes * 5 / 3)
  {
    var total := hours * 60 + minutes;
    RoundDivUnique(total * 100, 60, hours * 100 + minutes * 5 / 3);
  }

  /** The edit button's split of `expected_hours`: `Math.floor(e)` hours and
      `Math.round((e % 1) * 60)` minutes, with null read as zero. */
  function DecomposeExpected(e: Option<int>): (hm: (int, int))
    ensures e.None? ==> hm == (0, 0)
    ensures e.Some? && e.value >= 0 ==>
              hm.0 * 100 <= e.value < hm.0 * 100 + 100 && 0 <= hm.1 <= 60 &&
              Abs(hm.1 * 100 - (e.value - hm.0 * 100) * 60) <= 50
  {
    var x := match e case Some(v) => v case None => 0;
    var fraction := JsRem(x, 100);
    (x / 100, (fraction * 6 + 5) / 10)
  }

  /** Splitting a composed time gives back the hours and minutes entered, for
      any whole minute count below an hour, quarters included. */
  lemma {:induction false} DecomposeCompose(hours: nat, minutes: int)
    requires 0 <= minutes < 60
    ensures DecomposeExpected(ComposeExpected(hours, minutes)) == (hours, minutes)
  {
    var e := ComposeExpected(hours, minutes);
    if e.Some? {
      var q := e.value - hours * 100;
      assert 2 * Abs(q * 60 - minutes * 100) <= 60;
      assert 0 <= q <= 98;
      assert e.value / 100 == hours && e.value % 100 == q;
      assert (q * 6 + 5) / 10 == minutes;
    }
  }

  /** Saving an edit without touching the time fields writes back the
      stored value. */
  lemma EditKeepsExpected(hours: nat, minutes: int)
    requires 0 <= minutes < 60
    ensures var hm := DecomposeExpected(ComposeExpected(hours, minutes));
            ComposeExpected(hm.0, hm.1) == ComposeExpected(hours, minutes)
  {
    DecomposeCompose(hours, minutes);
  }

  // ---------------------------------------------------------------------
  // Due date
  // ---------------------------------------------------------------------

  /** `setHours(23, 59, 59, 999)`: the last millisecond of the local day. */
  function EndOfDay(t: int): (r: int)
    ensures r / MsPerDay == t / MsPerDay && r % MsPerDay == MsPerDay - 1
    ensures r >= t
  {
    (t / MsPerDay) * MsPerDay + MsPerDay - 1
  }

  lemma EndOfDayIdempotent(t: int)
    ensures EndOfDay(EndOfDay(t)) == EndOfDay(t)
  {
  }

  /** As written: the `yyyy-MM-dd` of the date input is parsed as midnight
      UTC of calendar day `day`, which is `day * MsPerDay + offset` in local
      milliseconds (`offset` = local time minus UTC), and then moved to the
      end of that local day. */
  function DueDateAsWritten(day: int, offset: int): (r: int)
    ensures r % MsPerDay == MsPerDay - 1
  {
    EndOfDay(day * MsPerDay + offset)
  }

  /** West of UTC the stored due date falls on the day before the one
      picked. */
  lemma DueDateAsWrittenShiftsWest(day: int, offset: int)
    requires -MsPerDay < offset < 0
    ensures DueDateAsWritten(day, offset) / MsPerDay == day - 1
  {
  }

  /** Choosing 10 June 1970 (day 160) at UTC-5 stores 9 June. */
  lemma DueDateAsWrittenExample()
    ensures DueDateAsWritten(160, -5 * MsPerHour) == 159 * MsPerDay + MsPerDay - 1
  {
  }

  /** The due date evidently intended: 23:59:59.999 of the picked local day. */
  function DueDateForDay(day: int): (r: int)
    ensures r / MsPerDay == day && r % MsPerDay == MsPerDay - 1
  {
    EndOfDay(day * MsPerDay)
  }

  /** The two agree exactly for time zones at or east of UTC. */
  lemma DueDateAgreesEastOfUtc(day: int, offset: int)
    requires -MsPerDay < offset < MsPerDay
    ensures DueDateAsWritten(day, offset) == DueDateForDay(day) <==> offset >= 0
  {
  }

  /** The due-date field: nothing, a day picked in the date input, or the
      stored timestamp the edit button puts back. */
  datatype DueInput = NoDate | Day(day: int) | Instant(ms: int)

  /** The normalised due date of a filled-in field: the end of the picked
      day, or of the day of the stored timestamp. */
  function NormaliseDue(due: DueInput): (r: int)
    requires !due.NoDate?
    ensures r % MsPerDay == MsPerDay - 1
    ensures due.Day? ==> r / MsPerDay == due.day
    ensures due.Instant? ==> r / MsPerDay == due.ms / MsPerDay && r >= due.ms
  {
    match due
    case Day(d) => DueDateForDay(d)
    case Instant(t) => EndOfDay(t)
  }

  /** Saving an edit without picking a new day keeps the stored due date. */
  lemma EditKeepsDueDate(t: Task)
    requires t.dueDate % MsPerDay == MsPerDay - 1
    ensures NormaliseDue(Instant(t.dueDate)) == t.dueDate
  {
  }

  // ---------------------------------------------------------------------
  // The task table
  // ---------------------------------------------------------------------

  datatype TaskForm = TaskForm(
    title: string,
    description: string,
    due: DueInput,
    priority: Priority,
    userId: UserId,
    hours: int,
    minutes: int)

  function EmptyForm(): (f: TaskForm)
    ensures f.due == NoDate && f.priority == Medium && f.hours == 0 && f.minutes == 0
    ensures f.title == "" && f.description == "" && f.userId == ""
  {
    TaskForm("", "", NoDate, Medium, "", 0, 0)
  }

  /** The form the edit button fills in from a row. */
  function EditForm(t: Task): (f: TaskForm)
    ensures f.due == Instant(t.dueDate) && (f.hours, f.minutes) == DecomposeExpected(t.expectedHours)
    ensures f.title == t.title && f.description == t.description
    ensures f.priority == t.priority && f.userId == t.userId
  {
    var hm := DecomposeExpected(t.expectedHours);
    TaskForm(t.title, t.description, Instant(t.dueDate), t.priority, t.userId, hm.0, hm.1)
  }

  /** The row `handleSubmit` inserts: always pending. */
  function NewTask(id: nat, form: TaskForm): (t: Task)
    requires !form.due.NoDate?
    ensures t.status == Pending && t.id == id && t.userId == form.userId
    ensures t.dueDate == NormaliseDue(form.due)
    ensures t.expectedHours == ComposeExpected(form.hours, form.minutes)
    ensures t.title == form.title && t.description == form.description && t.priority == form.priority
  {
    Task(id, form.title, form.description, NormaliseDue(form.due), form.priority, Pending,
         form.userId, ComposeExpected(form.hours, form.minutes), None)
  }

  /** The update of an edit: the form's fields and `updated_at`; the id and
      the status are kept. */
  function Edited(t: Task, form: TaskForm, now: int): (r: Task)
    requires !form.due.NoDate?
    ensures r.id == t.id && r.status == t.status && r.updatedAt == Some(now)
    ensures r == NewTask(t.id, form).(status := t.status, updatedAt := Some(now))
  {
    t.(title := form.title, description := form.description, dueDate := NormaliseDue(form.due),
       priority := form.priority, userId := form.userId,
       expectedHours := ComposeExpected(form.hours, form.minutes), updatedAt := Some(now))
  }

  /** `.update({...}).eq('id', id)` with the form: only rows with that id
      change. */
  function ApplyEdit(table: seq<Task>, id: nat, form: TaskForm, now: int): (r: seq<Task>)
    requires !form.due.NoDate?
    ensures |r| == |table|
    ensures forall i :: 0 <= i < |table| ==>
              r[i] == if table[i].id == id then Edited(table[i], form, now) else table[i]
  {
    seq(|table|, i requires 0 <= i < |table| =>
      if table[i].id == id then Edited(table[i], form, now) else table[i])
  }

  /** `handleStatusChange`'s update: status and `updated_at` of the rows with
      that id. */
  function SetTaskStatus(table: seq<Task>, id: nat, status: TaskStatus, now: int): (r: seq<Task>)
    ensures |r| == |table|
    ensures forall i :: 0 <= i < |table| && table[i].id != id ==> r[i] == table[i]
    ensures forall i :: 0 <= i < |table| && table[i].id == id ==>
              r[i] == table[i].(status := status, updatedAt := Some(now))
  {
    seq(|table|, i requires 0 <= i < |table| =>
      if table[i].id == id then table[i].(status := status, updatedAt := Some(now)) else table[i])
  }

  /** `.delete().eq('id', id)`: the rows with that id go, the rest stay in
      order. */
  function DeleteTask(table: seq<Task>, id: nat): (r: seq<Task>)
    ensures forall t :: t in r <==> t in table && t.id != id
    ensures |r| <= |table|
  {
    if table == [] then []
    else (if table[0].id != id then [table[0]] else []) + DeleteTask(table[1..], id)
  }

  /** The rows of one assignee, in table order. */
  function AssignedTo(table: seq<Task>, u: UserId): (r: seq<Task>)
    ensures forall t :: t in r <==> t in table && t.userId == u
    ensures |r| <= |table|
  {
    if table == [] then []
    else (if table[0].userId == u then [table[0]] else []) + AssignedTo(table[1..], u)
  }

  /** `fetchTasks`' query: every row for a manager, a non-manager's own rows
      otherwise. */
  function VisibleTasks(table: seq<Task>, u: UserId, isManager: bool): (r: seq<Task>)
    ensures isManager ==> r == table
    ensures !isManager ==> forall t :: t in r <==> t in table && t.userId == u
  {
    if isManager then table else AssignedTo(table, u)
  }

  /** The complete button is offered on every task not yet completed. */
  predicate OffersComplete(t: Task) { t.status != Completed }

  /** Completing a task withdraws its complete button and leaves the other
      rows' buttons as they were. */
  lemma CompleteIsTerminalInView(table: seq<Task>, id: nat, now: int, i: int)
    requires 0 <= i < |table|
    ensures table[i].id == id ==> !OffersComplete(SetTaskStatus(table, id, Completed, now)[i])
    ensures table[i].id != id ==> OffersComplete(SetTaskStatus(table, id, Completed, now)[i]) == OffersComplete(table[i])
  {
  }

  /** The task page state and the store's table. */
  class TaskBoard {
    /** The `tasks` table, newest row first. */
    var table: seq<Task>
    var nextId: nat
    var tasks: seq<Task>
    var isManager: bool
    var form: TaskForm
    var editing: Option<Task>
    var showTaskForm: bool
    var isLoading: bool

    constructor (table0: seq<Task>, nextId0: nat)
      ensures table == table0 && nextId == nextId0 && tasks == [] && !isManager
      ensures form == EmptyForm() && editing.None? && !showTaskForm && !isLoading
    {
      table, nextId, tasks, isManager := table0, nextId0, [], false;
      form, editing, showTaskForm, isLoading := EmptyForm(), None, false, false;
    }

    /** `fetchTasks`: without a session nothing changes; with one, the role
        read from the caller's profile decides between all rows and their own. */
    method FetchTasks(session: Option<UserId>, role: Option<Role>)
      modifies this`tasks, this`isManager
      ensures session.None? ==> tasks == old(tasks) && isManager == old(isManager)
      ensures session.Some? ==>
                isManager == (role == Some(Manager)) &&
                tasks == VisibleTasks(table, session.value, isManager)
    {
      if session.None? {
        return;
      }
      isManager := role == Some(Manager);
      tasks := VisibleTasks(table, session.value, isManager);
    }

    /** The hours input. */
    method ChangeHours(input: string)
      modifies this`form
      ensures form == old(form).(hours := ClampHours(input))
    {
      form := form.(hours := ClampHours(input));
    }

    /** The minutes select. */
    method ChangeMinutes(choice: nat)
      requires choice < |MinuteOptions|
      modifies this`form
      ensures form == old(form).(minutes := SelectMinutes(choice))
    {
      form := form.(minutes := SelectMinutes(choice));
    }

    /** The date input. */
    method PickDueDay(day: int)
      modifies this`form
      ensures form == old(form).(due := Day(day))
    {
      form := form.(due := Day(day));
    }

    /** The edit button: the row is remembered and the form filled from it. */
    method StartEdit(t: Task)
      modifies this`editing, this`form, this`showTaskForm
      ensures editing == Some(t) && form == EditForm(t) && showTaskForm
    {
      editing := Some(t);
      form := EditForm(t);
      showTaskForm := true;
    }

    /** `handleSubmit`. Without a session nothing is written. Otherwise an
        edit updates the edited id with the form and keeps its status, and a
        new task is inserted pending; then the form is reset and closed. The
        due date is a `required` input, so the browser submits only with one. */
    method HandleSubmit(session: Option<UserId>, now: int)
      requires !form.due.NoDate?
      modifies this
      ensures !isLoading && tasks == old(tasks) && isManager == old(isManager)
      ensures session.None? ==>
                table == old(table) && nextId == old(nextId) && form == old(form) &&
                editing == old(editing) && showTaskForm == old(showTaskForm)
      ensures session.Some? && old(editing).Some? ==>
                table == ApplyEdit(old(table), old(editing).value.id, old(form), now) && nextId == old(nextId)
      ensures session.Some? && old(editing).None? ==>
                table == [NewTask(old(nextId), old(form))] + old(table) && nextId == old(nextId) + 1
      ensures session.Some? ==> form == EmptyForm() && editing.None? && !showTaskForm
    {
      isLoading := true;
      if session.None? {
        isLoading := false;
        return;
      }
      if editing.Some? {
        table := ApplyEdit(table, editing.value.id, form, now);
      } else {
        table := [NewTask(nextId, form)] + table;
        nextId := nextId + 1;
      }
      showTaskForm := false;
      editing := None;
      form := EmptyForm();
      isLoading := false;
    }

    /** `handleStatusChange`: status and update time of that id, then a
        refetch. */
    method HandleStatusChange(id: nat, status: TaskStatus, now: int, session: Option<UserId>, role: Option<Role>)
      modifies this
      ensures table == SetTaskStatus(old(table), id, status, now) && nextId == old(nextId)
      ensures session.None? ==> tasks == old(tasks) && isManager == old(isManager)
      ensures session.Some? ==>
                isManager == (role == Some(Manager)) &&
                tasks == VisibleTasks(table, session.value, isManager)
      ensures form == old(form) && editing == old(editing)
      ensures showTaskForm == old(showTaskForm) && isLoading == old(isLoading)
    {
      table := SetTaskStatus(table, id, status, now);
      FetchTasks(session, role);
    }

    /** `handleDelete`: nothing unless the confirmation returns true; then
        the rows with that id are deleted and the list refetched. */
    method HandleDelete(id: nat, confirmed: bool, session: Option<UserId>, role: Option<Role>)
      modifies this
      ensures !confirmed ==> table == old(table) && tasks == old(tasks) && isManager == old(isManager)
      ensures confirmed ==> table == DeleteTask(old(table), id)
      ensures confirmed && session.None? ==> tasks == old(tasks) && isManager == old(isManager)
      ensures confirmed && session.Some? ==>
                isManager == (role == Some(Manager)) &&
                tasks == VisibleTasks(table, session.value, isManager)
      ensures nextId == old(nextId) && form == old(form) && editing == old(editing)
      ensures showTaskForm == old(showTaskForm) && isLoading == old(isLoading)
    {
      if !confirmed {
        return;
      }
      table := DeleteTask(table, id);
      FetchTasks(session, role);
    }
  }
}
