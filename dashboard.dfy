/** The dashboard's summary figures (`src/app/dashboard/page.tsx`), computed
    once from the caller's attendance rows and tasks. */
module Dashboard {
  import opened Common
  import Attendance
  import Tasks

  /** `totalHours` in hundredths of an hour; `attendanceRate` in percent. */
  datatype Stats = Stats(totalHours: int, leaveBalance: int, tasksCompleted: int, attendanceRate: int)

  /** The state the page starts from; the leave balance is a constant 20. */
  const InitialStats: Stats := Stats(0, 20, 0, 0)

  /** The working days the attendance rate is measured against. */
  const WorkingDays: int := 20

  /** `reduce((acc, curr) => acc + (curr.total_hours || 0), 0)`: a row still
      open counts zero. */
  function SumHours(rows: seq<Attendance.AttendanceRecord>): (total: int)
    ensures (forall i :: 0 <= i < |rows| ==> rows[i].totalHours.None? || rows[i].totalHours.value >= 0) ==> total >= 0
  {
    if rows == [] then 0
    else (match rows[0].totalHours case Some(h) => h case None => 0) + SumHours(rows[1..])
  }

  /** The sum is additive over any split of the rows. */
  lemma {:induction false} SumHoursAppend(a: seq<Attendance.AttendanceRecord>, b: seq<Attendance.AttendanceRecord>)
    ensures SumHours(a + b) == SumHours(a) + SumHours(b)
  {
    if a != [] {
      assert (a + b)[1..] == a[1..] + b;
      SumHoursAppend(a[1..], b);
    } else {
      assert a + b == b;
    }
  }

  /** Checking out adds the recorded hours to the total: closing row `i`
      of a table, which had no hours yet, raises the user's total by `h`. */
  lemma {:induction false} SumHoursAfterClose(rows: seq<Attendance.AttendanceRecord>, id: nat, now: int, h: int)
    requires forall i, j :: 0 <= i < j < |rows| ==> rows[i].id != rows[j].id
    requires exists i :: 0 <= i < |rows| && rows[i].id == id && rows[i].totalHours.None?
    ensures SumHours(Attendance.CloseRecord(rows, id, now, h)) == SumHours(rows) + h
  {
    var r := Attendance.CloseRecord(rows, id, now, h);
    assert r[1..] == Attendance.CloseRecord(rows[1..], id, now, h);
    if rows[0].id == id {
      assert forall i :: 1 <= i < |rows| ==> rows[i].id != id;
      assert r[1..] == rows[1..];
    } else {
      var i :| 0 <= i < |rows| && rows[i].id == id && rows[i].totalHours.None?;
      assert rows[1..][i - 1].id == id;
      SumHoursAfterClose(rows[1..], id, now, h);
    }
  }

  /** `tasks.filter(t => t.status === 'COMPLETED').length`. */
  function CountCompleted(tasks: seq<Tasks.Task>): (n: nat)
    ensures n <= |tasks|
    ensures n == |tasks| <==> forall i :: 0 <= i < |tasks| ==> tasks[i].status == Tasks.Completed
  {
    if tasks == [] then 0
    else (if tasks[0].status == Tasks.Completed then 1 else 0) + CountCompleted(tasks[1..])
  }

  /** The count is additive over any split of the tasks. */
  lemma {:induction false} CountCompletedAppend(a: seq<Tasks.Task>, b: seq<Tasks.Task>)
    ensures CountCompleted(a + b) == CountCompleted(a) + CountCompleted(b)
  {
    if a != [] {
      assert (a + b)[1..] == a[1..] + b;
      CountCompletedAppend(a[1..], b);
    } else {
      assert a + b == b;
    }
  }

  /** `fetchProfileAndStats`: without a session the figures keep their values.
      With one, each query answers with the caller's rows or fails (`None`);
      a failed attendance query gives zero hours and a zero rate, a failed
      task query zero completed tasks. The rate is `rows / 20 * 100`, open
      records included and not capped at 100. */
  function ComputeStats(session: Option<UserId>, attendance: Option<seq<Attendance.AttendanceRecord>>,
                        tasks: Option<seq<Tasks.Task>>, current: Stats): (s: Stats)
    ensures session.None? ==> s == current
    ensures session.Some? ==> s.leaveBalance == 20
    ensures session.Some? ==>
              s.totalHours == (if attendance.Some? then SumHours(Attendance.UserRows(attendance.value, session.value)) else 0)
    ensures session.Some? ==>
              s.attendanceRate * WorkingDays == (if attendance.Some? then |Attendance.UserRows(attendance.value, session.value)| * 100 else 0)
    ensures session.Some? ==>
              s.tasksCompleted == (if tasks.Some? then CountCompleted(Tasks.AssignedTo(tasks.value, session.value)) else 0)
    ensures session.Some? ==>
              0 <= s.tasksCompleted <= (if tasks.Some? then |Tasks.AssignedTo(tasks.value, session.value)| else 0)
  {
    if session.None? then current
    else
      var u := session.value;
      var rows := if attendance.Some? then Attendance.UserRows(attendance.value, u) else [];
      var totalHours := SumHours(rows);
      var completed := if tasks.Some? then CountCompleted(Tasks.AssignedTo(tasks.value, u)) else 0;
      var rate := if attendance.Some? then |rows| * 5 else 0;
      Stats(totalHours, 20, completed, rate)
  }

  /** The rate is not capped: twenty-one records read as 105 percent. */
  lemma RateNotCapped(u: UserId, rows: seq<Attendance.AttendanceRecord>)
    requires |rows| == 21 && forall i :: 0 <= i < |rows| ==> rows[i].userId == u
    ensures ComputeStats(Some(u), Some(rows), None, InitialStats).attendanceRate == 105
  {
    AllOwnRows(rows, u);
  }

  lemma {:induction false} AllOwnRows(rows: seq<Attendance.AttendanceRecord>, u: UserId)
    requires forall i :: 0 <= i < |rows| ==> rows[i].userId == u
    ensures Attendance.UserRows(rows, u) == rows
  {
    if rows != [] {
      AllOwnRows(rows[1..], u);
    }
  }
}
