/** The attendance page (`src/app/dashboard/attendance/page.tsx`): a user's
    history of check-in records, the record still open, and the check-in /
    check-out toggle. The store's `attendance` table is held as a sequence,
    newest row first, which is the order the page asks for. */
module Attendance {
  import opened Common

  datatype Status = Present | Absent | Late

  /** One row of the `attendance` table. `totalHours` is in hundredths of an
      hour, the two decimals `toFixed(2)` keeps. */
  datatype AttendanceRecord = AttendanceRecord(
    id: nat,
    userId: UserId,
    checkIn: int,
    checkOut: Option<int>,
    totalHours: Option<int>,
    status: Status,
    createdAt: int,
    updatedAt: int)

  /** 09:00:00.000 as milliseconds after local midnight. */
  const WorkDayStart: int := 9 * MsPerHour

  /** `startOfWorkDay`: the local day of `now`, with the clock set to 09:00. */
  function StartOfWorkDay(now: int): (t: int)
    ensures t / MsPerDay == now / MsPerDay && t % MsPerDay == WorkDayStart
  {
    (now / MsPerDay) * MsPerDay + WorkDayStart
  }

  /** The status a check-in at `now` is recorded with: late exactly when the
      time of day is past 09:00:00.000; a check-in is never `absent`. */
  function CheckInStatus(now: int): (s: Status)
    ensures s == Late <==> now % MsPerDay > WorkDayStart
    ensures s != Absent
  {
    if now > StartOfWorkDay(now) then Late else Present
  }

  /** Check-in at 08:30 is on time, at 09:00:00.000 still on time, one
      millisecond later and at 09:15 late, on any day. */
  lemma CheckInScenarios(day: int)
    ensures CheckInStatus(day * MsPerDay + 8 * MsPerHour + 30 * MsPerMinute) == Present
    ensures CheckInStatus(day * MsPerDay + WorkDayStart) == Present
    ensures CheckInStatus(day * MsPerDay + WorkDayStart + 1) == Late
    ensures CheckInStatus(day * MsPerDay + 9 * MsPerHour + 15 * MsPerMinute) == Late
  {
    TimeOfDay(day, 8 * MsPerHour + 30 * MsPerMinute);
    TimeOfDay(day, WorkDayStart);
    TimeOfDay(day, WorkDayStart + 1);
    TimeOfDay(day, 9 * MsPerHour + 15 * MsPerMinute);
  }

  lemma TimeOfDay(day: int, ms: int)
    requires 0 <= ms < MsPerDay
    ensures (day * MsPerDay + ms) % MsPerDay == ms
  {
  }

  /** Milliseconds per hundredth of an hour. */
  const MsPerHundredthHour: int := MsPerHour / 100

  /** `Number(((checkOut - checkIn) / 3600000).toFixed(2))` in hundredths of
      an hour: the nearest hundredth to the elapsed wall-clock time, with no
      special handling of midnight. */
  function HoursWorked(checkIn: int, checkOut: int): (h: int)
    ensures 2 * (h * MsPerHundredthHour - (checkOut - checkIn)) <= MsPerHundredthHour
    ensures 2 * ((checkOut - checkIn) - h * MsPerHundredthHour) <= MsPerHundredthHour
    ensures checkOut >= checkIn ==> h >= 0
  {
    RoundDiv(checkOut - checkIn, MsPerHundredthHour)
  }

  /** Checked in at 08:30 and out at 17:00 the same day: 8.50 hours. */
  lemma HoursWorkedScenario(day: int)
    ensures HoursWorked(day * MsPerDay + 8 * MsPerHour + 30 * MsPerMinute,
                        day * MsPerDay + 17 * MsPerHour) == 850
  {
    var elapsed := (day * MsPerDay + 17 * MsPerHour) - (day * MsPerDay + 8 * MsPerHour + 30 * MsPerMinute);
    assert elapsed == 850 * MsPerHundredthHour;
    RoundDivUnique(elapsed, MsPerHundredthHour, 850);
  }

  predicate IsOpen(r: AttendanceRecord) { r.checkOut.None? }

  predicate AllClosed(h: seq<AttendanceRecord>) { forall i :: 0 <= i < |h| ==> !IsOpen(h[i]) }

  /** The page's query: the rows of one user, in table order. */
  function UserRows(table: seq<AttendanceRecord>, u: UserId): (r: seq<AttendanceRecord>)
    ensures |r| <= |table|
    ensures forall i :: 0 <= i < |r| ==> r[i].userId == u
  {
    if table == [] then []
    else (if table[0].userId == u then [table[0]] else []) + UserRows(table[1..], u)
  }

  /** The page's history holds exactly the user's rows of the table. */
  lemma {:induction false} UserRowsMembers(table: seq<AttendanceRecord>, u: UserId)
    ensures forall x :: x in UserRows(table, u) <==> x in table && x.userId == u
  {
    if table != [] {
      UserRowsMembers(table[1..], u);
      assert table == [table[0]] + table[1..];
    }
  }

  /** `data.find(a => !a.check_out)`: the first record without a check-out,
      if there is one. */
  function FirstOpen(h: seq<AttendanceRecord>): (r: Option<AttendanceRecord>)
    ensures r.None? <==> AllClosed(h)
    ensures r.Some? ==> IsOpen(r.value)
  {
    if h == [] then None
    else if IsOpen(h[0]) then Some(h[0])
    else FirstOpen(h[1..])
  }

  /** The record found is the first open one: every record before it is
      closed. */
  lemma {:induction false} FirstOpenIsFirst(h: seq<AttendanceRecord>)
    requires FirstOpen(h).Some?
    ensures exists k :: 0 <= k < |h| && h[k] == FirstOpen(h).value && AllClosed(h[..k])
  {
    if IsOpen(h[0]) {
      assert h[..0] == [];
    } else {
      FirstOpenIsFirst(h[1..]);
      var k :| 0 <= k < |h[1..]| && h[1..][k] == FirstOpen(h).value && AllClosed(h[1..][..k]);
      assert h[..k + 1] == [h[0]] + h[1..][..k];
    }
  }

  /** A user has an open record in the page's view exactly when the table
      holds one for them. */
  lemma FirstOpenOfUser(table: seq<AttendanceRecord>, u: UserId)
    ensures FirstOpen(UserRows(table, u)).None? <==>
              forall i :: 0 <= i < |table| && table[i].userId == u ==> !IsOpen(table[i])
  {
    var h := UserRows(table, u);
    UserRowsMembers(table, u);
    if !AllClosed(h) {
      var i :| 0 <= i < |h| && IsOpen(h[i]);
      assert h[i] in table;
    }
    if exists i :: 0 <= i < |table| && table[i].userId == u && IsOpen(table[i]) {
      var i :| 0 <= i < |table| && table[i].userId == u && IsOpen(table[i]);
      assert table[i] in h;
    }
  }

  /** The invariant the toggle keeps: a user has at most one row without a
      check-out. */
  ghost predicate AtMostOneOpen(table: seq<AttendanceRecord>, u: UserId)
  {
    forall i, j ::
      0 <= i < |table| && 0 <= j < |table| && table[i].userId == u && IsOpen(table[i]) &&
      table[j].userId == u && IsOpen(table[j])
      ==> i == j
  }

  /** Row ids are distinct and below the next id the store hands out. */
  ghost predicate IdsValid(table: seq<AttendanceRecord>, nextId: nat)
  {
    (forall i :: 0 <= i < |table| ==> table[i].id < nextId) &&
    (forall i, j :: 0 <= i < j < |table| ==> table[i].id != table[j].id)
  }

  /** The row a check-in inserts: the user's row with the store's next id,
      open, late or present by the 09:00 rule, stamped `now` three times. */
  function CheckInRecord(id: nat, u: UserId, now: int): (r: AttendanceRecord)
    ensures r.id == id && r.userId == u
    ensures r.status == (if now % MsPerDay > WorkDayStart then Late else Present)
    ensures IsOpen(r) && r.totalHours.None?
    ensures r.checkIn == r.createdAt == r.updatedAt == now
  {
    AttendanceRecord(id, u, now, None, None, CheckInStatus(now), now, now)
  }

  /** The check-out update `.update({...}).eq('id', id)`: the row with that id
      gets its check-out, hours and update time; every other row is kept. */
  function CloseRecord(table: seq<AttendanceRecord>, id: nat, now: int, hours: int)
    : (r: seq<AttendanceRecord>)
    ensures |r| == |table|
    ensures forall i :: 0 <= i < |table| && table[i].id != id ==> r[i] == table[i]
    ensures forall i :: 0 <= i < |table| && table[i].id == id ==>
              r[i] == table[i].(checkOut := Some(now), totalHours := Some(hours), updatedAt := now)
  {
    seq(|table|, i requires 0 <= i < |table| =>
      if table[i].id == id
      then table[i].(checkOut := Some(now), totalHours := Some(hours), updatedAt := now)
      else table[i])
  }

  /** Checking in when the user has no open row leaves them exactly one, and
      it is the row just inserted, first in their history. */
  lemma CheckInKeepsOneOpen(table: seq<AttendanceRecord>, id: nat, u: UserId, now: int)
    requires FirstOpen(UserRows(table, u)).None?
    ensures AtMostOneOpen([CheckInRecord(id, u, now)] + table, u)
    ensures FirstOpen(UserRows([CheckInRecord(id, u, now)] + table, u)) == Some(CheckInRecord(id, u, now))
  {
    FirstOpenOfUser(table, u);
    var t := [CheckInRecord(id, u, now)] + table;
    assert t[1..] == table;
    forall i | 1 <= i < |t| && t[i].userId == u ensures !IsOpen(t[i]) {
      assert t[i] == table[i - 1];
    }
  }

  /** Checking out the user's current record, when they had at most one open
      row, leaves them none. */
  lemma CheckOutClosesAll(table: seq<AttendanceRecord>, nextId: nat, u: UserId, now: int, hours: int)
    requires IdsValid(table, nextId) && AtMostOneOpen(table, u)
    requires FirstOpen(UserRows(table, u)).Some?
    ensures var c := FirstOpen(UserRows(table, u)).value;
            FirstOpen(UserRows(CloseRecord(table, c.id, now, hours), u)).None?
  {
    var h := UserRows(table, u);
    var c := FirstOpen(h).value;
    FirstOpenIsFirst(h);
    UserRowsMembers(table, u);
    var k :| 0 <= k < |h| && h[k] == c && AllClosed(h[..k]);
    assert c in table;
    var p :| 0 <= p < |table| && table[p] == c;
    var t := CloseRecord(table, c.id, now, hours);
    forall i | 0 <= i < |t| && t[i].userId == u ensures !IsOpen(t[i]) {
      if i != p {
        assert table[i].id != c.id;
      }
    }
    FirstOpenOfUser(t, u);
  }

  /** The write `handleCheckInOut` makes, as the new table and next id. Not
      checked in: insert an open row stamped `now`. Checked in with a current
      record: close exactly that row. Checked in without one, or with no
      session: write nothing. */
  function Toggle(table: seq<AttendanceRecord>, nextId: nat, session: Option<UserId>,
                  isCheckedIn: bool, current: Option<AttendanceRecord>, now: int)
    : (r: (seq<AttendanceRecord>, nat))
    ensures session.Some? && !isCheckedIn ==>
              r == ([CheckInRecord(nextId, session.value, now)] + table, nextId + 1)
    ensures session.Some? && isCheckedIn && current.Some? ==>
              r == (CloseRecord(table, current.value.id, now, HoursWorked(current.value.checkIn, now)), nextId)
    ensures session.None? || (isCheckedIn && current.None?) ==> r == (table, nextId)
  {
    if session.None? then (table, nextId)
    else if !isCheckedIn then ([CheckInRecord(nextId, session.value, now)] + table, nextId + 1)
    else if current.Some? then
      (CloseRecord(table, current.value.id, now, HoursWorked(current.value.checkIn, now)), nextId)
    else (table, nextId)
  }

  /** Every toggle keeps the row ids distinct and below the next id. */
  lemma ToggleKeepsInvariants(table: seq<AttendanceRecord>, nextId: nat, session: Option<UserId>,
                              isCheckedIn: bool, current: Option<AttendanceRecord>, now: int)
    requires IdsValid(table, nextId)
    ensures var (t, n) := Toggle(table, nextId, session, isCheckedIn, current, now); IdsValid(t, n)
  {
    var (t, n) := Toggle(table, nextId, session, isCheckedIn, current, now);
    if session.Some? && !isCheckedIn {
      forall i, j | 0 <= i < j < |t| ensures t[i].id != t[j].id {
        assert t[j] == table[j - 1];
        if i > 0 { assert t[i] == table[i - 1]; }
      }
    } else if session.Some? && current.Some? {
      assert forall i :: 0 <= i < |t| ==> t[i].id == table[i].id;
    }
  }

  /** A toggle made from a page that shows the user's rows keeps at most one
      of their rows open. */
  lemma ToggleKeepsOneOpen(table: seq<AttendanceRecord>, nextId: nat, u: UserId,
                           isCheckedIn: bool, current: Option<AttendanceRecord>, now: int)
    requires IdsValid(table, nextId) && AtMostOneOpen(table, u)
    requires current == FirstOpen(UserRows(table, u)) && isCheckedIn == current.Some?
    ensures AtMostOneOpen(Toggle(table, nextId, Some(u), isCheckedIn, current, now).0, u)
  {
    if current.None? {
      CheckInKeepsOneOpen(table, nextId, u, now);
    } else {
      var t := CloseRecord(table, current.value.id, now, HoursWorked(current.value.checkIn, now));
      CheckOutClosesAll(table, nextId, u, now, HoursWorked(current.value.checkIn, now));
      FirstOpenOfUser(t, u);
    }
  }

  /** A toggle by one user leaves every other user with at most one open
      row: a check-in inserts a row of the acting user only, and a check-out
      only closes a row. */
  lemma ToggleKeepsOthersOneOpen(table: seq<AttendanceRecord>, nextId: nat, u: UserId, v: UserId,
                                 isCheckedIn: bool, current: Option<AttendanceRecord>, now: int)
    requires v != u && AtMostOneOpen(table, v)
    ensures AtMostOneOpen(Toggle(table, nextId, Some(u), isCheckedIn, current, now).0, v)
  {
    var t := Toggle(table, nextId, Some(u), isCheckedIn, current, now).0;
    if !isCheckedIn {
      forall i, j | 0 <= i < |t| && 0 <= j < |t| && t[i].userId == v && IsOpen(t[i]) &&
                    t[j].userId == v && IsOpen(t[j])
        ensures i == j
      {
        assert i > 0 && j > 0;
        assert t[i] == table[i - 1] && t[j] == table[j - 1];
      }
    } else if current.Some? {
      assert forall i :: 0 <= i < |t| ==> t[i].userId == table[i].userId;
      assert forall i :: 0 <= i < |t| && IsOpen(t[i]) ==> IsOpen(table[i]);
    }
  }

  /** The attendance page: the store's table, and the state the page keeps. */
  class AttendancePage {
    /** The `attendance` table, newest row first. */
    var table: seq<AttendanceRecord>
    /** The id the store gives the next inserted row. */
    var nextId: nat
    var history: seq<AttendanceRecord>
    var current: Option<AttendanceRecord>
    var isCheckedIn: bool
    var isLoading: bool

    ghost predicate Valid()
      reads this`table, this`nextId
    {
      IdsValid(table, nextId)
    }

    /** The page state matches what a fetch for user `u` shows. */
    ghost predicate Shows(u: UserId)
      reads this`table, this`history, this`current, this`isCheckedIn
    {
      history == UserRows(table, u) && current == FirstOpen(history) && isCheckedIn == current.Some?
    }

    constructor (table0: seq<AttendanceRecord>, nextId0: nat)
      requires IdsValid(table0, nextId0)
      ensures Valid() && table == table0 && nextId == nextId0
      ensures history == [] && current.None? && !isCheckedIn && !isLoading
    {
      table, nextId := table0, nextId0;
      history, current, isCheckedIn, isLoading := [], None, false, false;
    }

    /** `fetchAttendanceData`: without a session nothing changes; with one the
        history is the user's rows and the current record the first open one. */
    method FetchAttendanceData(session: Option<UserId>)
      modifies this`history, this`current, this`isCheckedIn
      ensures session.None? ==>
                history == old(history) && current == old(current) && isCheckedIn == old(isCheckedIn)
      ensures session.Some? ==> Shows(session.value)
    {
      if session.None? {
        return;
      }
      history := UserRows(table, session.value);
      current := FirstOpen(history);
      isCheckedIn := current.Some?;
    }

    /** The store write of `handleCheckInOut`: the toggle applied to the
        table, decided from the state the page shows. */
    method WriteToggle(session: Option<UserId>, now: int)
      requires Valid()
      modifies this`table, this`nextId
      ensures Valid()
      ensures (table, nextId) == Toggle(old(table), old(nextId), session, isCheckedIn, current, now)
      ensures session.Some? && old(Shows(session.value)) && old(AtMostOneOpen(table, session.value)) ==>
                AtMostOneOpen(table, session.value)
      ensures session.Some? ==>
                forall v :: v != session.value && old(AtMostOneOpen(table, v)) ==> AtMostOneOpen(table, v)
    {
      var written := Toggle(table, nextId, session, isCheckedIn, current, now);
      ToggleKeepsInvariants(table, nextId, session, isCheckedIn, current, now);
      if session.Some? && Shows(session.value) && AtMostOneOpen(table, session.value) {
        ToggleKeepsOneOpen(table, nextId, session.value, isCheckedIn, current, now);
      }
      if session.Some? {
        forall v | v != session.value && AtMostOneOpen(table, v)
          ensures AtMostOneOpen(written.0, v)
        {
          ToggleKeepsOthersOneOpen(table, nextId, session.value, v, isCheckedIn, current, now);
        }
      }
      table, nextId := written.0, written.1;
    }

    /** `handleCheckInOut`: the toggle's write, then a refetch; the loading
        flag is cleared on every path. A page that shows the user's rows keeps
        the at-most-one-open invariant. */
    method HandleCheckInOut(session: Option<UserId>, now: int)
      requires Valid()
      modifies this
      ensures Valid() && !isLoading
      ensures var (t, n) := Toggle(old(table), old(nextId), session, old(isCheckedIn), old(current), now);
              table == t && nextId == n
      ensures session.None? ==>
                history == old(history) && current == old(current) && isCheckedIn == old(isCheckedIn)
      ensures session.Some? ==> Shows(session.value)
      ensures session.Some? && old(Shows(session.value)) && old(AtMostOneOpen(table, session.value)) ==>
                AtMostOneOpen(table, session.value)
      ensures session.Some? ==>
                forall v :: v != session.value && old(AtMostOneOpen(table, v)) ==> AtMostOneOpen(table, v)
    {
      ghost var shown := session.Some? && Shows(session.value);
      isLoading := true;
      assert shown ==> Shows(session.value);
      WriteToggle(session, now);
      FetchAttendanceData(session);
      isLoading := false;
    }
  }
}
