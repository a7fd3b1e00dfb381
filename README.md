# Attendance, leave and task logic of the employee portal, in Dafny

This project models the logic inside the employee portal's pages that can be
separated from the hosted database and the browser. Each page becomes a
module. Logic that only computes is written as functions with lemmas. Page
state that a handler updates step by step is a class. Its fields are the
page's state variables plus the database table the page writes, kept as a
sequence.

- `Common` (`common.dfy`): `Option`, user ids, millisecond constants, and
  the rounding that `Number(x.toFixed(2))` performs, as an integer
  division rounded half away from zero.
- `Utils` (`utils.dfy`): phone-number cleaning and validation,
  the `m:ss` countdown formatter, and the whitespace `trim` used by the
  rejection dialog.
- `Attendance` (`attendance.dfy`): the late/present rule, the hours worked,
  the current-record lookup, and the check-in/check-out toggle. The
  `AttendancePage` class keeps at most one open record per user.
- `Leave` (`leave.dfy`): the inclusive day span, the form's field changes,
  the submitted row, and the `LeavePage` class with its input and submit
  handlers.
- `Requests` (`requests.dfy`): `calculateDays`, approval, two-step
  rejection with a reason, and the pending-only gating of both actions,
  with the `RequestsPage` class.
- `Tasks` (`tasks.dfy`): the expected-time encoding, the hours clamp
  and minutes choice, due-date normalisation, and the task table
  operations, with the `TaskBoard` class.
- `Dashboard` (`dashboard.dfy`): total hours, completed tasks, the
  attendance rate and the fixed leave balance.
- `Register` (`register.dfy`): the order of the registration checks and the
  sign-up request they allow, with the `RegisterPage` class.

Times are integer milliseconds of local time. The time of day is the
timestamp modulo one day. Hours are stored in hundredths of an hour. A
table read with `order('created_at', { ascending: false })` is kept in
insertion order, newest first: a new row goes to the front, and that list
order stands in for the `created_at` order. Row ids come from a counter on
the page class. The session, the role read from the profile, the confirmation
dialog's answer, the clock and the sign-up outcome are parameters.

## Model

| member | source | states |
|---|---|---|
| Common.RoundDiv | src/app/dashboard/attendance/page.tsx:117 | the result is the nearest integer to `n / d`; an exact half rounds away from zero, as `toFixed` does on the magnitude |
| Common.RoundDivUnique | src/app/dashboard/attendance/page.tsx:117 | for `n >= 0`, any integer as near to `n / d` that breaks ties upward equals the rounded value |
| Common.RoundDivOdd | src/app/dashboard/attendance/page.tsx:117 | rounding is symmetric about zero |
| Utils.Clean | src/lib/utils.ts:3 | the cleaned string holds only digits and `+` and is never longer than the input |
| Utils.CleanKeepsPhoneChars | src/lib/utils.ts:3 | each digit and `+` of the input occurs in the cleaned string exactly as often as in the input |
| Utils.CleanAppend | src/lib/utils.ts:3 | cleaning a concatenation concatenates the cleaned parts, so kept characters stay in order |
| Utils.CleanKeepsPhoneStrings | src/lib/utils.ts:3 | a string of digits and `+` is left unchanged |
| Utils.CleanIdempotent | src/lib/utils.ts:3 | cleaning twice is cleaning once |
| Utils.PatternTest | src/lib/utils.ts:6 | the scan holds exactly when the string is `+` followed by 11 to 15 digits |
| Utils.PatternShape | src/lib/utils.ts:6 | a cleaned string matches the pattern iff it is 12 to 16 characters long, starts with `+` and holds exactly one `+` |
| Utils.ValidatePhoneNumber | src/lib/utils.ts:1-12 | `formattedNumber` is the cleaned input whether valid or not; `isValid` holds iff it matches the pattern, iff it has the length and `+` shape above |
| Utils.ValidationIgnoresFormatting | src/lib/utils.ts:1-12 | validating the cleaned input gives the same verdict and number as validating the raw input |
| Utils.NatToStringRoundTrip | src/lib/utils.ts:17 | the decimal text of a number reads back as that number |
| Utils.IntToString | src/lib/utils.ts:16-17 | a non-negative number is written as digits that read back as it; a negative one as `-` followed by the digits of its magnitude |
| Utils.JsRem | src/lib/utils.ts:16 | JavaScript's `%`: the remainder differs from the dividend by a multiple of the divisor, is below the divisor in magnitude and takes the dividend's sign, so it is the truncated remainder |
| Utils.PadStart2 | src/lib/utils.ts:17 | `padStart(2, "0")`: the result is the input with `0`s in front of it, at least two characters long and no longer than needed |
| Utils.TwoDigits | src/lib/utils.ts:17 | a value below 100 is written as exactly two digits that read back as the value |
| Utils.PadTwoDigits | src/lib/utils.ts:16-17 | a remainder in 0..99, converted to text and padded to two characters, is exactly its two digits |
| Utils.FormatTimeLeft | src/lib/utils.ts:14-18 | for `s >= 0` the text is the whole minutes `s / 60`, a colon and two digits of `s % 60` |
| Utils.FormatTimeLeftRoundTrip | src/lib/utils.ts:14-18 | reading the `m:ss` text back gives `m * 60 + ss`, the original seconds |
| Utils.FormatTimeLeftNegative | src/lib/utils.ts:15-17 | a negative count gives a floored minute and a negative remainder: `-5` becomes `-1:-5` |
| Utils.TrimStart | src/app/dashboard/tasks/page.tsx:451 | the suffix left once the leading white space is dropped: everything dropped is white space, and the suffix does not start with white space |
| Utils.Trim | src/app/dashboard/requests/page.tsx:329 | the trimmed reason is the infix of the input that starts at its first character other than white space; every character before and after it is white space, and it neither starts nor ends with white space |
| Utils.TrimEmptyIffBlank | src/app/dashboard/requests/page.tsx:329 | the trimmed reason is empty iff every character of it is white space |
| Attendance.StartOfWorkDay | src/app/dashboard/attendance/page.tsx:82-84 | 09:00:00.000 of the same local day as `now` |
| Attendance.CheckInStatus | src/app/dashboard/attendance/page.tsx:94 | `late` iff the time of day is strictly after 09:00:00.000, otherwise `present`; never `absent` |
| Attendance.CheckInScenarios | src/app/dashboard/attendance/page.tsx:82-94 | 08:30 and 09:00 sharp are present; one millisecond after 09:00 and 09:15 are late |
| Attendance.HoursWorked | src/app/dashboard/attendance/page.tsx:110-117 | the elapsed time in hundredths of an hour, within half a hundredth of the exact value, never negative for a later check-out |
| Attendance.HoursWorkedScenario | src/app/dashboard/attendance/page.tsx:110-117 | 08:30 to 17:00 records 8.50 hours |
| Attendance.UserRows | src/app/dashboard/attendance/page.tsx:50-54 | the query result holds only the user's rows and is no longer than the table |
| Attendance.UserRowsMembers | src/app/dashboard/attendance/page.tsx:50-54 | a row is in the history iff it is in the table and belongs to the user |
| Attendance.FirstOpen | src/app/dashboard/attendance/page.tsx:61-63 | no current record iff every record has a check-out; a current record has none |
| Attendance.FirstOpenIsFirst | src/app/dashboard/attendance/page.tsx:61 | the current record is the first open one: every record before it is closed |
| Attendance.FirstOpenOfUser | src/app/dashboard/attendance/page.tsx:58-63 | the page shows no current record iff the table holds no open row of the user |
| Attendance.CheckInRecord | src/app/dashboard/attendance/page.tsx:86-97 | the inserted row has the next id and the user's id, is late iff the time of day is after 09:00:00.000 and present otherwise, is open with no hours, and has check-in, creation and update times equal to `now` |
| Attendance.CloseRecord | src/app/dashboard/attendance/page.tsx:113-120 | the row with the current id gets check-out `now`, its hours and update time; every other row is unchanged |
| Attendance.CheckInKeepsOneOpen | src/app/dashboard/attendance/page.tsx:86-106 | checking in with no open row leaves exactly one, the new row, which becomes the current record |
| Attendance.CheckOutClosesAll | src/app/dashboard/attendance/page.tsx:107-130 | closing the current record of a user with at most one open row leaves them none |
| Attendance.Toggle | src/app/dashboard/attendance/page.tsx:75-130 | no session, or checked in without a current record: nothing written; not checked in: one open row inserted; otherwise only the current row is closed with its hours |
| Attendance.ToggleKeepsInvariants | src/app/dashboard/attendance/page.tsx:86-130 | every toggle keeps row ids distinct and below the next id |
| Attendance.ToggleKeepsOneOpen | src/app/dashboard/attendance/page.tsx:86-130 | a toggle decided from the user's fetched state keeps at most one open row for that user |
| Attendance.ToggleKeepsOthersOneOpen | src/app/dashboard/attendance/page.tsx:86-130 | a toggle by one user leaves every other user with at most one open row |
| Attendance.AttendancePage.constructor | src/app/dashboard/attendance/page.tsx:23-26 | empty history, no current record, not checked in, not loading |
| Attendance.AttendancePage.FetchAttendanceData | src/app/dashboard/attendance/page.tsx:42-68 | no session: nothing changes; otherwise the history is the user's rows, the current record is the first open one, and `isCheckedIn` says whether there is one |
| Attendance.AttendancePage.WriteToggle | src/app/dashboard/attendance/page.tsx:82-130 | the table becomes the toggle of the page's state, ids stay valid, the acting user keeps at most one open row when the page shows their rows, and every other user keeps at most one open row |
| Attendance.AttendancePage.HandleCheckInOut | src/app/dashboard/attendance/page.tsx:70-139 | the toggle's write, then a refetch for the session's user; at most one open row per user is kept, for the acting user and every other; the loading flag ends cleared on every path |
| Leave.CeilDiv | src/app/dashboard/leave/page.tsx:65 | `Math.ceil(n / d)`: the least count whose multiple of `d` covers `n`, and 0 for 0 |
| Leave.DaySpan | src/app/dashboard/leave/page.tsx:62-65 | `ceil(|end - start| / day) + 1`: at least 1, and the smallest count whose whole days less one cover the gap |
| Leave.DaySpanSymmetric | src/app/dashboard/leave/page.tsx:64 | the span does not depend on the order of the dates |
| Leave.DaySpanWholeDays | src/app/dashboard/leave/page.tsx:64-65 | dates exactly `k` days apart span `k + 1` days |
| Leave.TotalDaysEffect | src/app/dashboard/leave/page.tsx:60-68 | with both dates present `totalDays` becomes their span, at least 1; otherwise it is left unchanged |
| Leave.ApplyChange | src/app/dashboard/leave/page.tsx:90-106 | choosing one-day leave sets the type and clears the end date; any other change sets only the named field |
| Leave.InitialForm | src/app/dashboard/leave/page.tsx:41-47 | full-day type, empty dates, 8 hours, empty reason |
| Leave.SubmitData | src/app/dashboard/leave/page.tsx:118-123 | the row is pending and belongs to the session's user; its end date is null iff the leave is one-day, otherwise the form's; other fields are the form's |
| Leave.OneDayEndIsNull | src/app/dashboard/leave/page.tsx:94-120 | after choosing one-day leave the submitted end date is null |
| Leave.UserRequests | src/app/dashboard/leave/page.tsx:77-84 | the refetched list holds exactly the user's rows |
| Leave.ShowsDurationBanner | src/app/dashboard/leave/page.tsx:206 | as written, the banner shows under line 206's own condition, `totalDays` positive and the leave not one-day; the contract states that it never shows for one-day leave |
| Leave.StaleBannerAfterSubmit | src/app/dashboard/leave/page.tsx:132-138 | as written: after a submission resets the form to no dates, the banner still shows the submitted span |
| Leave.DurationBanner | src/app/dashboard/leave/page.tsx:206-212 | corrected: a span is shown iff the leave is not one-day and both dates are filled in, and it is the span of those dates |
| Leave.BannerAgreesWithDates | src/app/dashboard/leave/page.tsx:60-68 | while both dates are on the form, the banner as written and the corrected banner agree, on visibility and value |
| Leave.LeavePage.constructor | src/app/dashboard/leave/page.tsx:40-51 | no requests, the initial form, `totalDays` 0, no error, not loading |
| Leave.LeavePage.HandleInputChange | src/app/dashboard/leave/page.tsx:60-106 | the form takes the change; `totalDays` is recomputed only when a date changed; a span consistent with the dates stays so |
| Leave.LeavePage.HandleSubmit | src/app/dashboard/leave/page.tsx:108-146 | no session: error "No session" and no insert; otherwise the submitted row is inserted, the form reset and the user's rows refetched; `totalDays` is kept; loading ends cleared |
| Requests.EndOrStart | src/app/dashboard/requests/page.tsx:140 | `end_date || start_date`: the end date when one is filled in, the start date when it is null or empty |
| Requests.CalculateDays | src/app/dashboard/requests/page.tsx:134-144 | 1 for one-day leave, otherwise the span from start to end (or start), always at least 1 |
| Requests.MissingEndIsOneDay | src/app/dashboard/requests/page.tsx:140 | a request without an end date counts exactly one day |
| Requests.DaysMatchForm | src/app/dashboard/requests/page.tsx:134-144 | the manager's day count of a submitted request equals the span the employee's form showed |
| Requests.Approve | src/app/dashboard/requests/page.tsx:95-99 | only the row with the request's id changes, and only its status, to approved |
| Requests.Reject | src/app/dashboard/requests/page.tsx:114-121 | only the row with the selected id changes: status rejected, the typed reason and the update time |
| Requests.DecisionIsTerminal | src/app/dashboard/requests/page.tsx:219-240 | after either decision the decided row no longer offers approve or reject; other rows keep their offer |
| Requests.DecisionsKeepReasonsConsistent | src/app/dashboard/requests/page.tsx:110-121 | a rejection reason is present only on rejected rows, before and after a rejection, and after approving a pending row |
| Requests.ConfirmEnabled | src/app/dashboard/requests/page.tsx:329 | the confirm button is enabled iff the reason has a character other than white space |
| Requests.RequestsPage.constructor | src/app/dashboard/requests/page.tsx:33-38 | nothing fetched yet: an empty list, nothing selected, an empty reason and the dialog closed |
| Requests.RequestsPage.FetchAllRequests | src/app/dashboard/requests/page.tsx:43-83 | on mount (line 45) and after each decision the list becomes the whole table |
| Requests.RequestsPage.HandleStatusChange | src/app/dashboard/requests/page.tsx:87-108 | reject writes nothing and opens the dialog for the request with an empty reason; approve writes that id's status and refetches |
| Requests.RequestsPage.TypeReason | src/app/dashboard/requests/page.tsx:309 | the reason is the typed text |
| Requests.RequestsPage.HandleReject | src/app/dashboard/requests/page.tsx:110-132 | nothing without a selection; otherwise the selected id is rejected with the typed reason, the dialog closes and the list is refetched |
| Requests.RequestsPage.ConfirmRejection | src/app/dashboard/requests/page.tsx:327-333 | a blank reason, or no selected request, changes nothing; otherwise the selected id is rejected with the reason, the list is refetched, the dialog closes and the selection is cleared; the typed reason is kept on every path; the table changes only through a non-blank reason |
| Requests.RequestsPage.CancelRejection | src/app/dashboard/requests/page.tsx:318-326 | the dialog closes and the selection is cleared |
| Requests.RequestsPage.ViewRejectionReason | src/app/dashboard/requests/page.tsx:202-208 | the dialog opens on the request, showing its stored reason |
| Requests.RejectRewritesDecided | src/app/dashboard/requests/page.tsx:110-121 | a row already rejected offers no decision, yet rejecting its id again writes the new reason and update time onto it |
| Tasks.LeadingDigits | src/app/dashboard/tasks/page.tsx:451 | the longest prefix of digits `parseInt` reads |
| Tasks.ParseInt | src/app/dashboard/tasks/page.tsx:451 | `parseInt` in base ten: a string of digits reads as its value; text with no digit, or whose first character is not white space, a sign or a digit, is `NaN`; a negative value needs a leading minus |
| Tasks.ParseIntLeadingNumber | src/app/dashboard/tasks/page.tsx:451 | white space, an optional `+` or `-` and digits followed by text that does not go on with a digit read as the signed value of those digits |
| Tasks.ParseIntNoNumber | src/app/dashboard/tasks/page.tsx:451 | white space and an optional sign followed by text that does not start with a digit read as `NaN` |
| Tasks.ParseIntStopsAtPoint | src/app/dashboard/tasks/page.tsx:451 | `parseInt("7.5")` is 7: reading stops at the decimal point |
| Tasks.ParseIntOfNat | src/app/dashboard/tasks/page.tsx:464 | `parseInt` reads a number's decimal text back as that number |
| Tasks.ClampHours | src/app/dashboard/tasks/page.tsx:450-452 | hours are always 0..24; text with no leading number gives 0; a number is clamped into 0..24 |
| Tasks.ClampTypedHours | src/app/dashboard/tasks/page.tsx:451 | a typed whole number is kept up to 24 and capped at 24 |
| Tasks.SelectMinutes | src/app/dashboard/tasks/page.tsx:461-472 | the minutes are exactly the value of the chosen option, so always 0, 15, 30 or 45 |
| Tasks.ComposeExpected | src/app/dashboard/tasks/page.tsx:171-198 | null iff the total time is not positive; otherwise the hundredths nearest `hours + minutes / 60` |
| Tasks.ComposeQuarters | src/app/dashboard/tasks/page.tsx:171-198 | for quarter hours the stored value is exactly `hours * 100 + minutes * 5 / 3` hundredths |
| Tasks.DecomposeExpected | src/app/dashboard/tasks/page.tsx:371-372 | null reads as 0:00; otherwise the whole hours, and minutes within half a minute of the fraction times 60 |
| Tasks.DecomposeCompose | src/app/dashboard/tasks/page.tsx:371-372 | splitting a composed time returns the entered hours and minutes, for any minutes below 60, quarters included |
| Tasks.EditKeepsExpected | src/app/dashboard/tasks/page.tsx:363-374 | saving an edit without touching the time fields writes back the stored expected time |
| Tasks.EndOfDay | src/app/dashboard/tasks/page.tsx:168 | 23:59:59.999 of the same day, never earlier than the input |
| Tasks.EndOfDayIdempotent | src/app/dashboard/tasks/page.tsx:168 | normalising twice is normalising once |
| Tasks.DueDateAsWritten | src/app/dashboard/tasks/page.tsx:166-168 | as written: the end of the local day containing UTC midnight of the picked day |
| Tasks.DueDateAsWrittenShiftsWest | src/app/dashboard/tasks/page.tsx:166-168 | as written, west of UTC the stored due date falls on the day before the one picked |
| Tasks.DueDateAsWrittenExample | src/app/dashboard/tasks/page.tsx:166-168 | picking day 160 at UTC-5 stores the end of day 159 |
| Tasks.DueDateForDay | src/app/dashboard/tasks/page.tsx:166-168 | corrected: 23:59:59.999 of the picked local day |
| Tasks.DueDateAgreesEastOfUtc | src/app/dashboard/tasks/page.tsx:166-168 | the code as written and the corrected due date agree iff the zone is at or east of UTC |
| Tasks.NormaliseDue | src/app/dashboard/tasks/page.tsx:166-168 | the due date is 23:59:59.999 of the picked day, or of the stored timestamp's day |
| Tasks.EditKeepsDueDate | src/app/dashboard/tasks/page.tsx:368 | saving an edit without picking a day keeps the stored due date |
| Tasks.EmptyForm | src/app/dashboard/tasks/page.tsx:208-216 | empty texts, no date, medium priority, 0 hours and 0 minutes |
| Tasks.EditForm | src/app/dashboard/tasks/page.tsx:363-373 | the form holds the task's fields and its expected time split into hours and minutes |
| Tasks.NewTask | src/app/dashboard/tasks/page.tsx:189-199 | a created task is pending, with the normalised due date and the composed expected time |
| Tasks.Edited | src/app/dashboard/tasks/page.tsx:175-186 | an edit keeps the task's id and status, stamps the update time and takes every other field from the form |
| Tasks.ApplyEdit | src/app/dashboard/tasks/page.tsx:175-186 | only the rows with the edited id change |
| Tasks.SetTaskStatus | src/app/dashboard/tasks/page.tsx:227-233 | only status and update time of that id change |
| Tasks.DeleteTask | src/app/dashboard/tasks/page.tsx:247-250 | the remaining rows are exactly those with another id |
| Tasks.AssignedTo | src/app/dashboard/tasks/page.tsx:138-140 | exactly the rows assigned to the user |
| Tasks.VisibleTasks | src/app/dashboard/tasks/page.tsx:126-140 | a manager sees the whole table; anyone else sees exactly their own rows |
| Tasks.CompleteIsTerminalInView | src/app/dashboard/tasks/page.tsx:351 | after completing a task its complete button disappears; other rows keep theirs |
| Tasks.TaskBoard.constructor | src/app/dashboard/tasks/page.tsx:40-56 | no tasks, not a manager, the empty form, nothing being edited, form closed |
| Tasks.TaskBoard.FetchTasks | src/app/dashboard/tasks/page.tsx:111-155 | no session: nothing changes; otherwise the role decides the manager flag and the visible rows |
| Tasks.TaskBoard.ChangeHours | src/app/dashboard/tasks/page.tsx:450-453 | only the hours change, to the clamped input |
| Tasks.TaskBoard.ChangeMinutes | src/app/dashboard/tasks/page.tsx:463-465 | only the minutes change, to the chosen quarter |
| Tasks.TaskBoard.PickDueDay | src/app/dashboard/tasks/page.tsx:437 | only the due date changes, to the picked day |
| Tasks.TaskBoard.StartEdit | src/app/dashboard/tasks/page.tsx:363-375 | the task is being edited, the form holds its fields and is open |
| Tasks.TaskBoard.HandleSubmit | src/app/dashboard/tasks/page.tsx:157-222 | no session: nothing written; an edit updates that id keeping its status; otherwise a pending task is inserted; then the form is reset and closed, without a refetch |
| Tasks.TaskBoard.HandleStatusChange | src/app/dashboard/tasks/page.tsx:224-241 | the status change is written; with a session the role sets the manager flag and the visible rows are refetched, without one the list and the flag are kept; the form, the edited task, the form's visibility and the loading flag are untouched |
| Tasks.TaskBoard.HandleDelete | src/app/dashboard/tasks/page.tsx:243-258 | nothing changes unless confirmed; then that id's rows are deleted, and with a session the role sets the manager flag and the visible rows are refetched, without one the list and the flag are kept; the form, the edited task, the form's visibility and the loading flag are untouched |
| Dashboard.SumHours | src/app/dashboard/page.tsx:60 | the sum of the recorded hours, an open record counting zero; not negative when no recorded hours are |
| Dashboard.SumHoursAppend | src/app/dashboard/page.tsx:60 | the sum is additive over any split of the rows |
| Dashboard.SumHoursAfterClose | src/app/dashboard/page.tsx:60 | checking out a record adds exactly its recorded hours to the total |
| Dashboard.CountCompleted | src/app/dashboard/page.tsx:61 | at most the number of tasks, and equal to it iff every task is completed |
| Dashboard.CountCompletedAppend | src/app/dashboard/page.tsx:61 | the count is additive over any split of the tasks |
| Dashboard.ComputeStats | src/app/dashboard/page.tsx:33-69 | no session: the figures are unchanged; otherwise leave balance 20, the user's hours, their completed tasks, and a rate of 100 times the rows over 20, with a failed query counting zero |
| Dashboard.RateNotCapped | src/app/dashboard/page.tsx:62 | twenty-one records give a rate of 105 |
| Dashboard.AllOwnRows | src/app/dashboard/page.tsx:48-51 | a result holding only the user's rows is kept whole by the user filter |
| Register.ValidateRegistration | src/app/register/page.tsx:38-63 | a password mismatch iff the passwords differ; an invalid phone iff they agree and the phone fails validation; otherwise an employee sign-up with the cleaned, well-formed phone |
| Register.PasswordCheckedFirst | src/app/register/page.tsx:39-51 | a mismatch is reported whatever the phone number is |
| Register.MessageExampleRefused | src/app/register/page.tsx:48 | the number in the error message's own example is refused |
| Register.RegisterPage.constructor | src/app/register/page.tsx:14-22 | no error, not loading, no sign-up issued |
| Register.RegisterPage.HandleSubmit | src/app/register/page.tsx:33-78 | a failed check sets its message and issues no sign-up; a passing form issues exactly one; a sign-up error's message, or "Failed to register", becomes the error; loading ends cleared |

## Left out

- The hosted database and auth service are not called. Each table is a sequence field on its page class. The session, the profile's role and the sign-up outcome are parameters. A failing insert, update or select is not modelled: every write succeeds. The dashboard's query failures are the one exception, modelled as `None`.
- The toasts, the console logging and the `router.push` redirect are not modelled. The redirect is a `registered` flag.
- The tasks page's realtime subscription and the concurrent check-ins of two tabs are not modelled. The model is sequential, one handler at a time.
- Login, password reset, the dashboard layout, the middleware, the sidebar, the settings page, the translations, the UI components and the `date-fns` display formatting are not modelled. They hold no logic of the modelled pages.
- The attendance page's one-second clock display is not modelled.
- Floating point is not modelled. Elapsed hours, expected hours and the rounding of `toFixed(2)` are exact integer arithmetic on hundredths, rounded half away from zero. JavaScript rounds the nearest double, which can differ at an exact half.
- Common.RoundDiv: does not model the binary floating-point representation that `toFixed` rounds.
- Dashboard.ComputeStats: the rate is stated as `rate * 20 == rows * 100`, exact in integers. The source's floating-point division only matters for counts that are not multiples of 20.
- Time zones appear only in the due-date finding. Elsewhere every timestamp is local milliseconds since the epoch.
- Tasks.NormaliseDue: a picked day becomes the corrected due date `DueDateForDay`, the zone-free reading. The code as written (`DueDateAsWritten`) agrees with it only at or east of UTC. Tasks.NewTask, Tasks.Edited and Tasks.TaskBoard.HandleSubmit inherit this, so they store the intended value rather than the one the page stores west of UTC.
- Table order: rows are not sorted by `created_at`. The list order of the sequence stands in for it, which matches the store only while the client clocks that stamp `created_at` move forward.
- `parseInt` is modelled in base ten only: white space, a sign and leading digits. The `0x` prefix is not modelled, since the hours input is `type="number"`.
- Leave.LeavePage.HandleSubmit: requires a start date and a reason, which the form's `required` inputs guarantee (src/app/dashboard/leave/page.tsx:186, 238). The leave `hours` value is kept as an integer, not as the string the input produces.
- Tasks.TaskBoard.HandleSubmit: requires a due date, which the `required` date input guarantees. The "No session" error is thrown and shown as a toast only, so the model writes nothing and records no error.
- The joined profile columns (`full_name`, `email`) of the task query are not modelled.
- Tasks.EditKeepsDueDate: the edit form is filled with the stored timestamp (src/app/dashboard/tasks/page.tsx:368). A `required` input of type `date` probably clears a value that is not `yyyy-MM-dd`, so the page may never submit that timestamp unchanged. The model keeps the value (`Instant`), so that path may not be reachable from the page. Not executed.
- Requests.RequestsPage.ViewRejectionReason: modelled as written. Its dialog is the rejection dialog, so its confirm button rewrites an already rejected row's reason and update time (Requests.RejectRewritesDecided). A decision is therefore final on the approve and reject buttons only, not on this path.
- Rejection reasons, task titles and other text are `seq<char>`. No Unicode normalisation is modelled.

## Findings

| source | as written | input that shows it | evidently intended | confidence | as-written member | corrected member |
|---|---|---|---|---|---|---|
| src/app/dashboard/leave/page.tsx:60-68 | `totalDays` changes only when both dates are set, and the submit reset at lines 132-138 leaves it alone. The banner at line 206 then keeps showing the old span. | Submit a full-day request from day 0 to day 2: `totalDays` is 3. The reset form has no dates and still shows "3 days". | Show the banner only while both dates are on the form, with their span. | not executed | Leave.StaleBannerAfterSubmit | Leave.DurationBanner |
| src/app/dashboard/tasks/page.tsx:166-168 | `new Date("yyyy-MM-dd")` reads the picked day as midnight UTC, and `setHours(23, 59, 59, 999)` then works in local time. | Picking 10 June 1970 (day 160) at UTC-5 stores 23:59:59.999 of 9 June, the day before. | 23:59:59.999 of the picked local day. | not executed | Tasks.DueDateAsWritten | Tasks.DueDateForDay |
