# Yojak scheduler core in Dafny

This project models the server-side core of Yojak, a timetable and workload
manager for a college. It covers six request handlers and their helpers:

- **Timetable generation** (`Generate`, on the grid of `Grid` and the stored
  row of `Timetable`). Subjects are sorted labs first and then by weekly
  hours. Each subject's classes are placed greedily on a five-day by
  seven-slot grid, with the first faculty member linked to the subject and
  the first classroom of the subject's kind. The room search does not depend
  on the cell, so the model makes it once per subject rather than once per
  free cell; the outcome is the same. A non-empty result replaces the
  stored timetable.
- **Emergency rescheduling** (`Reschedule`). The handler records an
  emergency holiday and finds the rows on the disrupted weekday. For
  `SHIFT_REMAINING` it moves each row, first-fit, to the earliest free
  (day, slot) pair on the other weekdays, and flags the original.
  `Scenarios` works through one concrete case.
- **Attendance** (`Attendance`). Check-in and check-out act on the row
  keyed by (faculty, day), and the GET handler lists the 30 newest rows.
- **Leave** (`LeaveRequests`). The POST handler marks a day as LEAVE in the
  same table, and the GET handler lists the leave days.
- **Department codes** (`Departments`). A code is derived from the
  requested code or name, then made unique by appending a counter.
- **NEP 2020 compliance** (`Nep`). Each faculty member's hours in the week
  are computed, judged against the 16 to 40 hour band, upserted per
  (faculty, week), and summarised.

The database is a sequence of rows, and each write produces a new sequence.
Where a query has no `orderBy`, the model fixes its result order to the
stored order; this decides, for example, the order in which the rescheduler
processes the affected rows.
`Wrappers` holds `Option`, the first-match search and the order-keeping
filter. `Sorting` holds a stable insertion sort over a strict weak order,
which stands in for `Array.prototype.sort` and for `orderBy`.

Behaviours of the code worth noting:

- A cell is blocked when any classroom is booked in it, whatever its kind.
  The room then chosen is the first room of the subject's kind, and that
  room's own calendar is not consulted. As a result the generator makes at
  most one class per cell (`Generate.GenerateOneSessionPerCell`).
- A subject with no linked faculty member, or with no room of its kind, is
  skipped silently. No warning is produced.
- `CANCEL_ALL` changes no timetable row. It only records the holiday and
  reports the count.
- A Sunday date becomes day 6, the same as Saturday. It is not rejected,
  and it affects only rows stored on day 6.
- The reschedule handler reports only the number of affected rows. The
  model also records, in the `moved` sequence, which of them found a new
  place (`Reschedule.RelocateAllMoved`).
- Because non-teaching hours are zero and interaction hours equal teaching
  hours, the 8-hour interaction minimum never decides compliance.

## Model

| member | source | states |
|---|---|---|
| Generate.PrioritiseOrder | src/app/api/timetable/generate/route.ts:140-145 | The sorted subjects are a permutation of the input, with every lab before every non-lab and weekly hours non-increasing among subjects of the same kind. Subjects tied on both keys keep their input order. |
| Generate.TiedSubjects | src/app/api/timetable/generate/route.ts:141-145 | The comparator ties two subjects exactly when they agree on both lab-ness and weekly hours. |
| Generate.GenerateOneSessionPerCell | src/app/api/timetable/generate/route.ts:159-204 | Every generated class sits on one of the 35 canonical (day, slot) cells. No two classes share a cell, and no two on the same day overlap. A week holds at most 35 classes. |
| Generate.PlaceSubjectBlock | src/app/api/timetable/generate/route.ts:159-206 | One subject's walk over the grid appends only classes of that subject, taught by its faculty member in the room chosen for it. They are in strictly increasing cells and number at most the hours still missing. Earlier classes are untouched. |
| Generate.PicksFree | src/app/api/timetable/generate/route.ts:159-173 | The reference choice of cells from cell k on, made in fixed calendars: at most the quota, in increasing order, each one a cell where the faculty member and every classroom are free. |
| Generate.PicksFirst | src/app/api/timetable/generate/route.ts:159-173 | The reference choice passes over a free cell only once the quota is filled by cells before it. |
| Generate.PlaceSubjectPicks | src/app/api/timetable/generate/route.ts:159-206 | The cells of the classes the walk adds are exactly the reference choice made in the calendars it starts from: booking a cell never changes whether a later cell is free. |
| Generate.ScheduleCells | src/app/api/timetable/generate/route.ts:148-206 | For a subject with a faculty member and a room of its kind, the cells of the classes added are the reference choice from the first cell, up to the subject's hours. |
| Generate.ScheduleTakesFreeCells | src/app/api/timetable/generate/route.ts:148-206 | For such a subject, no more classes are added than its hours, and each one is in a cell where the faculty member and every classroom were free. |
| Generate.ScheduleFirstFreeCells | src/app/api/timetable/generate/route.ts:148-206 | For such a subject, a free cell is left untaken only when all its hours are placed, and then only after every class added. The walk thus books the first free cells, up to the quota. |
| Generate.GenerateSound | src/app/api/timetable/generate/route.ts:148-198 | Every generated class belongs to an input subject. It uses that subject's first linked faculty member and the first room of its kind, is LAB exactly for lab subjects, and is on the grid. |
| Generate.GenerateQualifiedAndTyped | src/app/api/timetable/generate/route.ts:148-198 | Each class's faculty member is linked to the class's subject, and its room is a lab exactly when the class type is LAB. |
| Generate.GenerateSkipsUnstaffed | src/app/api/timetable/generate/route.ts:149-153 | A subject that no faculty member is linked to gets no classes. |
| Generate.GenerateSkipsRoomless | src/app/api/timetable/generate/route.ts:175-182 | With no room of a kind, no class of that type is generated. |
| Generate.GenerateHoursBound | src/app/api/timetable/generate/route.ts:155-163 | A subject id gets no more classes than the weekly hours its subjects ask for. |
| Generate.GenerateOrder | src/app/api/timetable/generate/route.ts:148-163 | When subject ids are distinct, classes come out subject by subject in priority order. Within a subject they come day ascending, then start hour ascending. |
| Generate.TwoHourLecture | src/app/api/timetable/generate/route.ts:105-212 | One linked faculty member, one 2-hour lecture subject and one lecture room yield exactly Monday 9-10 and Monday 10-11. |
| Generate.Commit | src/app/api/timetable/generate/route.ts:71-89 | An empty result leaves the stored rows as they were. Otherwise the stored rows become exactly the generated classes, in order. They carry the same subject, faculty, room, day, times and type, are not rescheduled, have no original, and are authored by the admin. |
| Generate.CommitConflictFree | src/app/api/timetable/generate/route.ts:71-89 | Committing onto a conflict-free timetable leaves one that double-books no faculty member or room on any weekday. An empty generation keeps the stored rows, so the stored timetable must be conflict-free to begin with. |
| Grid.CellRoundTrip | src/app/api/timetable/generate/route.ts:114-125 | Step k of the day-major, slot-minor walk lands on a canonical (day, slot) cell whose cell number maps back to k. |
| Grid.SlotsDisjoint | src/app/api/timetable/generate/route.ts:114-122 | No two of the seven canonical slots overlap, and none overlaps the 12-13 lunch hour. |
| Timetable.ClassTypeFor | src/app/api/timetable/generate/route.ts:197 | The class type is LAB exactly for a lab subject. |
| Reschedule.WeekdayOf | src/app/api/timetable/reschedule/route.ts:34-38 | Monday to Friday keep their numbers. Saturday and Sunday both become day 6. |
| Reschedule.WeekendDisruption | src/app/api/timetable/reschedule/route.ts:34-57 | For getDay 0 or 6 (Sunday or Saturday as the server reads the date) every weekday remains available, and every affected row lies outside the weekdays. |
| Reschedule.RemainingDaysMembers | src/app/api/timetable/reschedule/route.ts:57 | The remaining days are exactly the weekdays other than the disrupted one. |
| Reschedule.RemainingDaysAscending | src/app/api/timetable/reschedule/route.ts:57 | The remaining days are in ascending order. |
| Reschedule.RemainingDaysCount | src/app/api/timetable/reschedule/route.ts:57 | There are four remaining days when a weekday is disrupted, and all five otherwise. |
| Reschedule.HasConflictExists | src/app/api/timetable/reschedule/route.ts:125-132 | The conflict test holds exactly when some row on that day overlaps the candidate slot. |
| Reschedule.ConflictMeaning | src/app/api/timetable/reschedule/route.ts:105-132 | A candidate conflicts exactly when a stored row on a remaining day, on the candidate's day, sharing the faculty member or the room, overlaps it. |
| Reschedule.ConflictWithItself | src/app/api/timetable/reschedule/route.ts:125-132 | A row conflicts with its own slot, and nothing conflicts in an empty table. |
| Reschedule.RescheduleClassFirstFit | src/app/api/timetable/reschedule/route.ts:92-157 | A copy keeps subject, faculty, room, type and author, is flagged as rescheduled, and points at the original. It takes the lexicographically first free (remaining day, slot) pair. No copy means every pair conflicts. |
| Reschedule.RelocateStep | src/app/api/timetable/reschedule/route.ts:59-71 | Only when a copy was made is it appended and the original flagged. Otherwise the rows are unchanged. |
| Reschedule.RelocateAllShape | src/app/api/timetable/reschedule/route.ts:55-72 | The loop reports one moved/not-moved flag per affected row. It adds exactly one row per move. Every old row keeps all its fields except possibly gaining the flag. Every new row is a flagged copy of an affected row on a remaining day and canonical slot. |
| Reschedule.RelocateAllFlags | src/app/api/timetable/reschedule/route.ts:59-71 | A stored row ends up flagged as rescheduled exactly when it was flagged before or an affected row with its id found a new place. |
| Reschedule.RelocateAllCopies | src/app/api/timetable/reschedule/route.ts:59-71 | The rows added are copies of exactly the ids of the affected rows that found a new place. |
| Reschedule.RelocateAllMoved | src/app/api/timetable/reschedule/route.ts:59-71 | With distinct ids among the affected rows, the i-th one is reported moved exactly when a copy of it was added. |
| Reschedule.RelocateAllMovedFlagged | src/app/api/timetable/reschedule/route.ts:59-71 | When an affected row is reported moved, the stored row with its id is flagged as rescheduled. |
| Reschedule.RelocatedOffDisruptedDay | src/app/api/timetable/reschedule/route.ts:55-72 | No relocated copy lands on the disrupted day. |
| Reschedule.RelocateAllKeepsConflictFree | src/app/api/timetable/reschedule/route.ts:59-71 | If the rows on the remaining days were free of double-bookings before the loop, they still are after it. |
| Reschedule.EmergencyReschedule | src/app/api/timetable/reschedule/route.ts:23-82 | The holiday is EMERGENCY on the given date, named "Emergency Holiday - " followed by the reason, with the reason as description. The count is the number of rows on the disrupted day. Any type other than SHIFT_REMAINING leaves the rows unchanged. |
| Reschedule.EmergencyRescheduleConflictFree | src/app/api/timetable/reschedule/route.ts:55-72 | A timetable free of double-bookings on the remaining days stays so after the handler. |
| Scenarios.TuesdayToMonday | src/app/api/timetable/reschedule/route.ts:55-157 | With a Tuesday 9-10 class whose faculty member also teaches Monday 9-10, the class moves to Monday 10-11, the original is flagged, and one affected row is reported. |
| Attendance.Lookup | src/app/api/faculty/attendance/route.ts:61-68 | The row found has the (faculty, day) key. No row is found exactly when none has the key. |
| Attendance.FetchOrCreate | src/app/api/faculty/attendance/route.ts:61-79 | The day's row is the stored one when present. Otherwise one new PRESENT row without times or notes is appended. |
| Attendance.CheckInOutReply | src/app/api/faculty/attendance/route.ts:81-108 | The reply is each of the three error messages exactly under its condition. Otherwise it is the day's row with the check-in or check-out time set, or the row unchanged for any other action. |
| Attendance.CheckInOutTable | src/app/api/faculty/attendance/route.ts:58-108 | The (faculty, day) key stays unique. The day's row exists, and a success reply is that row. Only the day's row changes, the table grows only when that row was missing, and an error leaves every existing row as it was. |
| Attendance.CheckInOutKeepsCheckedInFirst | src/app/api/faculty/attendance/route.ts:92-105 | No row ever gets a check-out without a check-in. |
| Attendance.DayRound | src/app/api/faculty/attendance/route.ts:81-105 | On a fresh day, check-in then check-out both succeed. A second check-in or check-out is then refused with its message and changes nothing. |
| Attendance.RecentLatest | src/app/api/faculty/attendance/route.ts:22-30 | The list has min(30, n) of the faculty member's rows, only theirs, newest first. Every row left out is no newer than any row listed. |
| Attendance.RecentRows | src/app/api/faculty/attendance/route.ts:22-30 | Each row listed is a stored row of the faculty member, listed no more often than it is stored. |
| LeaveRequests.RequestLeaveTable | src/app/api/faculty/leave/route.ts:58-91 | The day's row becomes or is created as LEAVE with the reason as notes. An existing row keeps its id, check-in and check-out. The key stays unique, and no other row changes. |
| LeaveRequests.RequestLeaveIdempotent | src/app/api/faculty/leave/route.ts:58-91 | Repeating the same leave request changes nothing and replies with the same row. |
| LeaveRequests.RequestLeaveKeepsCheckedInFirst | src/app/api/faculty/leave/route.ts:68-90 | A leave request never leaves a check-out without a check-in. |
| LeaveRequests.CheckInOnLeaveDay | src/app/api/faculty/leave/route.ts:58-91 | Checking in on a day marked as leave is accepted, and the row stays LEAVE. |
| LeaveRequests.LeaveHistoryContents | src/app/api/faculty/leave/route.ts:22-30 | The list holds exactly the faculty member's LEAVE rows, each as often as stored, newest first. |
| Departments.NatToStringRoundTrip | src/app/api/admin/departments/route.ts:50 | Reading a counter's decimal spelling back gives the counter. |
| Departments.TrimSlice | src/app/api/admin/departments/route.ts:39-41 | The trimmed string is a slice whose ends are not whitespace, with only whitespace cut on either side. |
| Departments.BaseShape | src/app/api/admin/departments/route.ts:39-44 | A base code is one to eight upper-case letters and digits. |
| Departments.TrimIrrelevant | src/app/api/admin/departments/route.ts:39-43 | Trimming never changes the letters and digits the base is cut from. |
| Departments.CaseIrrelevant | src/app/api/admin/departments/route.ts:39-43 | Upper-casing the request first does not change the base. |
| Departments.CandidateInjective | src/app/api/admin/departments/route.ts:46-52 | For a base of at most eight characters, the first 10000 codes tried are pairwise distinct. |
| Departments.Probe | src/app/api/admin/departments/route.ts:46-52 | The search returns the first try whose code is not taken, or reports that all 10000 tries are taken. |
| Departments.ProbeSucceeds | src/app/api/admin/departments/route.ts:46-52 | With fewer than 10000 codes taken, the search finds a free code. |
| Departments.CreateRefusesOnlyNoName | src/app/api/admin/departments/route.ts:36-57 | A request is refused exactly when its name is missing or empty. Otherwise a department is created while fewer than 10000 are stored. |
| Departments.CreatedDepartment | src/app/api/admin/departments/route.ts:36-57 | The new department has the requested name and description and a code of 1 to 12 characters, and it is appended to the stored ones. |
| Departments.CreatedCodeFirst | src/app/api/admin/departments/route.ts:46-52 | The new code is the first one tried that is not already taken. |
| Departments.CreatedCodeFresh | src/app/api/admin/departments/route.ts:46-56 | No stored department has the new code, so distinct codes stay distinct. |
| Nep.HoursNonNegative | src/app/api/nep-compliance/route.ts:45-56 | A week's hours are never negative when every entry ends no earlier than it starts. |
| Nep.HoursOfHourSlots | src/app/api/nep-compliance/route.ts:50-56 | One-hour entries count one hour each. |
| Nep.AssessCompliance | src/app/api/nep-compliance/route.ts:45-66 | Teaching, interaction and total hours all equal the week's hours, and non-teaching hours are zero. The week complies exactly when its hours lie between 16 and 40. |
| Nep.ComplianceByCount | src/app/api/nep-compliance/route.ts:58-66 | With one-hour entries, a week complies exactly when it has 16 to 40 entries. |
| Nep.Round2 | src/app/api/nep-compliance/route.ts:77-80 | A stored figure is within half a hundredth of the exact one. |
| Nep.Round2Monotone | src/app/api/nep-compliance/route.ts:120 | Rounding keeps order, so a rate between 0 and 100 stays between them. |
| Nep.UpsertTable | src/app/api/nep-compliance/route.ts:69-94 | After the upsert, the (faculty, week) key is held only by the record returned. Keys stay unique, the table grows by at most one, and no other record changes. |
| Nep.RateRange | src/app/api/nep-compliance/route.ts:113-120 | The rounded rate lies in [0, 100]. It is 100 when everyone complies and 0 when nobody does. |
| Nep.SummaryBounds | src/app/api/nep-compliance/route.ts:110-120 | The compliant and non-compliant counts add up to the total. The rate lies in [0, 100], and is 100 when all comply and 0 when none do. |
| Nep.AssessAllDetails | src/app/api/nep-compliance/route.ts:28-107 | There is one detail per faculty member, in order, for the given week. Each counts the week's entries and is compliant exactly when those entries' hours lie between 16 and 40. |
| Nep.AssessAllKeysUnique | src/app/api/nep-compliance/route.ts:68-94 | Upserting every faculty member's record keeps at most one record per faculty member and week. |

## Left out

- Authentication, the 401 and 404 replies and the 500 catch-all paths are left out. Every call is made by an authorised user whose faculty profile exists.
- The timetable stores `Date` values. The model keeps only the hour of one reference day, so rows written on different calendar dates are treated as the same instant. In the code such rows never overlap. So `Reschedule.RelocateAllKeepsConflictFree` and `Reschedule.EmergencyRescheduleConflictFree` describe the program only for rows whose times fall on the same calendar day. For rows from different dates the model reports a clash that the code does not.
- Attendance dates are day numbers, and the current instant is a parameter.
- LeaveRequests.CheckInOnLeaveDay: assumes the leave handler and the check-in handler give a calendar day the same key. The leave handler stores `new Date("YYYY-MM-DD")`, which is UTC midnight, while check-in keys on local midnight (`setHours(0, 0, 0, 0)`). On a server outside UTC the two differ, and a check-in on a leave day creates a second, PRESENT row instead.
- Reschedule.WeekdayOf: `getDay` is a parameter and is not tied to `date`. The handler parses the `YYYY-MM-DD` date as UTC midnight but `getDay()` returns the weekday in the server's local time. On a server west of UTC it is the previous weekday (Saturday 2024-01-13 gives 5), so the Friday rows are affected. The model's statements hold for the weekday the server computes.
- Query order: a `findMany` without `orderBy` has no order the database promises. The model fixes it to the stored order, which decides the order in which the rescheduler processes the affected rows.
- Generated row ids (`Date.now()` and `Math.random()`) and the department code's random tag are parameters.
- The generator's `constraints` argument and the `departmentId`/`semester` filters on its inputs are left out. The code reads neither when placing classes.
- Generate.Required: `Math.ceil` of a fractional weekly hours value is not modelled. Weekly hours are integers.
- The `holiday` table write is reduced to the returned `Holiday`. The notification logging is left out.
- The departments GET, PUT and DELETE handlers are left out. They are plain reads and writes.
- Departments.UpperAll: only ASCII letters are upper-cased. JavaScript's full Unicode mapping (for example 'ß' becoming "SS") is not modelled.
- Departments.Create: the code's `while` loop has no bound. The model stops after 10000 tries with `Unresolved`. Fewer than 10000 stored departments always give a code (`Departments.ProbeSucceeds`).
- Departments.Request: `toString()` on a non-string JSON value is not modelled. Fields are strings or absent.
- NEP figures use exact reals instead of IEEE doubles. The week window is a parameter instead of being read from the clock.
- The per-faculty `Promise.all` is modelled as sequential. The detail's user and department fields are left out.
- The pages and UI components are left out.
