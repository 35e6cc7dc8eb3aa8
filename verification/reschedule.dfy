/** Emergency rescheduling: the POST handler of the reschedule route and its
    helper `rescheduleClass`. The database is the sequence of stored
    timetable rows; each relocation reads the rows as they are after the
    previous ones. */
module Reschedule {
  import opened Wrappers
  import opened Grid
  import opened Timetable

  datatype HolidayType = National | Emergency

  datatype Holiday = Holiday(name: string, date: int, kind: HolidayType, description: string)

  /** What the handler leaves behind: the holiday it wrote, the stored rows
      afterwards, and the count it reports. */
  datatype Outcome = Outcome(holiday: Holiday, stored: seq<Entry>, affectedCount: nat)

  /** `getDay()` of the emergency date (0 = Sunday .. 6 = Saturday) in the
      timetable's numbering. Sunday becomes 6, the same as Saturday. The
      weekday is the server's local one for a date parsed as UTC midnight,
      so it is taken as given rather than computed from the date. */
  function WeekdayOf(getDay: int): (d: int)
    requires 0 <= getDay <= 6
    ensures 1 <= d <= 6
    ensures 1 <= getDay <= 5 ==> d == getDay
    ensures getDay == 0 || getDay == 6 ==> d == 6
  {
    if getDay == 0 then 6 else getDay
  }

  /** The rows on the disrupted day, in stored order. */
  function Affected(stored: seq<Entry>, day: int): seq<Entry> {
    Filter(stored, (e: Entry) => e.day == day)
  }

  /** [1, 2, 3, 4, 5] without the disrupted day. */
  function RemainingDays(day: int): seq<int> {
    Filter(Days, (d: int) => d != day)
  }

  /** The remaining days written out. */
  lemma RemainingDaysValue(day: int)
    ensures RemainingDays(day) == if 1 <= day <= 5 then Days[..day - 1] + Days[day..] else Days
  {
    if 1 <= day <= 5 {
      FilterDropsOne(Days, (d: int) => d != day, day - 1);
    } else {
      FilterKeepsAll(Days, (d: int) => d != day);
    }
  }

  /** The weekdays other than `day`. */
  lemma RemainingDaysMembers(day: int)
    ensures forall d :: d in RemainingDays(day) <==> 1 <= d <= 5 && d != day
  {
    FilterMembers(Days, (d: int) => d != day);
    DaysMembers();
  }

  /** The remaining days are in ascending order. */
  lemma RemainingDaysAscending(day: int)
    ensures forall i, j :: 0 <= i < j < |RemainingDays(day)| ==> RemainingDays(day)[i] < RemainingDays(day)[j]
  {
    FilterAscending(Days, (d: int) => d != day);
  }

  /** Four remaining days when `day` is a weekday, all five otherwise. */
  lemma RemainingDaysCount(day: int)
    ensures 1 <= day <= 5 ==> |RemainingDays(day)| == 4
    ensures !(1 <= day <= 5) ==> RemainingDays(day) == Days
  {
    RemainingDaysValue(day);
  }

  /** A filter of an ascending sequence is ascending. */
  lemma {:induction false} FilterAscending(s: seq<int>, p: int -> bool)
    requires forall i, j :: 0 <= i < j < |s| ==> s[i] < s[j]
    ensures forall i, j :: 0 <= i < j < |Filter(s, p)| ==> Filter(s, p)[i] < Filter(s, p)[j]
  {
    if |s| > 0 {
      var rest := Filter(s[1..], p);
      FilterAscending(s[1..], p);
      FilterMembers(s[1..], p);
      var r := Filter(s, p);
      if p(s[0]) {
        assert r == [s[0]] + rest;
        forall i, j | 0 <= i < j < |r|
          ensures r[i] < r[j]
        {
          if i == 0 {
            assert r[j] == rest[j - 1] && r[j] in s[1..];
          } else {
            assert r[i] == rest[i - 1] && r[j] == rest[j - 1];
          }
        }
      } else {
        assert r == rest;
      }
    }
  }

  /** A Saturday or Sunday emergency leaves all five weekdays to shift into
      and touches no weekday row. */
  lemma WeekendDisruption(stored: seq<Entry>, getDay: int)
    requires getDay == 0 || getDay == 6
    ensures RemainingDays(WeekdayOf(getDay)) == Days
    ensures forall e :: e in Affected(stored, WeekdayOf(getDay)) ==> e.day !in Days
  {
    RemainingDaysCount(6);
    FilterMembers(stored, (e: Entry) => e.day == WeekdayOf(getDay));
  }

  // ---------------------------------------------------------------------
  // Conflict test

  /** The rows `rescheduleClass` reads back: on a remaining day, and with
      the entry's faculty member or the entry's classroom. */
  function Related(stored: seq<Entry>, remaining: seq<int>, entry: Entry): seq<Entry> {
    Filter(stored, (e: Entry) => e.day in remaining && (e.facultyId == entry.facultyId || e.classroomId == entry.classroomId))
  }

  /** Whether some row on `day` overlaps [start, end). */
  function HasConflict(existing: seq<Entry>, day: int, start: int, end: int): bool {
    if |existing| == 0 then false
    else
      (existing[0].day == day && Overlap(start, end, existing[0].start, existing[0].end))
      || HasConflict(existing[1..], day, start, end)
  }

  lemma {:induction false} HasConflictExists(existing: seq<Entry>, day: int, start: int, end: int)
    ensures HasConflict(existing, day, start, end) <==>
      exists e :: e in existing && e.day == day && Overlap(start, end, e.start, e.end)
  {
    if |existing| > 0 {
      HasConflictExists(existing[1..], day, start, end);
      assert existing == [existing[0]] + existing[1..];
    }
  }

  /** A candidate placement conflicts exactly when a stored row on a
      remaining day, on the candidate's day, with the same faculty member or
      classroom, overlaps it. */
  lemma ConflictMeaning(stored: seq<Entry>, remaining: seq<int>, entry: Entry, day: int, start: int, end: int)
    ensures HasConflict(Related(stored, remaining, entry), day, start, end) <==>
      exists e :: e in stored && e.day in remaining && e.day == day
        && (e.facultyId == entry.facultyId || e.classroomId == entry.classroomId)
        && Overlap(start, end, e.start, e.end)
  {
    HasConflictExists(Related(stored, remaining, entry), day, start, end);
    FilterMembers(stored, (e: Entry) => e.day in remaining && (e.facultyId == entry.facultyId || e.classroomId == entry.classroomId));
  }

  /** A non-empty row on a remaining day conflicts with itself; nothing
      conflicts with an empty table. */
  lemma ConflictWithItself(e: Entry, remaining: seq<int>, day: int, start: int, end: int)
    requires e.day in remaining && e.start < e.end
    ensures HasConflict(Related([e], remaining, e), e.day, e.start, e.end)
    ensures !HasConflict(Related([], remaining, e), day, start, end)
  {
    ConflictMeaning([e], remaining, e, e.day, e.start, e.end);
  }

  // ---------------------------------------------------------------------
  // First-fit search

  datatype Placement = Placement(day: int, slot: Slot)

  /** The search order: each remaining day in turn, each slot in turn. */
  function Candidates(remaining: seq<int>): (r: seq<Placement>)
    ensures |r| == |remaining| * SlotCount
    ensures forall k :: 0 <= k < |r| ==> r[k] == Placement(remaining[k / SlotCount], Slots[k % SlotCount])
  {
    seq(|remaining| * SlotCount, k requires 0 <= k < |remaining| * SlotCount => Placement(remaining[k / SlotCount], Slots[k % SlotCount]))
  }

  predicate Free(existing: seq<Entry>, p: Placement) {
    !HasConflict(existing, p.day, p.slot.start, p.slot.end)
  }

  /** `rescheduleClass`: the copy of `entry` placed at the first candidate
      with no conflict against the rows it reads back, or None. */
  function RescheduleClass(entry: Entry, remaining: seq<int>, stored: seq<Entry>, newId: string): Option<Entry> {
    var existing := Related(stored, remaining, entry);
    match First(Candidates(remaining), p => Free(existing, p))
    case None => None
    case Some(k) =>
      var p := Candidates(remaining)[k];
      Some(Entry(newId, entry.subjectId, entry.facultyId, entry.classroomId, p.day, p.slot.start, p.slot.end,
                 entry.classType, true, Some(entry.id), entry.createdById))
  }

  /** The copy keeps subject, faculty, classroom, class type and author, is
      flagged rescheduled and points back at the original. It takes the
      lexicographically first (remaining day, slot) pair that is free; when
      there is no copy, every pair is taken. */
  lemma RescheduleClassFirstFit(entry: Entry, remaining: seq<int>, stored: seq<Entry>, newId: string)
    ensures var existing, r := Related(stored, remaining, entry), RescheduleClass(entry, remaining, stored, newId);
      && (r.None? ==> forall di, t :: 0 <= di < |remaining| && 0 <= t < |Slots| ==>
            !Free(existing, Placement(remaining[di], Slots[t])))
      && (r.Some? ==>
            && r.value.id == newId && r.value.subjectId == entry.subjectId
            && r.value.facultyId == entry.facultyId && r.value.classroomId == entry.classroomId
            && r.value.classType == entry.classType && r.value.createdById == entry.createdById
            && r.value.isRescheduled && r.value.originalId == Some(entry.id)
            && exists di, t :: 0 <= di < |remaining| && 0 <= t < |Slots|
                 && r.value.day == remaining[di] && Slot(r.value.start, r.value.end) == Slots[t]
                 && Free(existing, Placement(remaining[di], Slots[t]))
                 && forall dj, u :: 0 <= dj < |remaining| && 0 <= u < |Slots| && (dj < di || (dj == di && u < t)) ==>
                      !Free(existing, Placement(remaining[dj], Slots[u])))
  {
    var existing := Related(stored, remaining, entry);
    var cs := Candidates(remaining);
    var found := First(cs, p => Free(existing, p));
    if found.None? {
      forall di, t | 0 <= di < |remaining| && 0 <= t < |Slots|
        ensures !Free(existing, Placement(remaining[di], Slots[t]))
      {
        var k := di * SlotCount + t;
        assert k / SlotCount == di && k % SlotCount == t;
        assert cs[k] == Placement(remaining[di], Slots[t]);
      }
    } else {
      var k := found.value;
      var di, t := k / SlotCount, k % SlotCount;
      assert di < |remaining|;
      forall dj, u | 0 <= dj < |remaining| && 0 <= u < |Slots| && (dj < di || (dj == di && u < t))
        ensures !Free(existing, Placement(remaining[dj], Slots[u]))
      {
        var j := dj * SlotCount + u;
        assert j / SlotCount == dj && j % SlotCount == u;
        assert j < k;
        assert cs[j] == Placement(remaining[dj], Slots[u]);
      }
    }
  }

  // ---------------------------------------------------------------------
  // The relocation loop

  /** The update by id that flags the original rows as rescheduled. */
  function MarkRescheduled(stored: seq<Entry>, id: string): (r: seq<Entry>)
    ensures |r| == |stored|
    ensures forall i :: 0 <= i < |r| ==>
      r[i] == (if stored[i].id == id then stored[i].(isRescheduled := true) else stored[i])
  {
    seq(|stored|, i requires 0 <= i < |stored| => if stored[i].id == id then stored[i].(isRescheduled := true) else stored[i])
  }

  /** One pass of the loop: relocate `entry` and, only if that worked, flag
      the original. */
  function Relocate(entry: Entry, remaining: seq<int>, stored: seq<Entry>, newId: string): (seq<Entry>, bool) {
    match RescheduleClass(entry, remaining, stored, newId)
    case None => (stored, false)
    case Some(copy) => (MarkRescheduled(stored + [copy], entry.id), true)
  }

  datatype Pass = Pass(stored: seq<Entry>, moved: seq<bool>)

  /** The loop over the affected rows, in order; `moved[i]` is whether the
      i-th one found a new place. New rows take ids `freshId(n)`, ... */
  function RelocateAll(affected: seq<Entry>, remaining: seq<int>, stored: seq<Entry>, freshId: nat -> string, n: nat): Pass
    decreases |affected|
  {
    if |affected| == 0 then Pass(stored, [])
    else
      var (next, ok) := Relocate(affected[0], remaining, stored, freshId(n));
      var rest := RelocateAll(affected[1..], remaining, next, freshId, n + 1);
      Pass(rest.stored, [ok] + rest.moved)
  }

  /** The POST handler: write the emergency holiday, find the rows on the
      disrupted day, and relocate them only for SHIFT_REMAINING. */
  function EmergencyReschedule(stored: seq<Entry>, date: int, getDay: int, reason: string,
                               rescheduleType: string, freshId: nat -> string): (r: Outcome)
    requires 0 <= getDay <= 6
    ensures r.holiday.kind == Emergency && r.holiday.date == date && r.holiday.description == reason
    ensures r.holiday.name == "Emergency Holiday - " + reason
    ensures r.affectedCount == |Affected(stored, WeekdayOf(getDay))|
    ensures rescheduleType != "SHIFT_REMAINING" ==> r.stored == stored
  {
    var holiday := Holiday("Emergency Holiday - " + reason, date, Emergency, reason);
    var day := WeekdayOf(getDay);
    var affected := Affected(stored, day);
    var after :=
      if rescheduleType == "SHIFT_REMAINING" then RelocateAll(affected, RemainingDays(day), stored, freshId, 0).stored
      else stored;
    Outcome(holiday, after, |affected|)
  }

  // ---------------------------------------------------------------------
  // Properties of the loop

  function Moved(moved: seq<bool>): nat {
    if |moved| == 0 then 0 else (if moved[0] then 1 else 0) + Moved(moved[1..])
  }

  /** `a` is `b`, possibly with the rescheduled flag newly set. */
  predicate SameButFlag(a: Entry, b: Entry) {
    a == b.(isRescheduled := a.isRescheduled) && (b.isRescheduled ==> a.isRescheduled)
  }

  /** A row the loop added: a rescheduled copy of one of the affected rows,
      on a remaining day, in a canonical slot. */
  ghost predicate CopyOf(x: Entry, affected: seq<Entry>, remaining: seq<int>) {
    exists a :: a in affected
      && x.subjectId == a.subjectId && x.facultyId == a.facultyId && x.classroomId == a.classroomId
      && x.classType == a.classType && x.createdById == a.createdById
      && x.isRescheduled && x.originalId == Some(a.id)
      && x.day in remaining && Slot(x.start, x.end) in Slots
  }

  /** One pass: on failure nothing changes; on success exactly one row is
      added, the original's flag is set, and no other field of any row
      changes. */
  lemma RelocateStep(entry: Entry, remaining: seq<int>, stored: seq<Entry>, newId: string)
    ensures var (next, ok) := Relocate(entry, remaining, stored, newId);
      && (!ok ==> next == stored)
      && (ok ==> |next| == |stored| + 1)
      && (ok ==> forall i :: 0 <= i < |stored| ==>
            SameButFlag(next[i], stored[i]) && (next[i].isRescheduled <==> stored[i].isRescheduled || stored[i].id == entry.id))
      && (ok ==> CopyOf(next[|stored|], [entry], remaining))
      && (ok <==> RescheduleClass(entry, remaining, stored, newId).Some?)
  {
    RescheduleClassFirstFit(entry, remaining, stored, newId);
  }

  /** The whole loop: one outcome per affected row; the stored rows are
      kept apart from their flag; every added row is a rescheduled copy of an
      affected row on a remaining day, one per success. */
  lemma {:induction false} RelocateAllShape(affected: seq<Entry>, remaining: seq<int>, stored: seq<Entry>, freshId: nat -> string, n: nat)
    ensures var r := RelocateAll(affected, remaining, stored, freshId, n);
      && |r.moved| == |affected|
      && |r.stored| == |stored| + Moved(r.moved)
      && (forall i :: 0 <= i < |stored| ==> SameButFlag(r.stored[i], stored[i]))
      && (forall i :: |stored| <= i < |r.stored| ==> CopyOf(r.stored[i], affected, remaining))
    decreases |affected|
  {
    if |affected| > 0 {
      var entry := affected[0];
      var (next, ok) := Relocate(entry, remaining, stored, freshId(n));
      RelocateStep(entry, remaining, stored, freshId(n));
      RelocateAllShape(affected[1..], remaining, next, freshId, n + 1);
      var r := RelocateAll(affected, remaining, stored, freshId, n);
      var rest := RelocateAll(affected[1..], remaining, next, freshId, n + 1);
      assert r.stored == rest.stored && r.moved == [ok] + rest.moved;
      assert ([ok] + rest.moved)[1..] == rest.moved;
      forall i | |stored| <= i < |r.stored|
        ensures CopyOf(r.stored[i], affected, remaining)
      {
        if i < |next| {
          assert ok;
          assert r.stored[i] == rest.stored[i];
          var x := r.stored[i];
          assert SameButFlag(x, next[i]);
          assert CopyOf(next[i], [entry], remaining);
          var a :| a in [entry] && a == entry;
          assert x.isRescheduled;
          assert CopyOf(x, [entry], remaining);
        } else {
          assert CopyOf(r.stored[i], affected[1..], remaining);
          var x := r.stored[i];
          var a :| a in affected[1..] && x.originalId == Some(a.id) && x.subjectId == a.subjectId
            && x.facultyId == a.facultyId && x.classroomId == a.classroomId && x.classType == a.classType
            && x.createdById == a.createdById;
          assert a in affected;
        }
      }
    }
  }

  /** Some affected row with id `id` found a new place. */
  ghost predicate MovedId(affected: seq<Entry>, moved: seq<bool>, id: string) {
    exists j :: 0 <= j < |affected| && j < |moved| && moved[j] && affected[j].id == id
  }

  /** Some row from position `from` on is a copy of the row with id `id`. */
  ghost predicate HasCopy(rows: seq<Entry>, from: nat, id: string) {
    exists k :: from <= k < |rows| && rows[k].originalId == Some(id)
  }

  lemma MovedIdCons(affected: seq<Entry>, ok: bool, moved: seq<bool>, id: string)
    requires |affected| > 0
    ensures MovedId(affected, [ok] + moved, id) <==> (ok && affected[0].id == id) || MovedId(affected[1..], moved, id)
  {
    var all := [ok] + moved;
    if MovedId(affected[1..], moved, id) {
      var j :| 0 <= j < |affected[1..]| && j < |moved| && moved[j] && affected[1..][j].id == id;
      assert all[j + 1] == moved[j] && affected[j + 1] == affected[1..][j];
    }
    if MovedId(affected, all, id) {
      var j :| 0 <= j < |affected| && j < |all| && all[j] && affected[j].id == id;
      if j > 0 {
        assert all[j] == moved[j - 1] && affected[j] == affected[1..][j - 1];
      }
    }
  }

  lemma HasCopyCons(rows: seq<Entry>, from: nat, id: string)
    requires from < |rows|
    ensures HasCopy(rows, from, id) <==> rows[from].originalId == Some(id) || HasCopy(rows, from + 1, id)
  {
  }

  /** The update by id: a stored row ends up flagged exactly when it was
      flagged before or an affected row with its id found a new place. */
  lemma {:induction false} RelocateAllFlags(affected: seq<Entry>, remaining: seq<int>, stored: seq<Entry>, freshId: nat -> string, n: nat)
    ensures var r := RelocateAll(affected, remaining, stored, freshId, n);
      && |stored| <= |r.stored|
      && forall i :: 0 <= i < |stored| ==>
           (r.stored[i].isRescheduled <==> stored[i].isRescheduled || MovedId(affected, r.moved, stored[i].id))
    decreases |affected|
  {
    if |affected| > 0 {
      var entry := affected[0];
      var (next, ok) := Relocate(entry, remaining, stored, freshId(n));
      var rest := RelocateAll(affected[1..], remaining, next, freshId, n + 1);
      RelocateStep(entry, remaining, stored, freshId(n));
      RelocateAllFlags(affected[1..], remaining, next, freshId, n + 1);
      forall i | 0 <= i < |stored|
        ensures rest.stored[i].isRescheduled <==> stored[i].isRescheduled || MovedId(affected, [ok] + rest.moved, stored[i].id)
      {
        assert next[i].id == stored[i].id;
        MovedIdCons(affected, ok, rest.moved, stored[i].id);
      }
    }
  }

  /** The rows the loop adds are copies of exactly the ids of the affected
      rows that found a new place. */
  lemma {:induction false} RelocateAllCopies(affected: seq<Entry>, remaining: seq<int>, stored: seq<Entry>, freshId: nat -> string, n: nat)
    ensures var r := RelocateAll(affected, remaining, stored, freshId, n);
      && |stored| <= |r.stored|
      && forall id :: HasCopy(r.stored, |stored|, id) <==> MovedId(affected, r.moved, id)
    decreases |affected|
  {
    if |affected| > 0 {
      var entry := affected[0];
      var (next, ok) := Relocate(entry, remaining, stored, freshId(n));
      var rest := RelocateAll(affected[1..], remaining, next, freshId, n + 1);
      RelocateStep(entry, remaining, stored, freshId(n));
      RelocateAllCopies(affected[1..], remaining, next, freshId, n + 1);
      if ok {
        assert next[|stored|].originalId == Some(entry.id) by {
          assert CopyOf(next[|stored|], [entry], remaining);
        }
        assert rest.stored[|stored|].originalId == Some(entry.id) by {
          RelocateAllShape(affected[1..], remaining, next, freshId, n + 1);
          assert SameButFlag(rest.stored[|stored|], next[|stored|]);
        }
      }
      forall id
        ensures HasCopy(rest.stored, |stored|, id) <==> MovedId(affected, [ok] + rest.moved, id)
      {
        MovedIdCons(affected, ok, rest.moved, id);
        if ok {
          HasCopyCons(rest.stored, |stored|, id);
        }
      }
    }
  }

  /** With the affected rows' ids distinct, as primary keys are, the i-th
      affected row was moved exactly when a copy of it was added. */
  lemma RelocateAllMoved(affected: seq<Entry>, remaining: seq<int>, stored: seq<Entry>, freshId: nat -> string, n: nat)
    requires forall i, j :: 0 <= i < j < |affected| ==> affected[i].id != affected[j].id
    ensures var r := RelocateAll(affected, remaining, stored, freshId, n);
      && |r.moved| == |affected|
      && (forall i :: 0 <= i < |affected| ==> (r.moved[i] <==> HasCopy(r.stored, |stored|, affected[i].id)))
  {
    var r := RelocateAll(affected, remaining, stored, freshId, n);
    RelocateAllShape(affected, remaining, stored, freshId, n);
    RelocateAllCopies(affected, remaining, stored, freshId, n);
    forall i | 0 <= i < |affected|
      ensures r.moved[i] <==> HasCopy(r.stored, |stored|, affected[i].id)
    {
      if MovedId(affected, r.moved, affected[i].id) {
        var j :| 0 <= j < |affected| && j < |r.moved| && r.moved[j] && affected[j].id == affected[i].id;
        assert i == j;
      }
    }
  }

  /** A moved row's stored original, the row with its id, is flagged. */
  lemma RelocateAllMovedFlagged(affected: seq<Entry>, remaining: seq<int>, stored: seq<Entry>, freshId: nat -> string, n: nat)
    ensures var r := RelocateAll(affected, remaining, stored, freshId, n);
      && |r.moved| == |affected|
      && |stored| <= |r.stored|
      && (forall i, k :: 0 <= i < |affected| && 0 <= k < |stored| && stored[k].id == affected[i].id && r.moved[i] ==>
            r.stored[k].isRescheduled)
  {
    var r := RelocateAll(affected, remaining, stored, freshId, n);
    RelocateAllShape(affected, remaining, stored, freshId, n);
    RelocateAllFlags(affected, remaining, stored, freshId, n);
    forall i, k | 0 <= i < |affected| && 0 <= k < |stored| && stored[k].id == affected[i].id && r.moved[i]
      ensures r.stored[k].isRescheduled
    {
      assert MovedId(affected, r.moved, stored[k].id);
    }
  }

  /** Relocations never land on the disrupted day. */
  lemma RelocatedOffDisruptedDay(affected: seq<Entry>, day: int, stored: seq<Entry>, freshId: nat -> string)
    ensures var r := RelocateAll(affected, RemainingDays(day), stored, freshId, 0).stored;
      forall i :: |stored| <= i < |r| ==> r[i].day != day && r[i].isRescheduled
  {
    var remaining := RemainingDays(day);
    var r := RelocateAll(affected, remaining, stored, freshId, 0).stored;
    RelocateAllShape(affected, remaining, stored, freshId, 0);
    RemainingDaysMembers(day);
    forall i | |stored| <= i < |r|
      ensures r[i].day != day && r[i].isRescheduled
    {
      CopyOfOnRemainingDay(r[i], affected, remaining);
    }
  }

  /** A copy is flagged and sits on a remaining day. */
  lemma CopyOfOnRemainingDay(x: Entry, affected: seq<Entry>, remaining: seq<int>)
    requires CopyOf(x, affected, remaining)
    ensures x.isRescheduled && x.day in remaining
  {
  }

  // ---------------------------------------------------------------------
  // No new double-booking

  lemma MarkKeepsConflictFree(stored: seq<Entry>, id: string, days: seq<int>)
    requires ConflictFree(stored, days)
    ensures ConflictFree(MarkRescheduled(stored, id), days)
  {
    var r := MarkRescheduled(stored, id);
    forall i, j | 0 <= i < |r| && 0 <= j < |r| && i != j && r[i].day in days
      ensures !Clash(r[i], r[j])
    {
      assert !Clash(stored[i], stored[j]);
    }
  }

  lemma RelocateKeepsConflictFree(entry: Entry, remaining: seq<int>, stored: seq<Entry>, newId: string)
    requires ConflictFree(stored, remaining)
    ensures ConflictFree(Relocate(entry, remaining, stored, newId).0, remaining)
  {
    match RescheduleClass(entry, remaining, stored, newId)
    case None =>
    case Some(copy) =>
      RescheduleClassFirstFit(entry, remaining, stored, newId);
      var existing := Related(stored, remaining, entry);
      var grown := stored + [copy];
      assert Free(existing, Placement(copy.day, Slot(copy.start, copy.end)));
      ConflictMeaning(stored, remaining, entry, copy.day, copy.start, copy.end);
      forall i, j | 0 <= i < |grown| && 0 <= j < |grown| && i != j && grown[i].day in remaining
        ensures !Clash(grown[i], grown[j])
      {
        if i < |stored| && j < |stored| {
          assert grown[i] == stored[i] && grown[j] == stored[j];
        } else if i < |stored| {
          assert grown[j] == copy;
        } else {
          assert grown[i] == copy;
        }
      }
      MarkKeepsConflictFree(grown, entry.id, remaining);
  }

  /** If no two rows on the remaining days double-book a faculty member or a
      classroom before the loop, none do after it: each relocation is checked
      against the rows as the earlier relocations left them. */
  lemma {:induction false} RelocateAllKeepsConflictFree(affected: seq<Entry>, remaining: seq<int>, stored: seq<Entry>, freshId: nat -> string, n: nat)
    requires ConflictFree(stored, remaining)
    ensures ConflictFree(RelocateAll(affected, remaining, stored, freshId, n).stored, remaining)
    decreases |affected|
  {
    if |affected| > 0 {
      var (next, ok) := Relocate(affected[0], remaining, stored, freshId(n));
      RelocateKeepsConflictFree(affected[0], remaining, stored, freshId(n));
      RelocateAllKeepsConflictFree(affected[1..], remaining, next, freshId, n + 1);
    }
  }

  /** The handler keeps the remaining weekdays free of double-booking. */
  lemma EmergencyRescheduleConflictFree(stored: seq<Entry>, date: int, getDay: int, reason: string,
                                        rescheduleType: string, freshId: nat -> string)
    requires 0 <= getDay <= 6
    requires ConflictFree(stored, RemainingDays(WeekdayOf(getDay)))
    ensures ConflictFree(EmergencyReschedule(stored, date, getDay, reason, rescheduleType, freshId).stored,
                         RemainingDays(WeekdayOf(getDay)))
  {
    var day := WeekdayOf(getDay);
    RelocateAllKeepsConflictFree(Affected(stored, day), RemainingDays(day), stored, freshId, 0);
  }
}
