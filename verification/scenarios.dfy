/** A worked emergency: Tuesday is disrupted. F1 teaches S1 in C1 on
    Tuesday 9-10 and another subject in C2 on Monday 9-10. */
module Scenarios {
  import opened Wrappers
  import opened Grid
  import opened Timetable
  import opened Reschedule

  function Monday(): Entry {
    Entry("E0", "S0", "F1", "C2", 1, 9, 10, Lecture, false, None, "A")
  }

  function Tuesday(): Entry {
    Entry("E1", "S1", "F1", "C1", 2, 9, 10, Lecture, false, None, "A")
  }

  /** The copy the rescheduler is expected to write: Monday 10-11. */
  function MovedCopy(newId: string): Entry {
    Entry(newId, "S1", "F1", "C1", 1, 10, 11, Lecture, true, Some("E1"), "A")
  }

  lemma TuesdayAffected()
    ensures Affected([Monday(), Tuesday()], 2) == [Tuesday()]
  {
    var onTuesday := (e: Entry) => e.day == 2;
    assert [Monday(), Tuesday()][1..] == [Tuesday()] && [Tuesday()][1..] == [];
    assert Filter([Tuesday()], onTuesday) == [Tuesday()];
  }

  lemma TuesdayRemaining()
    ensures RemainingDays(2) == [1, 3, 4, 5]
  {
    RemainingDaysValue(2);
    assert Days[..1] + Days[2..] == [1, 3, 4, 5];
  }

  lemma TuesdayRelated()
    ensures Related([Monday(), Tuesday()], [1, 3, 4, 5], Tuesday()) == [Monday()]
  {
    var p := (e: Entry) => e.day in [1, 3, 4, 5] && (e.facultyId == "F1" || e.classroomId == "C1");
    assert [Monday(), Tuesday()][1..] == [Tuesday()] && [Tuesday()][1..] == [];
    assert Filter([Tuesday()], p) == [];
  }

  lemma TuesdayCopy(newId: string)
    ensures RescheduleClass(Tuesday(), [1, 3, 4, 5], [Monday(), Tuesday()], newId) == Some(MovedCopy(newId))
  {
    TuesdayRelated();
    var existing := [Monday()];
    var cs := Candidates([1, 3, 4, 5]);
    assert cs[0] == Placement(1, Slot(9, 10));
    assert cs[1] == Placement(1, Slot(10, 11));
    assert !Free(existing, cs[0]);
    assert Free(existing, cs[1]);
    assert First(cs, p => Free(existing, p)) == Some(1);
  }

  lemma {:induction false} TuesdayRelocated(freshId: nat -> string)
    ensures RelocateAll([Tuesday()], [1, 3, 4, 5], [Monday(), Tuesday()], freshId, 0).stored
      == [Monday(), Tuesday().(isRescheduled := true), MovedCopy(freshId(0))]
  {
    var stored := [Monday(), Tuesday()];
    TuesdayCopy(freshId(0));
    var copy := MovedCopy(freshId(0));
    var marked := MarkRescheduled(stored + [copy], "E1");
    assert marked == [Monday(), Tuesday().(isRescheduled := true), copy];
    assert Relocate(Tuesday(), [1, 3, 4, 5], stored, freshId(0)) == (marked, true);
    assert [Tuesday()][1..] == [];
  }

  /** The Tuesday class moves to Monday 10-11, the first pair that F1 and C1
      both have free; the original stays, flagged; one row is reported. */
  lemma {:induction false} TuesdayToMonday(date: int, freshId: nat -> string)
    ensures var r := EmergencyReschedule([Monday(), Tuesday()], date, 2, "storm", "SHIFT_REMAINING", freshId);
      && r.affectedCount == 1
      && r.stored == [Monday(), Tuesday().(isRescheduled := true), MovedCopy(freshId(0))]
  {
    TuesdayAffected();
    TuesdayRemaining();
    TuesdayRelocated(freshId);
  }
}
