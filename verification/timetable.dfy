/** The stored timetable row, shared by generation (which writes it) and the
    rescheduler (which reads it and appends to it). */
module Timetable {
  import opened Wrappers
  import opened Grid

  datatype ClassType = Lecture | Lab

  /** LAB for a lab subject, LECTURE otherwise. */
  function ClassTypeFor(isLab: bool): (c: ClassType)
    ensures c.Lab? <==> isLab
  {
    if isLab then Lab else Lecture
  }

  /** A `timetableEntry` row. Times are hours of one reference day. */
  datatype Entry = Entry(
    id: string,
    subjectId: string,
    facultyId: string,
    classroomId: string,
    day: int,
    start: int,
    end: int,
    classType: ClassType,
    isRescheduled: bool,
    originalId: Option<string>,
    createdById: string)

  predicate SharesResource(a: Entry, b: Entry) {
    a.facultyId == b.facultyId || a.classroomId == b.classroomId
  }

  predicate Clash(a: Entry, b: Entry) {
    a.day == b.day && SharesResource(a, b) && Overlap(a.start, a.end, b.start, b.end)
  }

  /** No two distinct rows on one of `days` double-book a faculty member or a
      classroom. */
  ghost predicate ConflictFree(es: seq<Entry>, days: seq<int>) {
    forall i, j :: 0 <= i < |es| && 0 <= j < |es| && i != j && es[i].day in days ==> !Clash(es[i], es[j])
  }
}
