/** The greedy weekly timetable generator (`generateTimetable`) and the
    replace-all commit of its result (the POST handler of the generate
    route). */
module Generate {
  import opened Wrappers
  import opened Grid
  import opened Timetable
  import Sorting

  datatype Subject = Subject(id: string, weeklyHours: int, isLab: bool)

  /** A faculty profile with the ids of the subjects it is linked to. */
  datatype Faculty = Faculty(id: string, subjectIds: seq<string>)

  datatype Classroom = Classroom(id: string, isLab: bool)

  /** One generated class, before it is given an id and stored. */
  datatype Session = Session(
    subjectId: string,
    facultyId: string,
    classroomId: string,
    day: int,
    start: int,
    end: int,
    classType: ClassType)

  /** (faculty or classroom id, day, slot index): one slot index pushed onto
      that resource's list for that day. */
  type Booking = (string, int, int)

  /** The two occupancy maps of one generation run. */
  datatype Calendars = Calendars(faculty: set<Booking>, rooms: set<Booking>)

  /** State of the run: occupancy so far and the sessions produced so far. */
  datatype Run = Run(busy: Calendars, out: seq<Session>)

  const EmptyRun: Run := Run(Calendars({}, {}), [])

  // ---------------------------------------------------------------------
  // Priority order of subjects

  /** The comparator of the subject sort, as "a comes strictly before b":
      labs before non-labs, then more weekly hours first. */
  predicate Outranks(a: Subject, b: Subject) {
    (a.isLab && !b.isLab) || (a.isLab == b.isLab && a.weeklyHours > b.weeklyHours)
  }

  function Prioritise(subjects: seq<Subject>): seq<Subject> {
    Sorting.Sort(subjects, Outranks)
  }

  lemma OutranksIsStrictWeakOrder()
    ensures Sorting.StrictWeakOrder(Outranks)
  {
  }

  /** The subject order is a permutation with labs first, then weekly hours
      descending, and subjects tied on both keep their input order. */
  lemma PrioritiseOrder(subjects: seq<Subject>)
    ensures multiset(Prioritise(subjects)) == multiset(subjects)
    ensures forall i, j :: 0 <= i < j < |Prioritise(subjects)| ==>
      var a, b := Prioritise(subjects)[i], Prioritise(subjects)[j];
      (a.isLab || !b.isLab) && (a.isLab == b.isLab ==> a.weeklyHours >= b.weeklyHours)
    ensures forall y :: Sorting.Level(Prioritise(subjects), Outranks, y) == Sorting.Level(subjects, Outranks, y)
  {
    OutranksIsStrictWeakOrder();
    Sorting.SortSorted(subjects, Outranks);
    forall y {
      Sorting.SortStable(subjects, Outranks, y);
    }
  }

  /** Two subjects are tied in the sort exactly when they agree on both keys. */
  lemma TiedSubjects(a: Subject, b: Subject)
    ensures Sorting.Equivalent(Outranks, a, b) <==> a.isLab == b.isLab && a.weeklyHours == b.weeklyHours
  {
  }

  // ---------------------------------------------------------------------
  // Choices made for one subject

  predicate Qualifies(f: Faculty, subjectId: string) {
    subjectId in f.subjectIds
  }

  /** A lab subject needs a lab room and a non-lab subject a non-lab room. */
  predicate Suits(c: Classroom, isLab: bool) {
    c.isLab == isLab
  }

  /** Index of the first faculty member linked to the subject. */
  function AssignedFaculty(faculty: seq<Faculty>, subjectId: string): Option<nat> {
    First(faculty, f => Qualifies(f, subjectId))
  }

  /** Index of the first classroom of the subject's kind, busy or not. */
  function SuitableRoom(rooms: seq<Classroom>, isLab: bool): Option<nat> {
    First(rooms, c => Suits(c, isLab))
  }

  /** Whether any classroom at all, of any kind, is booked in the cell
      (`classrooms.some(...)`). */
  predicate AnyRoomBusy(rooms: seq<Classroom>, busy: set<Booking>, day: int, t: int) {
    |rooms| > 0 && ((rooms[0].id, day, t) in busy || AnyRoomBusy(rooms[1..], busy, day, t))
  }

  lemma {:induction false} AnyRoomBusyMeaning(rooms: seq<Classroom>, busy: set<Booking>, day: int, t: int)
    ensures AnyRoomBusy(rooms, busy, day, t) <==> exists i :: 0 <= i < |rooms| && (rooms[i].id, day, t) in busy
  {
    if |rooms| > 0 {
      AnyRoomBusyMeaning(rooms[1..], busy, day, t);
      if (exists i :: 0 <= i < |rooms| && (rooms[i].id, day, t) in busy) && (rooms[0].id, day, t) !in busy {
        var i :| 0 <= i < |rooms| && (rooms[i].id, day, t) in busy;
        assert rooms[1..][i - 1] == rooms[i];
      }
      if AnyRoomBusy(rooms[1..], busy, day, t) {
        var i :| 0 <= i < |rooms[1..]| && (rooms[1..][i].id, day, t) in busy;
        assert rooms[i + 1] == rooms[1..][i];
      }
    }
  }

  /** Number of slots the subject asks for (its weekly hours, which the
      model keeps whole). */
  function Required(s: Subject): nat {
    if s.weeklyHours > 0 then s.weeklyHours else 0
  }

  // ---------------------------------------------------------------------
  // The greedy walk

  /** Records a session of `s` in cell `k` and books faculty and room. */
  function Book(run: Run, s: Subject, f: Faculty, c: Classroom, k: nat): Run
    requires k < CellCount
  {
    var day, t := CellDay(k), CellSlot(k);
    Run(
      Calendars(run.busy.faculty + {(f.id, day, t)}, run.busy.rooms + {(c.id, day, t)}),
      run.out + [Session(s.id, f.id, c.id, day, Slots[t].start, Slots[t].end, ClassTypeFor(s.isLab))])
  }

  /** Whether the walk takes cell `k`: the faculty member is free there and
      no classroom at all is booked there. */
  predicate Takes(f: Faculty, rooms: seq<Classroom>, run: Run, k: nat)
    requires k < CellCount
  {
    && (f.id, CellDay(k), CellSlot(k)) !in run.busy.faculty
    && !AnyRoomBusy(rooms, run.busy.rooms, CellDay(k), CellSlot(k))
  }

  /** The day/slot walk for subject `s` taught by `f` in room `c`, from cell
      `k` on, with `placed` slots already given. Room `c` is the first one of
      the subject's kind; its own calendar is not consulted. */
  function PlaceSubject(s: Subject, f: Faculty, c: Classroom, rooms: seq<Classroom>, run: Run, k: nat, placed: int): Run
    requires k <= CellCount
    decreases CellCount - k
  {
    if k == CellCount || placed >= s.weeklyHours then run
    else if Takes(f, rooms, run, k) then PlaceSubject(s, f, c, rooms, Book(run, s, f, c, k), k + 1, placed + 1)
    else PlaceSubject(s, f, c, rooms, run, k + 1, placed)
  }

  /** One pass over the subjects in order; a subject nobody teaches is
      skipped. The calendars persist from one subject to the next. */
  function GenerateFrom(subjects: seq<Subject>, faculty: seq<Faculty>, rooms: seq<Classroom>, run: Run): Run
    decreases |subjects|
  {
    if |subjects| == 0 then run
    else
      GenerateFrom(subjects[1..], faculty, rooms, Schedule(subjects[0], faculty, rooms, run))
  }

  /** The classes of one subject: nothing when no faculty member is linked
      to it, otherwise the walk with its first linked faculty member. The
      room search does not depend on the cell, so it is made once; without a
      room of the subject's kind no cell is ever taken. */
  function Schedule(s: Subject, faculty: seq<Faculty>, rooms: seq<Classroom>, run: Run): Run {
    match AssignedFaculty(faculty, s.id)
    case None => run
    case Some(fi) =>
      match SuitableRoom(rooms, s.isLab)
      case None => run
      case Some(ci) => PlaceSubject(s, faculty[fi], rooms[ci], rooms, run, 0, 0)
  }

  function Generate(faculty: seq<Faculty>, subjects: seq<Subject>, rooms: seq<Classroom>): seq<Session> {
    GenerateFrom(Prioritise(subjects), faculty, rooms, EmptyRun).out
  }

  // ---------------------------------------------------------------------
  // One session per cell

  function Cell(x: Session): int {
    CellOf(x.day, x.start)
  }

  ghost predicate OneSessionPerCell(out: seq<Session>) {
    forall i, j :: 0 <= i < j < |out| ==> Cell(out[i]) != Cell(out[j])
  }

  ghost predicate Listed(rooms: seq<Classroom>, id: string) {
    exists j :: 0 <= j < |rooms| && rooms[j].id == id
  }

  /** Each session produced so far sits on the grid, is booked in both
      calendars, uses a listed classroom, and no two share a cell. */
  ghost predicate Consistent(rooms: seq<Classroom>, run: Run) {
    && (forall i :: 0 <= i < |run.out| ==>
          var x := run.out[i];
          && OnGrid(x.day, x.start, x.end)
          && (x.classroomId, x.day, SlotIndex(x.start)) in run.busy.rooms
          && (x.facultyId, x.day, SlotIndex(x.start)) in run.busy.faculty
          && Listed(rooms, x.classroomId))
    && OneSessionPerCell(run.out)
  }

  lemma {:induction false} BookConsistent(s: Subject, f: Faculty, rooms: seq<Classroom>, ci: nat, run: Run, k: nat)
    requires k < CellCount && ci < |rooms|
    requires Consistent(rooms, run)
    requires !AnyRoomBusy(rooms, run.busy.rooms, CellDay(k), CellSlot(k))
    ensures Consistent(rooms, Book(run, s, f, rooms[ci], k))
  {
    var r := Book(run, s, f, rooms[ci], k);
    var x := r.out[|run.out|];
    AnyRoomBusyMeaning(rooms, run.busy.rooms, CellDay(k), CellSlot(k));
    CellRoundTrip(k);
    SlotIndexOfSlot(CellSlot(k));
    assert Listed(rooms, x.classroomId);
    forall i | 0 <= i < |run.out|
      ensures Cell(run.out[i]) != Cell(x)
    {
      var y := run.out[i];
      if Cell(y) == k {
        OnGridCell(y.day, y.start, y.end);
        assert false;
      }
    }
    forall i | 0 <= i < |r.out|
      ensures Listed(rooms, r.out[i].classroomId)
    {
      if i < |run.out| {
        assert r.out[i] == run.out[i];
      }
    }
  }

  lemma {:induction false} PlaceSubjectConsistent(s: Subject, f: Faculty, ci: nat, rooms: seq<Classroom>, run: Run, k: nat, placed: int)
    requires k <= CellCount && ci < |rooms|
    requires Consistent(rooms, run)
    ensures Consistent(rooms, PlaceSubject(s, f, rooms[ci], rooms, run, k, placed))
    decreases CellCount - k
  {
    if k == CellCount || placed >= s.weeklyHours {
    } else if Takes(f, rooms, run, k) {
      BookConsistent(s, f, rooms, ci, run, k);
      PlaceSubjectConsistent(s, f, ci, rooms, Book(run, s, f, rooms[ci], k), k + 1, placed + 1);
    } else {
      PlaceSubjectConsistent(s, f, ci, rooms, run, k + 1, placed);
    }
  }

  lemma {:induction false} GenerateFromConsistent(subjects: seq<Subject>, faculty: seq<Faculty>, rooms: seq<Classroom>, run: Run)
    requires Consistent(rooms, run)
    ensures Consistent(rooms, GenerateFrom(subjects, faculty, rooms, run))
    decreases |subjects|
  {
    if |subjects| > 0 {
      var s := subjects[0];
      if AssignedFaculty(faculty, s.id).Some? && SuitableRoom(rooms, s.isLab).Some? {
        PlaceSubjectConsistent(s, faculty[AssignedFaculty(faculty, s.id).value], SuitableRoom(rooms, s.isLab).value, rooms, run, 0, 0);
      }
      GenerateFromConsistent(subjects[1..], faculty, rooms, Schedule(s, faculty, rooms, run));
    }
  }

  /** The cells occupied by `out`. */
  function Cells(out: seq<Session>): set<int> {
    if |out| == 0 then {} else Cells(out[..|out| - 1]) + {Cell(out[|out| - 1])}
  }

  /** The cells 0 .. n-1 of the walk. */
  function Walk(n: nat): (r: set<int>)
    ensures |r| == n
    ensures forall k :: k in r <==> 0 <= k < n
  {
    if n == 0 then {} else Walk(n - 1) + {n - 1}
  }

  lemma {:induction false} CellsCount(out: seq<Session>, n: nat)
    requires OneSessionPerCell(out)
    requires forall i :: 0 <= i < |out| ==> 0 <= Cell(out[i]) < n
    ensures |Cells(out)| == |out|
    ensures Cells(out) <= Walk(n)
  {
    if |out| > 0 {
      var init := out[..|out| - 1];
      assert forall i :: 0 <= i < |init| ==> init[i] == out[i];
      CellsCount(init, n);
      if Cell(out[|out| - 1]) in Cells(init) {
        CellsMember(init, Cell(out[|out| - 1]));
        assert false;
      }
    }
  }

  lemma {:induction false} CellsMember(out: seq<Session>, k: int)
    requires k in Cells(out)
    ensures exists i :: 0 <= i < |out| && Cell(out[i]) == k
  {
    var init := out[..|out| - 1];
    if k in Cells(init) {
      CellsMember(init, k);
      var i :| 0 <= i < |init| && Cell(init[i]) == k;
      assert out[i] == init[i];
    }
  }

  /** Two sessions on one day in different cells do not overlap. */
  lemma SameDayApart(a: Session, b: Session)
    requires OnGrid(a.day, a.start, a.end) && OnGrid(b.day, b.start, b.end)
    requires a.day == b.day && Cell(a) != Cell(b)
    ensures a.start != b.start
    ensures !Overlap(a.start, a.end, b.start, b.end)
  {
    OnGridCell(a.day, a.start, a.end);
    OnGridCell(b.day, b.start, b.end);
    SlotsDisjoint();
  }

  /** No more sessions than cells when each has a cell of its own. */
  lemma CellBound(out: seq<Session>)
    requires forall i :: 0 <= i < |out| ==> OnGrid(out[i].day, out[i].start, out[i].end)
    requires OneSessionPerCell(out)
    ensures |out| <= CellCount
  {
    forall i | 0 <= i < |out|
      ensures 0 <= Cell(out[i]) < CellCount
    {
      OnGridCell(out[i].day, out[i].start, out[i].end);
    }
    PigeonHole(out, CellCount);
  }

  lemma PigeonHole(out: seq<Session>, n: nat)
    requires OneSessionPerCell(out)
    requires forall i :: 0 <= i < |out| ==> 0 <= Cell(out[i]) < n
    ensures |out| <= n
  {
    CellsCount(out, n);
    SubsetSize(Cells(out), Walk(n));
  }

  /** Sessions on distinct grid cells: distinct (day, start), no two
      overlapping on one day, and no more of them than cells. */
  lemma DistinctCells(out: seq<Session>)
    requires forall i :: 0 <= i < |out| ==> OnGrid(out[i].day, out[i].start, out[i].end)
    requires OneSessionPerCell(out)
    ensures forall i, j :: 0 <= i < j < |out| ==> (out[i].day, out[i].start) != (out[j].day, out[j].start)
    ensures forall i, j :: 0 <= i < |out| && 0 <= j < |out| && i != j && out[i].day == out[j].day ==>
      !Overlap(out[i].start, out[i].end, out[j].start, out[j].end)
    ensures |out| <= CellCount
  {
    CellBound(out);
    forall i, j | 0 <= i < |out| && 0 <= j < |out| && i != j && out[i].day == out[j].day
      ensures out[i].start != out[j].start
      ensures !Overlap(out[i].start, out[i].end, out[j].start, out[j].end)
    {
      if i < j {
        SameDayApart(out[i], out[j]);
      } else {
        SameDayApart(out[j], out[i]);
        SameDayApart(out[i], out[j]);
      }
    }
  }

  /** At most one class is generated per (day, slot) cell, because a booked
      classroom of any kind blocks the cell. So no faculty member or room is
      double-booked, every class sits on the canonical grid, and a week holds
      at most 35 classes. */
  lemma GenerateOneSessionPerCell(faculty: seq<Faculty>, subjects: seq<Subject>, rooms: seq<Classroom>)
    ensures var out := Generate(faculty, subjects, rooms);
      && (forall i :: 0 <= i < |out| ==> OnGrid(out[i].day, out[i].start, out[i].end))
      && (forall i, j :: 0 <= i < j < |out| ==> (out[i].day, out[i].start) != (out[j].day, out[j].start))
      && (forall i, j :: 0 <= i < |out| && 0 <= j < |out| && i != j && out[i].day == out[j].day ==>
            !Overlap(out[i].start, out[i].end, out[j].start, out[j].end))
      && |out| <= CellCount
  {
    GenerateFromConsistent(Prioritise(subjects), faculty, rooms, EmptyRun);
    DistinctCells(Generate(faculty, subjects, rooms));
  }

  // ---------------------------------------------------------------------
  // What each session is made of

  /** `x` is a class of subject `s` as the generator makes one: the first
      faculty member linked to the subject, the first room of the subject's
      kind, LAB exactly for lab subjects, on the canonical grid. */
  ghost predicate FromSubject(x: Session, s: Subject, faculty: seq<Faculty>, rooms: seq<Classroom>) {
    && x.subjectId == s.id
    && x.classType == ClassTypeFor(s.isLab)
    && AssignedFaculty(faculty, s.id).Some?
    && x.facultyId == faculty[AssignedFaculty(faculty, s.id).value].id
    && SuitableRoom(rooms, s.isLab).Some?
    && x.classroomId == rooms[SuitableRoom(rooms, s.isLab).value].id
    && OnGrid(x.day, x.start, x.end)
  }

  /** `x` is a class of `s` taught by `f` in room `c`, on the grid. */
  predicate MadeBy(x: Session, s: Subject, f: Faculty, c: Classroom) {
    && x.subjectId == s.id
    && x.classType == ClassTypeFor(s.isLab)
    && x.facultyId == f.id
    && x.classroomId == c.id
    && OnGrid(x.day, x.start, x.end)
  }

  /** Slots `s` still asks for after `placed` have been given. */
  function RoomLeft(s: Subject, placed: int): int {
    if s.weeklyHours > placed then s.weeklyHours - placed else 0
  }

  /** `r` extends `run` by classes of `s` taught by `f` in `c` only, in
      strictly increasing cells from `k` on, at most `room` of them; the
      classes of `run` are kept as they were. */
  ghost predicate Extends(run: Run, r: Run, s: Subject, f: Faculty, c: Classroom, k: nat, room: int) {
    && |run.out| <= |r.out|
    && (forall i :: 0 <= i < |run.out| ==> r.out[i] == run.out[i])
    && (forall i :: |run.out| <= i < |r.out| ==> MadeBy(r.out[i], s, f, c) && k <= Cell(r.out[i]))
    && (forall i, j :: |run.out| <= i < j < |r.out| ==> Cell(r.out[i]) < Cell(r.out[j]))
    && |r.out| - |run.out| <= room
  }

  /** Putting one class in cell `k` in front of an extension from cell
      `k + 1` on gives an extension from cell `k` on. */
  lemma ExtendsByOne(run: Run, booked: Run, r: Run, x: Session, s: Subject, f: Faculty, c: Classroom, k: nat, placed: int)
    requires placed < s.weeklyHours
    requires booked.out == run.out + [x]
    requires MadeBy(x, s, f, c) && Cell(x) == k
    requires Extends(booked, r, s, f, c, k + 1, RoomLeft(s, placed + 1))
    ensures Extends(run, r, s, f, c, k, RoomLeft(s, placed))
  {
    assert r.out[|run.out|] == booked.out[|run.out|] == x;
  }

  /** An extension from cell `k + 1` on is one from cell `k` on. */
  lemma ExtendsFromEarlier(run: Run, r: Run, s: Subject, f: Faculty, c: Classroom, k: nat, room: int)
    requires Extends(run, r, s, f, c, k + 1, room)
    ensures Extends(run, r, s, f, c, k, room)
  {
  }

  /** The class booked in cell `k` is a class of `s` by `f` in `c`, in that
      cell. */
  lemma BookMadeBy(s: Subject, f: Faculty, c: Classroom, run: Run, k: nat)
    requires k < CellCount
    ensures var booked := Book(run, s, f, c, k);
      && booked.out == run.out + [booked.out[|run.out|]]
      && MadeBy(booked.out[|run.out|], s, f, c)
      && Cell(booked.out[|run.out|]) == k
  {
    CellRoundTrip(k);
  }

  /** The sessions one call of the walk appends: all of subject `s`, taught
      by `f` in `c`, in strictly increasing cells from `k` on, no more than
      the slots still missing; the earlier sessions are kept as they were. */
  lemma {:induction false} PlaceSubjectBlock(s: Subject, f: Faculty, c: Classroom, rooms: seq<Classroom>, run: Run, k: nat, placed: int)
    requires k <= CellCount
    ensures Extends(run, PlaceSubject(s, f, c, rooms, run, k, placed), s, f, c, k, RoomLeft(s, placed))
    decreases CellCount - k
  {
    if k == CellCount || placed >= s.weeklyHours {
    } else if Takes(f, rooms, run, k) {
      var booked := Book(run, s, f, c, k);
      BookMadeBy(s, f, c, run, k);
      PlaceSubjectBlock(s, f, c, rooms, booked, k + 1, placed + 1);
      ExtendsByOne(run, booked, PlaceSubject(s, f, c, rooms, booked, k + 1, placed + 1), booked.out[|run.out|], s, f, c, k, placed);
    } else {
      PlaceSubjectBlock(s, f, c, rooms, run, k + 1, placed);
      ExtendsFromEarlier(run, PlaceSubject(s, f, c, rooms, run, k + 1, placed), s, f, c, k, RoomLeft(s, placed));
    }
  }

  // ---------------------------------------------------------------------
  // Which cells the walk takes

  /** For each cell of the walk, whether `f` and every classroom are free
      there in the calendars of `run`. */
  function FreeMap(f: Faculty, rooms: seq<Classroom>, run: Run): (m: seq<bool>)
    ensures |m| == CellCount
  {
    seq(CellCount, k requires 0 <= k < CellCount => Takes(f, rooms, run, k))
  }

  /** The first `left` cells from `k` on that `free` marks as free. */
  function Picks(free: seq<bool>, k: nat, left: nat): seq<nat>
    requires k <= |free|
    decreases |free| - k
  {
    if k == |free| || left == 0 then []
    else if free[k] then [k] + Picks(free, k + 1, left - 1)
    else Picks(free, k + 1, left)
  }

  /** The picks are free cells from `k` on, in increasing order, at most
      `left` of them. */
  lemma {:induction false} PicksFree(free: seq<bool>, k: nat, left: nat)
    requires k <= |free|
    ensures var p := Picks(free, k, left);
      && |p| <= left
      && (forall i :: 0 <= i < |p| ==> k <= p[i] < |free| && free[p[i]])
      && (forall i, j :: 0 <= i < j < |p| ==> p[i] < p[j])
    decreases |free| - k
  {
    if k < |free| && left > 0 {
      var p := Picks(free, k, left);
      if free[k] {
        var q := Picks(free, k + 1, left - 1);
        PicksFree(free, k + 1, left - 1);
        assert p == [k] + q;
        forall i | 1 <= i < |p|
          ensures p[i] == q[i - 1]
        {
        }
      } else {
        PicksFree(free, k + 1, left);
      }
    }
  }

  /** A free cell from `k` on is passed over only when `left` cells before
      it were picked: the picks are the first free cells, up to `left`. */
  lemma {:induction false} PicksFirst(free: seq<bool>, k: nat, left: nat, k2: nat)
    requires k <= k2 < |free| && free[k2]
    ensures var p := Picks(free, k, left);
      k2 !in p ==> |p| == left && forall i :: 0 <= i < |p| ==> p[i] < k2
    decreases |free| - k
  {
    if left > 0 && k != k2 {
      var p := Picks(free, k, left);
      if free[k] {
        var q := Picks(free, k + 1, left - 1);
        PicksFirst(free, k + 1, left - 1, k2);
        assert p == [k] + q;
        if k2 !in p {
          forall i | 1 <= i < |p|
            ensures p[i] < k2
          {
            assert p[i] == q[i - 1];
          }
        }
      } else {
        PicksFirst(free, k + 1, left, k2);
      }
    }
  }

  /** Picks depend only on the cells from `k` on. */
  lemma {:induction false} PicksFrame(free: seq<bool>, free2: seq<bool>, k: nat, left: nat)
    requires k <= |free| == |free2|
    requires forall j :: k <= j < |free| ==> free[j] == free2[j]
    ensures Picks(free, k, left) == Picks(free2, k, left)
    decreases |free| - k
  {
    if k < |free| && left > 0 {
      PicksFrame(free, free2, k + 1, left - 1);
      PicksFrame(free, free2, k + 1, left);
    }
  }

  /** Booking cell `k` leaves every later cell exactly as free as it was. */
  lemma BookElsewhere(s: Subject, f: Faculty, c: Classroom, rooms: seq<Classroom>, run: Run, k: nat)
    requires k < CellCount
    ensures forall k2 :: k < k2 < CellCount ==>
      (Takes(f, rooms, Book(run, s, f, c, k), k2) <==> Takes(f, rooms, run, k2))
  {
    var booked := Book(run, s, f, c, k);
    forall k2 | k < k2 < CellCount
      ensures Takes(f, rooms, booked, k2) <==> Takes(f, rooms, run, k2)
    {
      CellsApart(k, k2);
      AnyRoomBusyMeaning(rooms, run.busy.rooms, CellDay(k2), CellSlot(k2));
      AnyRoomBusyMeaning(rooms, booked.busy.rooms, CellDay(k2), CellSlot(k2));
    }
  }

  /** Taking free cell `k` leaves the picks after it as they were. */
  lemma PicksAfterBook(s: Subject, f: Faculty, c: Classroom, rooms: seq<Classroom>, run: Run, k: nat, left: nat)
    requires k < CellCount && left > 0 && Takes(f, rooms, run, k)
    ensures Picks(FreeMap(f, rooms, run), k, left)
      == [k] + Picks(FreeMap(f, rooms, Book(run, s, f, c, k)), k + 1, left - 1)
  {
    var m, m2 := FreeMap(f, rooms, run), FreeMap(f, rooms, Book(run, s, f, c, k));
    BookElsewhere(s, f, c, rooms, run, k);
    assert forall j :: k + 1 <= j < CellCount ==> m[j] == m2[j];
    PicksFrame(m, m2, k + 1, left - 1);
  }

  /** The cells a list of classes occupies, in order. */
  function CellsOf(out: seq<Session>): (r: seq<int>)
    ensures |r| == |out|
  {
    seq(|out|, i requires 0 <= i < |out| => Cell(out[i]))
  }

  /** A class in cell `k` followed by classes in the cells `q` occupies
      the cells `[k] + q`. */
  lemma CellsOfStep(out: seq<Session>, n: nat, k: int, q: seq<int>)
    requires n < |out| && Cell(out[n]) == k && CellsOf(out[n + 1..]) == q
    ensures CellsOf(out[n..]) == [k] + q
  {
    assert out[n..] == [out[n]] + out[n + 1..];
  }

  /** A cell that is not free is passed over by both the walk and the
      picks. */
  lemma PlaceSubjectSkips(s: Subject, f: Faculty, c: Classroom, rooms: seq<Classroom>, run: Run, k: nat, placed: int)
    requires k < CellCount && placed < s.weeklyHours && !Takes(f, rooms, run, k)
    ensures PlaceSubject(s, f, c, rooms, run, k, placed) == PlaceSubject(s, f, c, rooms, run, k + 1, placed)
    ensures Picks(FreeMap(f, rooms, run), k, RoomLeft(s, placed)) == Picks(FreeMap(f, rooms, run), k + 1, RoomLeft(s, placed))
  {
  }

  /** A free cell is booked by the walk, as the first class it adds, and
      is the first of the picks. */
  lemma PlaceSubjectTakes(s: Subject, f: Faculty, c: Classroom, rooms: seq<Classroom>, run: Run, k: nat, placed: int)
    requires k < CellCount && placed < s.weeklyHours && Takes(f, rooms, run, k)
    ensures var booked := Book(run, s, f, c, k);
      var r := PlaceSubject(s, f, c, rooms, booked, k + 1, placed + 1);
      && PlaceSubject(s, f, c, rooms, run, k, placed) == r
      && |booked.out| == |run.out| + 1 && |run.out| < |r.out| && Cell(r.out[|run.out|]) == k
      && Picks(FreeMap(f, rooms, run), k, RoomLeft(s, placed)) == [k] + Picks(FreeMap(f, rooms, booked), k + 1, RoomLeft(s, placed + 1))
  {
    var booked := Book(run, s, f, c, k);
    var r := PlaceSubject(s, f, c, rooms, booked, k + 1, placed + 1);
    assert |booked.out| == |run.out| + 1 && |run.out| < |r.out| && Cell(r.out[|run.out|]) == k by {
      BookMadeBy(s, f, c, run, k);
      PlaceSubjectBlock(s, f, c, rooms, booked, k + 1, placed + 1);
      assert r.out[|run.out|] == booked.out[|run.out|];
    }
    PicksAfterBook(s, f, c, rooms, run, k, RoomLeft(s, placed));
  }

  /** The walk takes exactly the picks made in the calendars it starts
      from, up to the slots still missing. */
  lemma {:induction false} PlaceSubjectPicks(s: Subject, f: Faculty, c: Classroom, rooms: seq<Classroom>, run: Run, k: nat, placed: int)
    requires k <= CellCount
    ensures var r := PlaceSubject(s, f, c, rooms, run, k, placed);
      |run.out| <= |r.out| && CellsOf(r.out[|run.out|..]) == Picks(FreeMap(f, rooms, run), k, RoomLeft(s, placed))
    decreases CellCount - k
  {
    if k == CellCount || placed >= s.weeklyHours {
      assert run.out[|run.out|..] == [];
    } else if Takes(f, rooms, run, k) {
      var booked := Book(run, s, f, c, k);
      var r := PlaceSubject(s, f, c, rooms, booked, k + 1, placed + 1);
      PlaceSubjectTakes(s, f, c, rooms, run, k, placed);
      PlaceSubjectPicks(s, f, c, rooms, booked, k + 1, placed + 1);
      CellsOfStep(r.out, |run.out|, k, CellsOf(r.out[|booked.out|..]));
    } else {
      PlaceSubjectSkips(s, f, c, rooms, run, k, placed);
      PlaceSubjectPicks(s, f, c, rooms, run, k + 1, placed);
    }
  }

  /** For a subject with a faculty member and a room of its kind, the
      classes added sit in the cells picked in the calendars the subject
      starts from. */
  lemma ScheduleCells(s: Subject, faculty: seq<Faculty>, rooms: seq<Classroom>, run: Run)
    requires AssignedFaculty(faculty, s.id).Some? && SuitableRoom(rooms, s.isLab).Some?
    ensures var r := Schedule(s, faculty, rooms, run);
      var f := faculty[AssignedFaculty(faculty, s.id).value];
      |run.out| <= |r.out| && CellsOf(r.out[|run.out|..]) == Picks(FreeMap(f, rooms, run), 0, Required(s))
  {
    var f, c := faculty[AssignedFaculty(faculty, s.id).value], rooms[SuitableRoom(rooms, s.isLab).value];
    PlaceSubjectPicks(s, f, c, rooms, run, 0, 0);
  }

  /** Every class added is in a cell where the faculty member and every
      classroom were free, and no more are added than the subject's hours. */
  lemma ScheduleTakesFreeCells(s: Subject, faculty: seq<Faculty>, rooms: seq<Classroom>, run: Run)
    requires AssignedFaculty(faculty, s.id).Some? && SuitableRoom(rooms, s.isLab).Some?
    ensures var r := Schedule(s, faculty, rooms, run);
      var f := faculty[AssignedFaculty(faculty, s.id).value];
      && |run.out| <= |r.out|
      && var added := r.out[|run.out|..];
      && |added| <= Required(s)
      && (forall i :: 0 <= i < |added| ==> 0 <= Cell(added[i]) < CellCount && Takes(f, rooms, run, Cell(added[i])))
  {
    var f := faculty[AssignedFaculty(faculty, s.id).value];
    var r := Schedule(s, faculty, rooms, run);
    var m := FreeMap(f, rooms, run);
    var p := Picks(m, 0, Required(s));
    ScheduleCells(s, faculty, rooms, run);
    PicksFree(m, 0, Required(s));
    var added := r.out[|run.out|..];
    forall i | 0 <= i < |added|
      ensures 0 <= Cell(added[i]) < CellCount && Takes(f, rooms, run, Cell(added[i]))
    {
      assert CellsOf(added)[i] == p[i];
    }
  }

  /** A free cell is left untaken only when all the subject's hours are
      placed, and then only after every class added: the walk books the
      first free cells, up to the quota. */
  lemma ScheduleFirstFreeCells(s: Subject, faculty: seq<Faculty>, rooms: seq<Classroom>, run: Run)
    requires AssignedFaculty(faculty, s.id).Some? && SuitableRoom(rooms, s.isLab).Some?
    ensures var r := Schedule(s, faculty, rooms, run);
      var f := faculty[AssignedFaculty(faculty, s.id).value];
      && |run.out| <= |r.out|
      && var added := r.out[|run.out|..];
      && (forall k :: 0 <= k < CellCount && Takes(f, rooms, run, k) && (forall i :: 0 <= i < |added| ==> Cell(added[i]) != k) ==>
            |added| == Required(s) && forall i :: 0 <= i < |added| ==> Cell(added[i]) < k)
  {
    var f := faculty[AssignedFaculty(faculty, s.id).value];
    var r := Schedule(s, faculty, rooms, run);
    var m := FreeMap(f, rooms, run);
    var p := Picks(m, 0, Required(s));
    ScheduleCells(s, faculty, rooms, run);
    var added := r.out[|run.out|..];
    forall k | 0 <= k < CellCount && Takes(f, rooms, run, k) && (forall i :: 0 <= i < |added| ==> Cell(added[i]) != k)
      ensures |added| == Required(s) && forall i :: 0 <= i < |added| ==> Cell(added[i]) < k
    {
      forall i | 0 <= i < |p|
        ensures p[i] != k
      {
        assert CellsOf(added)[i] == p[i];
      }
      PicksFirst(m, 0, Required(s), k);
      forall i | 0 <= i < |added|
        ensures Cell(added[i]) < k
      {
        assert CellsOf(added)[i] == p[i];
      }
    }
  }

  /** `x` is a class of one of the subjects in `all`. */
  ghost predicate Sound(x: Session, all: seq<Subject>, faculty: seq<Faculty>, rooms: seq<Classroom>) {
    exists s :: s in all && FromSubject(x, s, faculty, rooms)
  }

  /** The block of one subject, whether or not someone teaches it. */
  lemma ScheduleBlock(s: Subject, faculty: seq<Faculty>, rooms: seq<Classroom>, run: Run)
    ensures var r := Schedule(s, faculty, rooms, run);
      && |run.out| <= |r.out|
      && r.out[..|run.out|] == run.out
      && (forall i :: |run.out| <= i < |r.out| ==> FromSubject(r.out[i], s, faculty, rooms))
      && (forall i, j :: |run.out| <= i < j < |r.out| ==> Cell(r.out[i]) < Cell(r.out[j]))
      && |r.out| - |run.out| <= Required(s)
  {
    var r := Schedule(s, faculty, rooms, run);
    if AssignedFaculty(faculty, s.id).Some? && SuitableRoom(rooms, s.isLab).Some? {
      var f, c := faculty[AssignedFaculty(faculty, s.id).value], rooms[SuitableRoom(rooms, s.isLab).value];
      PlaceSubjectBlock(s, f, c, rooms, run, 0, 0);
      assert r.out[..|run.out|] == run.out;
      forall i | |run.out| <= i < |r.out|
        ensures FromSubject(r.out[i], s, faculty, rooms)
      {
        assert MadeBy(r.out[i], s, f, c);
      }
    }
  }

  /** Every class generated comes from one of the subjects handed in, with
      that subject's first linked faculty member and the first room of its
      kind. */
  lemma {:induction false} GenerateFromSound(subjects: seq<Subject>, all: seq<Subject>, faculty: seq<Faculty>, rooms: seq<Classroom>, run: Run)
    requires forall s :: s in subjects ==> s in all
    requires forall x :: x in run.out ==> Sound(x, all, faculty, rooms)
    ensures forall x :: x in GenerateFrom(subjects, faculty, rooms, run).out ==> Sound(x, all, faculty, rooms)
    decreases |subjects|
  {
    if |subjects| > 0 {
      var s := subjects[0];
      assert s in all;
      var next := Schedule(s, faculty, rooms, run);
      ScheduleBlock(s, faculty, rooms, run);
      forall x | x in next.out
        ensures Sound(x, all, faculty, rooms)
      {
        var i :| 0 <= i < |next.out| && next.out[i] == x;
        if i < |run.out| {
          assert x == next.out[..|run.out|][i];
          assert x in run.out;
        } else {
          assert FromSubject(x, s, faculty, rooms);
        }
      }
      GenerateFromSound(subjects[1..], all, faculty, rooms, next);
    }
  }

  lemma GenerateSound(faculty: seq<Faculty>, subjects: seq<Subject>, rooms: seq<Classroom>)
    ensures forall x :: x in Generate(faculty, subjects, rooms) ==> Sound(x, subjects, faculty, rooms)
  {
    var sorted := Prioritise(subjects);
    forall s | s in sorted
      ensures s in subjects
    {
      assert s in multiset(sorted);
    }
    GenerateFromSound(sorted, subjects, faculty, rooms, EmptyRun);
  }

  /** Each class's faculty member is linked to its subject, and its room is
      a lab exactly when the class is a LAB. */
  lemma GenerateQualifiedAndTyped(faculty: seq<Faculty>, subjects: seq<Subject>, rooms: seq<Classroom>)
    ensures forall x :: x in Generate(faculty, subjects, rooms) ==>
      && (exists f :: f in faculty && f.id == x.facultyId && x.subjectId in f.subjectIds)
      && (exists c :: c in rooms && c.id == x.classroomId && (c.isLab <==> x.classType == Lab))
  {
    var out := Generate(faculty, subjects, rooms);
    GenerateSound(faculty, subjects, rooms);
    forall x | x in out
      ensures exists f :: f in faculty && f.id == x.facultyId && x.subjectId in f.subjectIds
      ensures exists c :: c in rooms && c.id == x.classroomId && (c.isLab <==> x.classType == Lab)
    {
      assert Sound(x, subjects, faculty, rooms);
      var s :| s in subjects && FromSubject(x, s, faculty, rooms);
      var fi := AssignedFaculty(faculty, s.id).value;
      var ci := SuitableRoom(rooms, s.isLab).value;
      assert faculty[fi] in faculty && Qualifies(faculty[fi], s.id);
      assert rooms[ci] in rooms && Suits(rooms[ci], s.isLab);
    }
  }

  /** A subject no faculty member is linked to gets no classes (and raises
      no error). */
  lemma GenerateSkipsUnstaffed(faculty: seq<Faculty>, subjects: seq<Subject>, rooms: seq<Classroom>, subjectId: string)
    requires forall f :: f in faculty ==> subjectId !in f.subjectIds
    ensures forall x :: x in Generate(faculty, subjects, rooms) ==> x.subjectId != subjectId
  {
    GenerateSound(faculty, subjects, rooms);
    var out := Generate(faculty, subjects, rooms);
    forall x | x in out
      ensures x.subjectId != subjectId
    {
      assert Sound(x, subjects, faculty, rooms);
      var s :| s in subjects && FromSubject(x, s, faculty, rooms);
      var fi := AssignedFaculty(faculty, s.id).value;
      assert faculty[fi] in faculty;
    }
  }

  /** Without a classroom of the right kind no class of that kind is
      generated (and no error is raised): no lab room, no LAB classes. */
  lemma GenerateSkipsRoomless(faculty: seq<Faculty>, subjects: seq<Subject>, rooms: seq<Classroom>, isLab: bool)
    requires forall c :: c in rooms ==> c.isLab != isLab
    ensures forall x :: x in Generate(faculty, subjects, rooms) ==> x.classType != ClassTypeFor(isLab)
  {
    GenerateSound(faculty, subjects, rooms);
    var out := Generate(faculty, subjects, rooms);
    forall x | x in out
      ensures x.classType != ClassTypeFor(isLab)
    {
      assert Sound(x, subjects, faculty, rooms);
      var s :| s in subjects && FromSubject(x, s, faculty, rooms);
      var ci := SuitableRoom(rooms, s.isLab).value;
      assert rooms[ci] in rooms;
    }
  }

  // ---------------------------------------------------------------------
  // How many classes a subject gets

  /** Number of sessions of subject `id`. */
  function CountOf(out: seq<Session>, id: string): nat {
    if |out| == 0 then 0
    else CountOf(out[..|out| - 1], id) + (if out[|out| - 1].subjectId == id then 1 else 0)
  }

  /** Slots asked for by the subjects carrying id `id`. */
  function Demand(subjects: seq<Subject>, id: string): int {
    Sorting.SumOf(subjects, (s: Subject) => if s.id == id then Required(s) else 0)
  }

  lemma {:induction false} CountOfBlock(out: seq<Session>, n: nat, id: string, sid: string)
    requires n <= |out|
    requires forall i :: n <= i < |out| ==> out[i].subjectId == sid
    ensures CountOf(out, id) == CountOf(out[..n], id) + (if id == sid then |out| - n else 0)
  {
    if |out| > n {
      var init := out[..|out| - 1];
      assert init[..n] == out[..n];
      CountOfBlock(init, n, id, sid);
    } else {
      assert out[..n] == out;
    }
  }

  lemma {:induction false} GenerateFromDemand(subjects: seq<Subject>, faculty: seq<Faculty>, rooms: seq<Classroom>, run: Run, id: string)
    ensures CountOf(GenerateFrom(subjects, faculty, rooms, run).out, id) <= CountOf(run.out, id) + Demand(subjects, id)
    decreases |subjects|
  {
    if |subjects| > 0 {
      var s := subjects[0];
      var next := Schedule(s, faculty, rooms, run);
      ScheduleBlock(s, faculty, rooms, run);
      forall i | |run.out| <= i < |next.out|
        ensures next.out[i].subjectId == s.id
      {
        assert FromSubject(next.out[i], s, faculty, rooms);
      }
      CountOfBlock(next.out, |run.out|, id, s.id);
      assert CountOf(next.out, id) <= CountOf(run.out, id) + (if s.id == id then Required(s) else 0);
      GenerateFromDemand(subjects[1..], faculty, rooms, next, id);
    }
  }

  /** No subject id gets more classes than its subjects' weekly hours ask
      for: for the usual one subject per id, at most its weekly hours. */
  lemma GenerateHoursBound(faculty: seq<Faculty>, subjects: seq<Subject>, rooms: seq<Classroom>, id: string)
    ensures CountOf(Generate(faculty, subjects, rooms), id) <= Demand(subjects, id)
  {
    GenerateFromDemand(Prioritise(subjects), faculty, rooms, EmptyRun, id);
    Sorting.SortSum(subjects, Outranks, (s: Subject) => if s.id == id then Required(s) else 0);
  }

  // ---------------------------------------------------------------------
  // Output order

  /** Position of the first subject with id `id` (|subjects| if none). */
  function Position(subjects: seq<Subject>, id: string): (p: nat)
    ensures p <= |subjects|
    ensures p < |subjects| ==> subjects[p].id == id
    ensures forall j :: 0 <= j < p ==> subjects[j].id != id
  {
    if |subjects| == 0 then 0
    else if subjects[0].id == id then 0
    else 1 + Position(subjects[1..], id)
  }

  lemma {:induction false} GenerateFromOrder(subjects: seq<Subject>, faculty: seq<Faculty>, rooms: seq<Classroom>, run: Run)
    requires Sorting.DistinctBy(subjects, (s: Subject) => s.id)
    ensures var out := GenerateFrom(subjects, faculty, rooms, run).out;
      && |run.out| <= |out|
      && out[..|run.out|] == run.out
      && (forall i :: |run.out| <= i < |out| ==> Position(subjects, out[i].subjectId) < |subjects|)
      && (forall i, j :: |run.out| <= i < j < |out| ==>
            || Position(subjects, out[i].subjectId) < Position(subjects, out[j].subjectId)
            || (out[i].subjectId == out[j].subjectId && Cell(out[i]) < Cell(out[j])))
    decreases |subjects|
  {
    if |subjects| > 0 {
      var s := subjects[0];
      var rest := subjects[1..];
      assert Sorting.DistinctBy(rest, (s: Subject) => s.id) by {
        forall i, j | 0 <= i < j < |rest|
          ensures rest[i].id != rest[j].id
        {
          assert rest[i] == subjects[i + 1] && rest[j] == subjects[j + 1];
        }
      }
      var next := Schedule(s, faculty, rooms, run);
      GenerateFromOrder(rest, faculty, rooms, next);
      var out := GenerateFrom(subjects, faculty, rooms, run).out;
      assert out == GenerateFrom(rest, faculty, rooms, next).out;
      ScheduleBlock(s, faculty, rooms, run);
      assert out[..|run.out|] == run.out by {
        assert out[..|run.out|] == out[..|next.out|][..|run.out|];
        assert next.out[..|run.out|] == run.out;
      }
      // positions in `rest` are one less than in `subjects`
      forall id | Position(rest, id) < |rest|
        ensures Position(subjects, id) == Position(rest, id) + 1
      {
        assert rest[Position(rest, id)] == subjects[Position(rest, id) + 1];
        assert subjects[0].id != id;
      }
      forall i | |run.out| <= i < |next.out|
        ensures out[i] == next.out[i] && out[i].subjectId == s.id && Position(subjects, out[i].subjectId) == 0
      {
        assert out[i] == out[..|next.out|][i];
        assert FromSubject(next.out[i], s, faculty, rooms);
      }
    }
  }

  /** Classes come out subject by subject in priority order, and within one
      subject in walk order (day ascending, then slot ascending). */
  lemma GenerateOrder(faculty: seq<Faculty>, subjects: seq<Subject>, rooms: seq<Classroom>)
    requires Sorting.DistinctBy(subjects, (s: Subject) => s.id)
    ensures var out, sorted := Generate(faculty, subjects, rooms), Prioritise(subjects);
      forall i, j :: 0 <= i < j < |out| ==>
        || Position(sorted, out[i].subjectId) < Position(sorted, out[j].subjectId)
        || (out[i].subjectId == out[j].subjectId && (out[i].day, out[i].start) != (out[j].day, out[j].start)
            && (out[i].day < out[j].day || (out[i].day == out[j].day && out[i].start < out[j].start)))
  {
    var out := Generate(faculty, subjects, rooms);
    Sorting.SortDistinct(subjects, Outranks, (s: Subject) => s.id);
    GenerateFromOrder(Prioritise(subjects), faculty, rooms, EmptyRun);
    GenerateOneSessionPerCell(faculty, subjects, rooms);
    forall i, j | 0 <= i < j < |out| && out[i].subjectId == out[j].subjectId && Cell(out[i]) < Cell(out[j])
      ensures out[i].day < out[j].day || (out[i].day == out[j].day && out[i].start < out[j].start)
    {
      OnGridCell(out[i].day, out[i].start, out[i].end);
      OnGridCell(out[j].day, out[j].start, out[j].end);
    }
  }

  /** One faculty member, one 2-hour lecture subject, one lecture room:
      Monday 9-10 and Monday 10-11. */
  lemma TwoHourLecture()
    ensures Generate([Faculty("F1", ["S1"])], [Subject("S1", 2, false)], [Classroom("C1", false)])
         == [Session("S1", "F1", "C1", 1, 9, 10, Lecture), Session("S1", "F1", "C1", 1, 10, 11, Lecture)]
  {
    var f, s, c := Faculty("F1", ["S1"]), Subject("S1", 2, false), Classroom("C1", false);
    assert Prioritise([s]) == [s];
    assert AssignedFaculty([f], "S1") == Some(0);
    assert SuitableRoom([c], false) == Some(0);
    var r1 := Book(EmptyRun, s, f, c, 0);
    assert !AnyRoomBusy([c], EmptyRun.busy.rooms, 1, 0);
    assert Takes(f, [c], EmptyRun, 0);
    assert !AnyRoomBusy([c], r1.busy.rooms, 1, 1);
    assert Takes(f, [c], r1, 1);
    var r2 := Book(r1, s, f, c, 1);
    assert PlaceSubject(s, f, c, [c], r2, 2, 2) == r2;
    assert PlaceSubject(s, f, c, [c], r1, 1, 1) == r2;
    assert PlaceSubject(s, f, c, [c], EmptyRun, 0, 0) == r2;
  }

  // ---------------------------------------------------------------------
  // Commit

  /** The stored row for a generated class. */
  function Stored(x: Session, id: string, createdById: string): Entry {
    Entry(id, x.subjectId, x.facultyId, x.classroomId, x.day, x.start, x.end, x.classType, false, None, createdById)
  }

  /** Replace-all write: an empty result leaves the stored timetable alone,
      a non-empty one replaces every stored row. Row ids come from `freshId`. */
  function Commit(stored: seq<Entry>, generated: seq<Session>, freshId: nat -> string, adminId: string): (r: seq<Entry>)
    ensures |generated| == 0 ==> r == stored
    ensures |generated| > 0 ==> |r| == |generated|
    ensures |generated| > 0 ==> forall i :: 0 <= i < |r| ==>
      && r[i].subjectId == generated[i].subjectId && r[i].facultyId == generated[i].facultyId
      && r[i].classroomId == generated[i].classroomId && r[i].day == generated[i].day
      && r[i].start == generated[i].start && r[i].end == generated[i].end
      && r[i].classType == generated[i].classType
      && !r[i].isRescheduled && r[i].originalId == None && r[i].createdById == adminId
  {
    if |generated| == 0 then stored
    else
      var r := seq(|generated|, i requires 0 <= i < |generated| => Stored(generated[i], freshId(i), adminId));
      assert forall i :: 0 <= i < |r| ==> r[i] == Stored(generated[i], freshId(i), adminId);
      r
  }

  /** Committing a generated week onto a conflict-free timetable leaves a
      conflict-free timetable. */
  lemma CommitConflictFree(stored: seq<Entry>, faculty: seq<Faculty>, subjects: seq<Subject>, rooms: seq<Classroom>, freshId: nat -> string, adminId: string)
    requires ConflictFree(stored, Days)
    ensures ConflictFree(Commit(stored, Generate(faculty, subjects, rooms), freshId, adminId), Days)
  {
    var out := Generate(faculty, subjects, rooms);
    GenerateOneSessionPerCell(faculty, subjects, rooms);
  }
}
