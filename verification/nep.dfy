/** NEP 2020 workload compliance: each faculty member's teaching hours in
    the current week, the compliance flag derived from the policy limits,
    the per-week record kept for each faculty member, and the summary over
    all faculty. Times are integer milliseconds; hours are exact reals. */
module Nep {
  import opened Wrappers

  /** A timetable entry's start and end instants, in milliseconds. */
  datatype Span = Span(start: int, end: int)

  /** A faculty member and the spans of their timetable entries. */
  datatype FacultyWeek = FacultyWeek(facultyId: string, entries: seq<Span>)

  const MaxAllowedHours := 40
  const MinTeachingHours := 16
  const MinStudentInteractionHours := 8
  const MillisPerHour := 3600000

  // ---------------------------------------------------------------------
  // Hours of one faculty member

  predicate InWeek(weekStart: int, weekEnd: int, s: Span) {
    weekStart <= s.start <= weekEnd
  }

  /** The entries that start inside the week window, both ends included. */
  function WeekEntries(entries: seq<Span>, weekStart: int, weekEnd: int): seq<Span> {
    Filter(entries, (s: Span) => InWeek(weekStart, weekEnd, s))
  }

  function Duration(s: Span): real {
    (s.end - s.start) as real / MillisPerHour as real
  }

  /** The durations added up in order, as the `forEach` does. */
  function Hours(spans: seq<Span>): real {
    if |spans| == 0 then 0.0 else Hours(spans[..|spans| - 1]) + Duration(spans[|spans| - 1])
  }

  predicate Forward(s: Span) {
    s.start <= s.end
  }

  lemma {:induction false} HoursNonNegative(spans: seq<Span>)
    requires forall i :: 0 <= i < |spans| ==> Forward(spans[i])
    ensures Hours(spans) >= 0.0
  {
    if |spans| > 0 {
      HoursNonNegative(spans[..|spans| - 1]);
    }
  }

  /** A week of one-hour entries (every slot of the timetable grid) counts
      one hour per entry. */
  lemma {:induction false} HoursOfHourSlots(spans: seq<Span>)
    requires forall i :: 0 <= i < |spans| ==> spans[i].end - spans[i].start == MillisPerHour
    ensures Hours(spans) == |spans| as real
  {
    if |spans| > 0 {
      HoursOfHourSlots(spans[..|spans| - 1]);
    }
  }

  /** Hours of the week: every entry counts as teaching and as student
      interaction; nothing counts as non-teaching. */
  datatype Assessment = Assessment(teaching: real, nonTeaching: real, studentInteraction: real, total: real, isCompliant: bool)

  function Assess(week: seq<Span>): Assessment {
    var teaching := Hours(week);
    var nonTeaching := 0.0;
    var interaction := teaching;
    var total := teaching + nonTeaching;
    Assessment(teaching, nonTeaching, interaction, total,
               total <= MaxAllowedHours as real && teaching >= MinTeachingHours as real
               && interaction >= MinStudentInteractionHours as real)
  }

  /** Because interaction equals teaching and non-teaching is zero, the
      interaction minimum of 8 never decides anything: a week complies
      exactly when its hours lie between 16 and 40. */
  lemma AssessCompliance(week: seq<Span>)
    ensures var a := Assess(week);
      && a.total == a.teaching == a.studentInteraction == Hours(week) && a.nonTeaching == 0.0
      && (a.isCompliant <==> MinTeachingHours as real <= Hours(week) <= MaxAllowedHours as real)
  {
  }

  /** With one-hour entries: compliant exactly for 16 to 40 entries in the
      week. */
  lemma ComplianceByCount(week: seq<Span>)
    requires forall i :: 0 <= i < |week| ==> week[i].end - week[i].start == MillisPerHour
    ensures Assess(week).isCompliant <==> MinTeachingHours <= |week| <= MaxAllowedHours
  {
    HoursOfHourSlots(week);
  }

  // ---------------------------------------------------------------------
  // Rounding for storage

  /** `Math.round(x * 100) / 100`: to the nearest hundredth, halves up.
      The stored figure is within half a hundredth of the exact one. */
  function Round2(x: real): (r: real)
    ensures x - 0.005 < r <= x + 0.005
  {
    (x * 100.0 + 0.5).Floor as real / 100.0
  }

  /** Rounding preserves order. */
  lemma Round2Monotone(x: real, y: real)
    requires x <= y
    ensures Round2(x) <= Round2(y)
  {
    var fx, fy := (x * 100.0 + 0.5).Floor, (y * 100.0 + 0.5).Floor;
    assert fx as real <= x * 100.0 + 0.5 < fx as real + 1.0;
    assert fy as real <= y * 100.0 + 0.5 < fy as real + 1.0;
    assert fx < fy + 1;
  }

  lemma Round2Whole(n: int)
    ensures Round2(n as real) == n as real
  {
    assert (n as real * 100.0 + 0.5).Floor == n * 100;
  }

  // ---------------------------------------------------------------------
  // The per-week record

  datatype Compliance = Compliance(id: string, facultyId: string, week: int,
                                   teachingHours: real, nonTeachingHours: real, studentInteractionHours: real,
                                   totalHours: real, maxAllowedHours: int, isCompliant: bool)

  predicate SameKey(c: Compliance, fid: string, week: int) {
    c.facultyId == fid && c.week == week
  }

  /** The database's unique constraint on (facultyId, week). */
  ghost predicate KeysUnique(t: seq<Compliance>) {
    forall i, j :: 0 <= i < |t| && 0 <= j < |t| && i != j ==> !SameKey(t[j], t[i].facultyId, t[i].week)
  }

  /** The record the upsert writes: figures rounded to hundredths, the flag
      from the unrounded figures. */
  function RecordOf(id: string, fid: string, week: int, a: Assessment): Compliance {
    Compliance(id, fid, week, Round2(a.teaching), Round2(a.nonTeaching), Round2(a.studentInteraction),
               Round2(a.total), MaxAllowedHours, a.isCompliant)
  }

  /** `upsert` on (facultyId, week): the stored record is overwritten
      (keeping its id) or a new one is added. Returns the table and the
      record. */
  function Upsert(t: seq<Compliance>, fid: string, week: int, a: Assessment, newId: string): (seq<Compliance>, Compliance) {
    match First(t, (c: Compliance) => SameKey(c, fid, week))
    case Some(i) =>
      var c := RecordOf(t[i].id, fid, week, a);
      (t[i := c], c)
    case None =>
      var c := RecordOf(newId, fid, week, a);
      (t + [c], c)
  }

  /** After the upsert the (faculty, week) key is held by exactly the record
      returned, the unique constraint still holds, and no other record
      changes. */
  lemma UpsertTable(t: seq<Compliance>, fid: string, week: int, a: Assessment, newId: string)
    requires KeysUnique(t)
    ensures var (t2, c) := Upsert(t, fid, week, a, newId);
      && KeysUnique(t2) && SameKey(c, fid, week) && c in t2
      && (forall j :: 0 <= j < |t2| && SameKey(t2[j], fid, week) ==> t2[j] == c)
      && |t| <= |t2| <= |t| + 1
      && (forall j :: 0 <= j < |t| && !SameKey(t[j], fid, week) ==> t2[j] == t[j])
  {
    var (t2, c) := Upsert(t, fid, week, a, newId);
    match First(t, (x: Compliance) => SameKey(x, fid, week))
    case Some(i) =>
      assert t2[i] == c;
    case None =>
      assert t2[|t|] == c;
  }

  // ---------------------------------------------------------------------
  // The handler

  datatype Detail = Detail(facultyId: string, compliance: Compliance, weekEntries: nat)

  datatype Summary = Summary(totalFaculty: nat, compliantFaculty: nat, nonCompliantFaculty: int, complianceRate: real)

  function CountCompliant(ds: seq<Detail>): nat {
    |Filter(ds, (d: Detail) => d.compliance.isCompliant)|
  }

  /** The percentage of compliant faculty; 0 when there are no faculty. */
  function Rate(compliant: nat, total: nat): real {
    if total > 0 then (compliant as real / total as real) * 100.0 else 0.0
  }

  /** The summary over the details: counts and the percentage of compliant
      faculty, rounded to hundredths. */
  function Summarize(ds: seq<Detail>): Summary {
    var total := |ds|;
    var compliant := CountCompliant(ds);
    Summary(total, compliant, total - compliant, Round2(Rate(compliant, total)))
  }

  /** The rounded rate lies between 0 and 100; it is 100 when everyone
      complies and 0 when nobody does. */
  lemma RateRange(compliant: nat, total: nat)
    requires compliant <= total
    ensures 0.0 <= Round2(Rate(compliant, total)) <= 100.0
    ensures compliant == total && total > 0 ==> Round2(Rate(compliant, total)) == 100.0
    ensures compliant == 0 ==> Round2(Rate(compliant, total)) == 0.0
  {
    var rate := Rate(compliant, total);
    if total > 0 {
      assert 0.0 <= compliant as real / total as real <= 1.0;
      if compliant == total {
        assert rate == 100.0;
      }
    }
    Round2Whole(0);
    Round2Whole(100);
    Round2Monotone(0.0, rate);
    Round2Monotone(rate, 100.0);
  }

  /** The counts add up, the rate lies between 0 and 100, and it is 100 when
      everyone complies and 0 when nobody does. */
  lemma SummaryBounds(ds: seq<Detail>)
    ensures var s := Summarize(ds);
      && s.totalFaculty == |ds|
      && s.compliantFaculty <= s.totalFaculty
      && s.compliantFaculty + s.nonCompliantFaculty == s.totalFaculty
      && 0.0 <= s.complianceRate <= 100.0
      && ((forall i :: 0 <= i < |ds| ==> ds[i].compliance.isCompliant) && |ds| > 0 ==> s.complianceRate == 100.0)
      && ((forall i :: 0 <= i < |ds| ==> !ds[i].compliance.isCompliant) ==> s.complianceRate == 0.0)
  {
    var p := (d: Detail) => d.compliance.isCompliant;
    RateRange(CountCompliant(ds), |ds|);
    if forall i :: 0 <= i < |ds| ==> p(ds[i]) {
      FilterKeepsAll(ds, p);
    }
    if forall i :: 0 <= i < |ds| ==> !p(ds[i]) {
      FilterKeepsNone(ds, p);
    }
  }

  /** One faculty member at a time, in order: assess the week, upsert the
      record, and report it. */
  function AssessAll(faculty: seq<FacultyWeek>, weekStart: int, weekEnd: int, t: seq<Compliance>, freshId: nat -> string, n: nat): (seq<Compliance>, seq<Detail>)
    decreases |faculty|
  {
    if |faculty| == 0 then (t, [])
    else
      var f := faculty[0];
      var week := WeekEntries(f.entries, weekStart, weekEnd);
      var (t1, c) := Upsert(t, f.facultyId, weekStart, Assess(week), freshId(n));
      var (t2, rest) := AssessAll(faculty[1..], weekStart, weekEnd, t1, freshId, n + 1);
      (t2, [Detail(f.facultyId, c, |week|)] + rest)
  }

  /** The GET handler: the records for the week starting at `weekStart`,
      the details, and the summary over them. */
  function Report(faculty: seq<FacultyWeek>, weekStart: int, weekEnd: int, t: seq<Compliance>, freshId: nat -> string): (seq<Compliance>, seq<Detail>, Summary) {
    var (t2, ds) := AssessAll(faculty, weekStart, weekEnd, t, freshId, 0);
    (t2, ds, Summarize(ds))
  }

  /** The unique constraint on (faculty, week) holds after every upsert. */
  lemma {:induction false} AssessAllKeysUnique(faculty: seq<FacultyWeek>, weekStart: int, weekEnd: int, t: seq<Compliance>, freshId: nat -> string, n: nat)
    requires KeysUnique(t)
    ensures KeysUnique(AssessAll(faculty, weekStart, weekEnd, t, freshId, n).0)
    decreases |faculty|
  {
    if |faculty| > 0 {
      var f := faculty[0];
      var week := WeekEntries(f.entries, weekStart, weekEnd);
      UpsertTable(t, f.facultyId, weekStart, Assess(week), freshId(n));
      var t1 := Upsert(t, f.facultyId, weekStart, Assess(week), freshId(n)).0;
      AssessAllKeysUnique(faculty[1..], weekStart, weekEnd, t1, freshId, n + 1);
    }
  }

  /** One detail per faculty member, in order, for the week at `weekStart`;
      each carries the number of entries in the week and the compliance of
      exactly those entries. */
  lemma {:induction false} AssessAllDetails(faculty: seq<FacultyWeek>, weekStart: int, weekEnd: int, t: seq<Compliance>, freshId: nat -> string, n: nat)
    requires KeysUnique(t)
    ensures var (t2, ds) := AssessAll(faculty, weekStart, weekEnd, t, freshId, n);
      && |ds| == |faculty|
      && forall i :: 0 <= i < |ds| ==>
           var week := WeekEntries(faculty[i].entries, weekStart, weekEnd);
           && ds[i].facultyId == faculty[i].facultyId
           && SameKey(ds[i].compliance, faculty[i].facultyId, weekStart)
           && ds[i].weekEntries == |week|
           && (ds[i].compliance.isCompliant <==> MinTeachingHours as real <= Hours(week) <= MaxAllowedHours as real)
    decreases |faculty|
  {
    if |faculty| > 0 {
      var f := faculty[0];
      var week := WeekEntries(f.entries, weekStart, weekEnd);
      var (t1, c) := Upsert(t, f.facultyId, weekStart, Assess(week), freshId(n));
      UpsertTable(t, f.facultyId, weekStart, Assess(week), freshId(n));
      AssessCompliance(week);
      AssessAllDetails(faculty[1..], weekStart, weekEnd, t1, freshId, n + 1);
      var (t2, rest) := AssessAll(faculty[1..], weekStart, weekEnd, t1, freshId, n + 1);
      var ds := [Detail(f.facultyId, c, |week|)] + rest;
      forall i | 1 <= i < |ds|
        ensures ds[i] == rest[i - 1] && faculty[i] == faculty[1..][i - 1]
      {
      }
    }
  }

}
