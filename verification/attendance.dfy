/** Faculty attendance: the table of daily records keyed by (faculty, date),
    the check-in/check-out POST handler and the GET handler that lists a
    faculty member's latest records. The leave handlers share the table. */
module Attendance {
  import opened Wrappers
  import Sorting

  datatype Status = Present | Absent | Leave

  /** One attendance row. Dates are day numbers; check-in and check-out are
      instants on the same clock. */
  datatype Record = Record(id: string, facultyId: string, date: int, status: Status,
                           checkIn: Option<int>, checkOut: Option<int>, notes: Option<string>)

  predicate SameKey(r: Record, fid: string, date: int) {
    r.facultyId == fid && r.date == date
  }

  /** The database's unique constraint on (facultyId, date). */
  ghost predicate KeysUnique(t: seq<Record>) {
    forall i, j :: 0 <= i < |t| && 0 <= j < |t| && i != j ==> !SameKey(t[j], t[i].facultyId, t[i].date)
  }

  /** A check-out is only ever recorded after a check-in. */
  predicate CheckedInFirst(r: Record) {
    r.checkOut.Some? ==> r.checkIn.Some?
  }

  ghost predicate AllCheckedInFirst(t: seq<Record>) {
    forall i :: 0 <= i < |t| ==> CheckedInFirst(t[i])
  }

  /** `findUnique` on the (facultyId, date) key. */
  function Lookup(t: seq<Record>, fid: string, date: int): (r: Option<nat>)
    ensures r.Some? ==> r.value < |t| && SameKey(t[r.value], fid, date)
    ensures r.None? <==> forall j :: 0 <= j < |t| ==> !SameKey(t[j], fid, date)
  {
    First(t, (x: Record) => SameKey(x, fid, date))
  }

  /** Under the unique constraint the record found is the only one with its
      key. */
  lemma LookupUnique(t: seq<Record>, fid: string, date: int)
    requires KeysUnique(t)
    ensures Lookup(t, fid, date).Some? ==>
      forall j :: 0 <= j < |t| && SameKey(t[j], fid, date) ==> j == Lookup(t, fid, date).value
  {
  }

  /** Appending a record whose key is not yet taken keeps keys unique. */
  lemma AppendKeepsKeysUnique(t: seq<Record>, x: Record)
    requires KeysUnique(t)
    requires Lookup(t, x.facultyId, x.date).None?
    ensures KeysUnique(t + [x])
  {
  }

  /** Changing a record in place without touching its key keeps keys
      unique. */
  lemma ReplaceKeepsKeysUnique(t: seq<Record>, i: nat, x: Record)
    requires KeysUnique(t)
    requires i < |t| && SameKey(x, t[i].facultyId, t[i].date)
    ensures KeysUnique(t[i := x])
  {
  }

  // ---------------------------------------------------------------------
  // POST: check in / check out

  datatype Reply = Ok(record: Record) | Error(message: string)

  datatype Response = Response(table: seq<Record>, reply: Reply)

  /** Today's record of `fid` and its position, created (PRESENT, no times,
      no notes) when missing. */
  function FetchOrCreate(t: seq<Record>, fid: string, today: int, newId: string): (r: (seq<Record>, nat))
    ensures r.1 < |r.0| && SameKey(r.0[r.1], fid, today)
    ensures Lookup(t, fid, today).Some? ==> r.0 == t
    ensures Lookup(t, fid, today).None? ==>
      r.0 == t + [r.0[r.1]] && r.0[r.1] == Record(newId, fid, today, Present, None, None, None)
  {
    match Lookup(t, fid, today)
    case Some(i) => (t, i)
    case None => (t + [Record(newId, fid, today, Present, None, None, None)], |t|)
  }

  /** The POST handler for `action`, at instant `now` on day `today`. The
      record is created before the action is looked at, so it stays even
      when the reply is an error or the action is neither "checkin" nor
      "checkout". */
  function CheckInOut(t: seq<Record>, fid: string, today: int, action: string, now: int, newId: string): Response {
    var (t1, i) := FetchOrCreate(t, fid, today, newId);
    var a := t1[i];
    if action == "checkin" then
      if a.checkIn.Some? then Response(t1, Error("Already checked in today"))
      else
        var b := a.(checkIn := Some(now));
        Response(t1[i := b], Ok(b))
    else if action == "checkout" then
      if a.checkIn.None? then Response(t1, Error("Please check in first"))
      else if a.checkOut.Some? then Response(t1, Error("Already checked out today"))
      else
        var b := a.(checkOut := Some(now));
        Response(t1[i := b], Ok(b))
    else Response(t1, Ok(a))
  }

  /** Today's record before the action: the stored one, or the fresh one the
      handler creates. */
  function Prior(t: seq<Record>, fid: string, today: int, newId: string): Record {
    match Lookup(t, fid, today)
    case Some(i) => t[i]
    case None => Record(newId, fid, today, Present, None, None, None)
  }

  /** What the handler replies, in terms of today's record before the call:
      the three error messages exactly when their conditions hold, and
      otherwise the record with the one time set. */
  lemma CheckInOutReply(t: seq<Record>, fid: string, today: int, action: string, now: int, newId: string)
    ensures var p, r := Prior(t, fid, today, newId), CheckInOut(t, fid, today, action, now, newId).reply;
      && (action == "checkin" ==>
            (p.checkIn.Some? ==> r == Error("Already checked in today"))
            && (p.checkIn.None? ==> r == Ok(p.(checkIn := Some(now)))))
      && (action == "checkout" ==>
            (p.checkIn.None? ==> r == Error("Please check in first"))
            && (p.checkIn.Some? && p.checkOut.Some? ==> r == Error("Already checked out today"))
            && (p.checkIn.Some? && p.checkOut.None? ==> r == Ok(p.(checkOut := Some(now)))))
      && (action != "checkin" && action != "checkout" ==> r == Ok(p))
  {
  }

  /** After the call exactly one record holds today's key (so the unique
      constraint still holds); a successful reply is that record; no other
      record changes; the table grows only when today's record was missing. */
  lemma CheckInOutTable(t: seq<Record>, fid: string, today: int, action: string, now: int, newId: string)
    requires KeysUnique(t)
    ensures var r := CheckInOut(t, fid, today, action, now, newId);
      && KeysUnique(r.table)
      && (exists i :: 0 <= i < |r.table| && SameKey(r.table[i], fid, today))
      && (r.reply.Ok? ==> Lookup(r.table, fid, today).Some? && r.table[Lookup(r.table, fid, today).value] == r.reply.record)
      && |r.table| == |t| + (if Lookup(t, fid, today).None? then 1 else 0)
      && (forall i :: 0 <= i < |t| && !SameKey(t[i], fid, today) ==> r.table[i] == t[i])
      && (r.reply.Error? ==> r.table[..|t|] == t)
  {
    var (t1, i) := FetchOrCreate(t, fid, today, newId);
    if Lookup(t, fid, today).None? {
      AppendKeepsKeysUnique(t, t1[i]);
    }
    var r := CheckInOut(t, fid, today, action, now, newId);
    ReplaceKeepsKeysUnique(t1, i, t1[i].(checkIn := Some(now)));
    ReplaceKeepsKeysUnique(t1, i, t1[i].(checkOut := Some(now)));
    LookupUnique(r.table, fid, today);
    assert SameKey(r.table[i], fid, today);
  }

  /** No call records a check-out without a check-in. */
  lemma CheckInOutKeepsCheckedInFirst(t: seq<Record>, fid: string, today: int, action: string, now: int, newId: string)
    requires AllCheckedInFirst(t)
    ensures AllCheckedInFirst(CheckInOut(t, fid, today, action, now, newId).table)
  {
  }

  /** A day's round: check in at `t1`, check out at `t2`. Both succeed and
      leave a PRESENT record with both times; a further check-in or
      check-out is refused and changes nothing. */
  lemma {:induction false} DayRound(t: seq<Record>, fid: string, today: int, t1: int, t2: int, t3: int, id1: string, id2: string, id3: string)
    requires KeysUnique(t)
    requires Lookup(t, fid, today).None?
    ensures var a := CheckInOut(t, fid, today, "checkin", t1, id1);
      var b := CheckInOut(a.table, fid, today, "checkout", t2, id2);
      && a.reply == Ok(Record(id1, fid, today, Present, Some(t1), None, None))
      && b.reply == Ok(Record(id1, fid, today, Present, Some(t1), Some(t2), None))
      && CheckInOut(b.table, fid, today, "checkin", t3, id3) == Response(b.table, Error("Already checked in today"))
      && CheckInOut(b.table, fid, today, "checkout", t3, id3) == Response(b.table, Error("Already checked out today"))
  {
    var a := CheckInOut(t, fid, today, "checkin", t1, id1);
    CheckInOutTable(t, fid, today, "checkin", t1, id1);
    assert a.table == t + [Record(id1, fid, today, Present, Some(t1), None, None)];
    assert Lookup(a.table, fid, today) == Some(|t|);
    var b := CheckInOut(a.table, fid, today, "checkout", t2, id2);
    assert b.table == t + [Record(id1, fid, today, Present, Some(t1), Some(t2), None)];
    assert forall j :: 0 <= j < |t| ==> b.table[j] == t[j];
    assert SameKey(b.table[|t|], fid, today);
    assert Lookup(b.table, fid, today) == Some(|t|);
  }

  // ---------------------------------------------------------------------
  // GET: the latest records

  /** "Newer first": Prisma's `orderBy: { date: "desc" }`. */
  predicate Newer(a: Record, b: Record) {
    a.date > b.date
  }

  lemma NewerIsStrictWeakOrder()
    ensures Sorting.StrictWeakOrder(Newer)
  {
  }

  function NewestFirst(s: seq<Record>): seq<Record> {
    Sorting.Sort(s, Newer)
  }

  /** The number of records the GET handler returns at most. */
  const RecentLimit := 30

  function Of(t: seq<Record>, fid: string): seq<Record> {
    Filter(t, (x: Record) => x.facultyId == fid)
  }

  /** The GET handler: `fid`'s records, newest first, at most 30. */
  function Recent(t: seq<Record>, fid: string): seq<Record> {
    var s := NewestFirst(Of(t, fid));
    if |s| <= RecentLimit then s else s[..RecentLimit]
  }

  /** The records returned are stored records of `fid`, each as often as
      the table holds it, so none is repeated. */
  lemma RecentRows(t: seq<Record>, fid: string)
    ensures multiset(Recent(t, fid)) <= multiset(Of(t, fid))
  {
    var all := Of(t, fid);
    var s := NewestFirst(all);
    var r := Recent(t, fid);
    NewerIsStrictWeakOrder();
    Sorting.SortSorted(all, Newer);
    assert s == r + s[|r|..];
  }

  /** The handler returns only `fid`'s records, newest first, as many as
      there are up to 30; every record of `fid` it leaves out is no newer
      than any it returns. */
  lemma RecentLatest(t: seq<Record>, fid: string)
    ensures var r, all := Recent(t, fid), Of(t, fid);
      && |r| == (if |all| <= RecentLimit then |all| else RecentLimit)
      && (forall x :: x in r ==> x in t && x.facultyId == fid)
      && (forall i, j :: 0 <= i < j < |r| ==> r[i].date >= r[j].date)
      && (forall x :: x in t && x.facultyId == fid && x !in r ==> forall i :: 0 <= i < |r| ==> x.date <= r[i].date)
  {
    var all := Of(t, fid);
    var s := NewestFirst(all);
    var r := Recent(t, fid);
    FilterMembers(t, (x: Record) => x.facultyId == fid);
    Sorting.SortMembers(all, Newer);
    NewerIsStrictWeakOrder();
    Sorting.SortSorted(all, Newer);
    assert r == s[..|r|];
    forall x | x in r
      ensures x in t && x.facultyId == fid
    {
      var m :| 0 <= m < |r| && r[m] == x;
      assert s[m] == x;
    }
    Sorting.SortedPrefixFirst(s, Newer, |r|);
  }
}
