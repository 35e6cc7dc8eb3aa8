/** Leave requests: the POST handler that marks a day as LEAVE on the
    attendance table, and the GET handler that lists a faculty member's
    leave days. */
module LeaveRequests {
  import opened Wrappers
  import opened Attendance
  import Sorting

  /** The `reason` field of the request body: absent, an explicit null, or a
      text. Prisma ignores an absent field in an update and stores null for
      it on create. */
  datatype Reason = Absent | Null | Text(text: string)

  /** The notes a row ends up with when `reason` is written over `notes`. */
  function NotesAfter(notes: Option<string>, reason: Reason): (r: Option<string>)
    ensures reason.Absent? ==> r == notes
    ensures reason.Null? ==> r.None?
    ensures reason.Text? ==> r == Some(reason.text)
  {
    match reason
    case Absent => notes
    case Null => None
    case Text(s) => Some(s)
  }

  /** The POST handler: the day's existing row becomes LEAVE with the reason
      as its notes; without one, a LEAVE row is created. Returns the table
      and the row it replies with. */
  function RequestLeave(t: seq<Record>, fid: string, date: int, reason: Reason, newId: string): (seq<Record>, Record) {
    match Lookup(t, fid, date)
    case Some(i) =>
      var b := t[i].(status := Leave, notes := NotesAfter(t[i].notes, reason));
      (t[i := b], b)
    case None =>
      var b := Record(newId, fid, date, Leave, None, None, NotesAfter(None, reason));
      (t + [b], b)
  }

  /** Afterwards the day's key is held by exactly one row, which is LEAVE and
      is the one replied with; it keeps its id and any check-in or
      check-out; the unique constraint still holds and no other row
      changes. */
  lemma RequestLeaveTable(t: seq<Record>, fid: string, date: int, reason: Reason, newId: string)
    requires KeysUnique(t)
    ensures var (t2, b) := RequestLeave(t, fid, date, reason, newId);
      && KeysUnique(t2)
      && Lookup(t2, fid, date).Some? && t2[Lookup(t2, fid, date).value] == b
      && b.status == Leave && SameKey(b, fid, date)
      && (Lookup(t, fid, date).Some? ==>
            var prev := t[Lookup(t, fid, date).value];
            |t2| == |t| && b.id == prev.id && b.checkIn == prev.checkIn && b.checkOut == prev.checkOut
            && b.notes == NotesAfter(prev.notes, reason))
      && (Lookup(t, fid, date).None? ==>
            |t2| == |t| + 1 && b.id == newId && b.checkIn.None? && b.checkOut.None?
            && b.notes == NotesAfter(None, reason))
      && (forall i :: 0 <= i < |t| && !SameKey(t[i], fid, date) ==> t2[i] == t[i])
  {
    var (t2, b) := RequestLeave(t, fid, date, reason, newId);
    match Lookup(t, fid, date)
    case Some(i) =>
      ReplaceKeepsKeysUnique(t, i, b);
      LookupUnique(t2, fid, date);
      assert SameKey(t2[i], fid, date);
    case None =>
      AppendKeepsKeysUnique(t, b);
      LookupUnique(t2, fid, date);
      assert SameKey(t2[|t|], fid, date);
  }

  /** Asking again for the same day with the same reason changes nothing. */
  lemma {:induction false} RequestLeaveIdempotent(t: seq<Record>, fid: string, date: int, reason: Reason, id1: string, id2: string)
    requires KeysUnique(t)
    ensures var (t2, b) := RequestLeave(t, fid, date, reason, id1);
      RequestLeave(t2, fid, date, reason, id2) == (t2, b)
  {
    var (t2, b) := RequestLeave(t, fid, date, reason, id1);
    RequestLeaveTable(t, fid, date, reason, id1);
    var i := Lookup(t2, fid, date).value;
    assert t2[i] == b;
    assert NotesAfter(b.notes, reason) == b.notes by {
      match reason
      case Absent =>
      case Null =>
      case Text(_) =>
    }
    assert t2[i := b] == t2;
  }

  /** Leave never records a check-out without a check-in. */
  lemma RequestLeaveKeepsCheckedInFirst(t: seq<Record>, fid: string, date: int, reason: Reason, newId: string)
    requires AllCheckedInFirst(t)
    ensures AllCheckedInFirst(RequestLeave(t, fid, date, reason, newId).0)
  {
  }

  /** Checking in on a day already marked as leave is accepted and the row
      stays LEAVE: the handlers do not reconcile the two. Both handlers are
      taken to key the day alike, which holds on a server running in UTC. */
  lemma CheckInOnLeaveDay(t: seq<Record>, fid: string, date: int, reason: Reason, now: int, id1: string, id2: string)
    requires KeysUnique(t)
    requires Lookup(t, fid, date).None?
    ensures var (t2, _) := RequestLeave(t, fid, date, reason, id1);
      var r := CheckInOut(t2, fid, date, "checkin", now, id2);
      r.reply.Ok? && r.reply.record.status == Leave && r.reply.record.checkIn == Some(now)
  {
    var (t2, b) := RequestLeave(t, fid, date, reason, id1);
    RequestLeaveTable(t, fid, date, reason, id1);
    LookupUnique(t2, fid, date);
    assert SameKey(t2[|t|], fid, date);
  }

  // ---------------------------------------------------------------------
  // GET

  predicate IsLeaveOf(x: Record, fid: string) {
    x.facultyId == fid && x.status == Leave
  }

  /** The GET handler: `fid`'s LEAVE rows, newest first. */
  function LeaveHistory(t: seq<Record>, fid: string): seq<Record> {
    NewestFirst(Filter(t, (x: Record) => IsLeaveOf(x, fid)))
  }

  /** The list holds every LEAVE row of `fid` as often as the table does,
      nothing else, newest first. */
  lemma LeaveHistoryContents(t: seq<Record>, fid: string)
    ensures var r, mine := LeaveHistory(t, fid), Filter(t, (x: Record) => IsLeaveOf(x, fid));
      && multiset(r) == multiset(mine)
      && (forall x :: x in r <==> x in t && IsLeaveOf(x, fid))
      && (forall i, j :: 0 <= i < j < |r| ==> r[i].date >= r[j].date)
  {
    var mine := Filter(t, (x: Record) => IsLeaveOf(x, fid));
    var r := LeaveHistory(t, fid);
    FilterMembers(t, (x: Record) => IsLeaveOf(x, fid));
    NewerIsStrictWeakOrder();
    Sorting.SortSorted(mine, Newer);
    forall x
      ensures x in r <==> x in mine
    {
      assert x in r <==> x in multiset(r);
      assert x in mine <==> x in multiset(mine);
    }
  }
}
