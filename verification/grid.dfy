/** The fixed weekly grid shared by the generator and the rescheduler:
    five weekdays and seven one-hour teaching slots, with no 12-13 slot. */
module Grid {

  /** A teaching hour [start, end) on the 24-hour clock. */
  datatype Slot = Slot(start: int, end: int)

  const Slots: seq<Slot> :=
    [Slot(9, 10), Slot(10, 11), Slot(11, 12), Slot(13, 14), Slot(14, 15), Slot(15, 16), Slot(16, 17)]

  /** 1 = Monday .. 5 = Friday. */
  const Days: seq<int> := [1, 2, 3, 4, 5]

  /** The weekdays are exactly 1 to 5. */
  lemma DaysMembers()
    ensures forall d :: d in Days <==> 1 <= d <= 5
  {
  }

  const SlotCount: nat := 7
  const CellCount: nat := 35

  /** Half-open interval overlap, the test both schedulers use. */
  predicate Overlap(start1: int, end1: int, start2: int, end2: int) {
    start1 < end2 && end1 > start2
  }

  /** The generator walks the grid day by day and, within a day, slot by
      slot; cell `k` of that walk is day `Days[k / 7]`, slot `k % 7`. */
  function CellDay(k: nat): (d: int)
    requires k < CellCount
    ensures 1 <= d <= 5
  {
    Days[k / SlotCount]
  }

  function CellSlot(k: nat): (t: nat)
    requires k < CellCount
    ensures t < |Slots|
  {
    k % SlotCount
  }

  /** Position of a canonical start hour in `Slots`. */
  function SlotIndex(start: int): int {
    if start <= 11 then start - 9 else start - 10
  }

  /** Position in the walk of the cell a canonical (day, start) occupies. */
  function CellOf(day: int, start: int): int {
    (day - 1) * SlotCount + SlotIndex(start)
  }

  predicate OnGrid(day: int, start: int, end: int) {
    day in Days && Slot(start, end) in Slots
  }

  lemma SlotIndexOfSlot(t: nat)
    requires t < |Slots|
    ensures SlotIndex(Slots[t].start) == t
    ensures Slots[t].end == Slots[t].start + 1
  {
  }

  /** Walking cell `k` lands on a grid cell that `CellOf` maps back to `k`. */
  lemma CellRoundTrip(k: nat)
    requires k < CellCount
    ensures OnGrid(CellDay(k), Slots[CellSlot(k)].start, Slots[CellSlot(k)].end)
    ensures CellOf(CellDay(k), Slots[CellSlot(k)].start) == k
  {
    SlotIndexOfSlot(CellSlot(k));
  }

  /** Different steps of the walk visit different (day, slot) cells. */
  lemma CellsApart(k: nat, k2: nat)
    requires k < CellCount && k2 < CellCount && k != k2
    ensures (CellDay(k), CellSlot(k)) != (CellDay(k2), CellSlot(k2))
  {
    CellRoundTrip(k);
    CellRoundTrip(k2);
  }

  /** Every grid cell is visited by the walk, at position `CellOf`. */
  lemma OnGridCell(day: int, start: int, end: int)
    requires OnGrid(day, start, end)
    ensures 0 <= CellOf(day, start) < CellCount
    ensures CellDay(CellOf(day, start)) == day
    ensures CellSlot(CellOf(day, start)) == SlotIndex(start)
    ensures 0 <= SlotIndex(start) < |Slots| && Slots[SlotIndex(start)] == Slot(start, end)
  {
  }

  /** Two different canonical slots never overlap, and no slot touches the
      lunch hour 12-13. */
  lemma SlotsDisjoint()
    ensures forall i, j :: 0 <= i < |Slots| && 0 <= j < |Slots| && i != j ==>
      !Overlap(Slots[i].start, Slots[i].end, Slots[j].start, Slots[j].end)
    ensures forall i :: 0 <= i < |Slots| ==> !Overlap(Slots[i].start, Slots[i].end, 12, 13)
  {
  }
}
