/**
 The reservation check run when the booking form is submitted: first the
 request must end before closing time, then the selected table must stay
 free, block after block, for the requested duration.
 */
module Validation {
  import opened Occupancy

  /**
   The length of the run of blocks `from, from + 1, ...` (stopping before
   `end`) at which table `t` is not listed on `date`: every block of the run
   is free, and the block right after it, if still below `end`, is booked.
   */
  function FreeRun(bk: Booked, date: Date, from: Slot, end: Slot, t: Table): (n: nat)
    decreases end - from
    ensures n == 0 || from + n <= end
    ensures forall b :: from <= b < from + n ==> !IsBooked(bk, date, b, t)
    ensures from + n < end ==> IsBooked(bk, date, from + n, t)
  {
    if from >= end || IsBooked(bk, date, from, t) then 0
    else 1 + FreeRun(bk, date, from + 1, end, t)
  }

  /** The two clauses of FreeRun's contract pin its value down. */
  lemma FreeRunUnique(bk: Booked, date: Date, from: Slot, end: Slot, t: Table, n: nat)
    requires n == 0 || from + n <= end
    requires forall b :: from <= b < from + n ==> !IsBooked(bk, date, b, t)
    requires from + n < end ==> IsBooked(bk, date, from + n, t)
    ensures FreeRun(bk, date, from, end, t) == n
  {
  }

  /**
   The counter of the check, in half-hours: the selected block itself counts
   unchecked, then one more for each free block after it, up to the first
   block where the table is listed.
   */
  function AvailableTime(bk: Booked, date: Date, selected: Slot, duration: int, t: Table): (n: int)
    ensures n >= 1
    ensures duration >= 1 ==> n <= duration
    ensures forall b :: selected < b < selected + n ==> !IsBooked(bk, date, b, t)
    ensures n < duration ==> IsBooked(bk, date, selected + n, t)
  {
    1 + FreeRun(bk, date, selected + 1, selected + duration, t)
  }

  /**
   The verdict of the check for a request starting at block `selected` for
   `duration` blocks when the venue closes at hour `close` (a whole hour):
   it is refused when the request runs past closing, whatever the occupancy;
   otherwise it is accepted exactly when every block after the first one is
   free for the table.
   */
  predicate Accepts(bk: Booked, date: Date, selected: Slot, duration: int, t: Table, close: int): (r: bool)
    ensures 2 * close - selected < duration ==> !r
    ensures r <==> 2 * close - selected >= duration &&
                   forall b :: selected < b < selected + duration ==> !IsBooked(bk, date, b, t)
  {
    2 * close - selected >= duration && AvailableTime(bk, date, selected, duration, t) >= duration
  }

  /** When every block after the first is free, the counter ends at exactly the requested duration. */
  lemma AllFreeCounter(bk: Booked, date: Date, selected: Slot, duration: int, t: Table)
    requires duration >= 1
    requires forall b :: selected < b < selected + duration ==> !IsBooked(bk, date, b, t)
    ensures AvailableTime(bk, date, selected, duration, t) == duration
  {
    FreeRunUnique(bk, date, selected + 1, selected + duration, t, duration - 1);
  }

  /**
   The first block of a request is never looked at: listing the table at the
   selected block beforehand changes no verdict.
   */
  lemma FirstBlockUncheckedAll(bk: Booked, date: Date, selected: Slot, duration: int, t: Table, close: int)
    ensures Accepts(Mark(bk, date, selected, 1, t), date, selected, duration, t, close) ==
            Accepts(bk, date, selected, duration, t, close)
  {
    forall b | selected < b < selected + duration
      ensures IsBooked(Mark(bk, date, selected, 1, t), date, b, t) == IsBooked(bk, date, b, t)
    {
      MarkAt(bk, date, selected, 1, t, date, b);
    }
  }

  /** A witness: a table already listed at the selected block is accepted when the following blocks are free. */
  lemma FirstBlockUnchecked()
    ensures var bk := Mark(map[], 0, 36, 1, 5);
            IsBooked(bk, 0, 36, 5) && Accepts(bk, 0, 36, 2, 5, 24)
  {
    var bk := Mark(map[], 0, 36, 1, 5);
    assert Lookup(bk, 0, 36) == [5];
    assert Lookup(bk, 0, 37) == [];
  }
}
