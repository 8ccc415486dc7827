/**
 The occupancy map of the booking page: `booked[date][hourBlock]` is the list
 of tables taken at that half-hour block of that day. This module holds the
 pure description of the map (how a lookup reads it, how one booking marks it,
 how a whole download of records rebuilds it); the class in booking.dfy
 performs the same steps in place and is proved against these functions.

 Units: a date is a day number (the page's date-to-string key is injective and
 "add one day" is `+ 1`); an hour is a count of half-hours since midnight
 (12:30 is 25); a duration is a count of half-hour blocks.
 */
module Occupancy {

  type Date = int
  type Slot = int
  type Table = int

  /** date -> half-hour block -> tables listed there, in the order they were pushed. */
  type Booked = map<Date, map<Slot, seq<Table>>>

  /** The `repeat` field of a downloaded record: `false`, or a tag such as "daily". */
  datatype Repeat = NoRepeat | Tag(name: string)

  predicate IsDaily(r: Repeat)
  {
    r == Tag("daily")
  }

  /** A downloaded booking or event, with its hour already converted to a block number. */
  datatype Record = Record(date: Date, start: Slot, duration: int, table: Table, repeat: Repeat)

  /** True when record `e` occupies table `t` at block `b` (on whatever day it applies to). */
  predicate Covers(e: Record, b: Slot, t: Table)
  {
    e.table == t && e.start <= b < e.start + e.duration
  }

  /** The list at block `b` of one day, a missing block reading as the empty list. */
  function SlotList(inner: map<Slot, seq<Table>>, b: Slot): seq<Table>
  {
    if b in inner then inner[b] else []
  }

  /** The list at (`d`, `b`), a missing date or block reading as the empty list. */
  function Lookup(bk: Booked, d: Date, b: Slot): seq<Table>
  {
    if d in bk then SlotList(bk[d], b) else []
  }

  /**
   The booked/free decision of the page: a table is shown as booked only when
   the date entry and the block entry both exist and the list holds the table;
   a missing entry means every table is free.
   */
  predicate IsBooked(bk: Booked, d: Date, b: Slot, t: Table): (r: bool)
    ensures d !in bk || b !in bk[d] ==> !r
    ensures r <==> t in Lookup(bk, d, b)
  {
    d in bk && b in bk[d] && t in bk[d][b]
  }

  /**
   Pushes `t` onto the list of every block `from <= b < end` of one day,
   creating the lists that are missing, in ascending block order.
   */
  function MarkSlots(inner: map<Slot, seq<Table>>, from: Slot, end: Slot, t: Table): map<Slot, seq<Table>>
    decreases end - from
  {
    if from >= end then inner
    else MarkSlots(inner[from := SlotList(inner, from) + [t]], from + 1, end, t)
  }

  /**
   Marking a day's blocks creates the entry of every block in `[from, end)`,
   appends `t` to each of their lists, and leaves every other block as it was.
   */
  lemma {:induction false} MarkSlotsAt(inner: map<Slot, seq<Table>>, from: Slot, end: Slot, t: Table, b: Slot)
    decreases end - from
    ensures b in MarkSlots(inner, from, end, t) <==> b in inner || from <= b < end
    ensures !(from <= b < end) && b in inner ==> MarkSlots(inner, from, end, t)[b] == inner[b]
    ensures SlotList(MarkSlots(inner, from, end, t), b) ==
            if from <= b < end then SlotList(inner, b) + [t] else SlotList(inner, b)
  {
    if from < end {
      MarkSlotsAt(inner[from := SlotList(inner, from) + [t]], from + 1, end, t, b);
    }
  }

  /**
   One booking of table `t` on `date` from block `start` for `duration`
   blocks: the date entry exists afterwards and no other date changes.
   */
  function Mark(bk: Booked, date: Date, start: Slot, duration: int, t: Table): (r: Booked)
    ensures r.Keys == bk.Keys + {date}
    ensures forall d :: d in bk && d != date ==> r[d] == bk[d]
  {
    var inner := if date in bk then bk[date] else map[];
    bk[date := MarkSlots(inner, start, start + duration, t)]
  }

  /**
   After one booking, every block in `[start, start + duration)` of `date`
   exists and holds its old list with `t` appended (so the old list is a
   prefix, one element shorter, and duplicates are kept); every other block
   of every date reads as before, and no block other than the covered ones
   is created.
   */
  lemma MarkAt(bk: Booked, date: Date, start: Slot, duration: int, t: Table, d: Date, b: Slot)
    ensures var r := Mark(bk, date, start, duration, t);
            (d == date ==> (b in r[d] <==> (d in bk && b in bk[d]) || start <= b < start + duration)) &&
            Lookup(r, d, b) ==
              if d == date && start <= b < start + duration then Lookup(bk, d, b) + [t] else Lookup(bk, d, b)
  {
    var inner := if date in bk then bk[date] else map[];
    MarkSlotsAt(inner, start, start + duration, t, b);
  }

  /** Marks every record of `recs` on its own date, first to last. */
  function MarkAll(bk: Booked, recs: seq<Record>): Booked
    decreases |recs|
  {
    if recs == [] then bk
    else
      var e := recs[|recs| - 1];
      Mark(MarkAll(bk, recs[..|recs| - 1]), e.date, e.start, e.duration, e.table)
  }

  /** The days a daily event is expanded over: `lo` to `hi` inclusive, ascending. */
  function DailyDates(lo: Date, hi: Date): (r: seq<Date>)
    decreases hi - lo
    ensures |r| == if lo <= hi then hi - lo + 1 else 0
    ensures forall i :: 0 <= i < |r| ==> r[i] == lo + i
  {
    if hi < lo then [] else DailyDates(lo, hi - 1) + [hi]
  }

  /** Marks event `e` on every day of `dates`, first to last. */
  function MarkDates(bk: Booked, dates: seq<Date>, e: Record): Booked
    decreases |dates|
  {
    if dates == [] then bk
    else Mark(MarkDates(bk, dates[..|dates| - 1], e), dates[|dates| - 1], e.start, e.duration, e.table)
  }

  /** Expands every daily event of `reps` over `[lo, hi]`; other events are skipped. */
  function MarkRepeats(bk: Booked, reps: seq<Record>, lo: Date, hi: Date): Booked
    decreases |reps|
  {
    if reps == [] then bk
    else
      var e := reps[|reps| - 1];
      var prev := MarkRepeats(bk, reps[..|reps| - 1], lo, hi);
      if IsDaily(e.repeat) then MarkDates(prev, DailyDates(lo, hi), e) else prev
  }

  /** The map rebuilt from scratch out of one download: bookings, one-off events, repeating events. */
  function Build(bookings: seq<Record>, current: seq<Record>, repeats: seq<Record>, lo: Date, hi: Date): Booked
  {
    MarkRepeats(MarkAll(MarkAll(map[], bookings), current), repeats, lo, hi)
  }

  lemma {:induction false} DailyDatesMembers(lo: Date, hi: Date, d: Date)
    ensures d in DailyDates(lo, hi) <==> lo <= d <= hi
  {
    var ds := DailyDates(lo, hi);
    if lo <= d <= hi {
      assert ds[d - lo] == d;
    }
  }

  lemma {:induction false} MarkAllMembers(bk: Booked, recs: seq<Record>, d: Date, b: Slot, t: Table)
    decreases |recs|
    ensures t in Lookup(MarkAll(bk, recs), d, b) <==>
      t in Lookup(bk, d, b) || exists e :: e in recs && e.date == d && Covers(e, b, t)
  {
    if recs != [] {
      var init, e := recs[..|recs| - 1], recs[|recs| - 1];
      assert recs == init + [e];
      MarkAllMembers(bk, init, d, b, t);
      MarkAt(MarkAll(bk, init), e.date, e.start, e.duration, e.table, d, b);
      if t in Lookup(MarkAll(bk, recs), d, b) && t !in Lookup(bk, d, b) {
        if t !in Lookup(MarkAll(bk, init), d, b) {
          assert e in recs && e.date == d && Covers(e, b, t);
        }
      }
    }
  }

  lemma {:induction false} MarkDatesMembers(bk: Booked, dates: seq<Date>, e: Record, d: Date, b: Slot, t: Table)
    decreases |dates|
    ensures t in Lookup(MarkDates(bk, dates, e), d, b) <==>
      t in Lookup(bk, d, b) || (d in dates && Covers(e, b, t))
  {
    if dates != [] {
      var init := dates[..|dates| - 1];
      assert dates == init + [dates[|dates| - 1]];
      MarkDatesMembers(bk, init, e, d, b, t);
      MarkAt(MarkDates(bk, init, e), dates[|dates| - 1], e.start, e.duration, e.table, d, b);
    }
  }

  /** Some daily event of `reps` covers block `b` for table `t`. */
  predicate DailyCovers(reps: seq<Record>, b: Slot, t: Table)
  {
    exists e :: e in reps && IsDaily(e.repeat) && Covers(e, b, t)
  }

  lemma {:induction false} MarkRepeatsMembers(bk: Booked, reps: seq<Record>, lo: Date, hi: Date, d: Date, b: Slot, t: Table)
    decreases |reps|
    ensures t in Lookup(MarkRepeats(bk, reps, lo, hi), d, b) <==>
      t in Lookup(bk, d, b) || (lo <= d <= hi && DailyCovers(reps, b, t))
  {
    if reps != [] {
      var init, e := reps[..|reps| - 1], reps[|reps| - 1];
      assert reps == init + [e];
      MarkRepeatsMembers(bk, init, lo, hi, d, b, t);
      assert DailyCovers(reps, b, t) <==> DailyCovers(init, b, t) || (IsDaily(e.repeat) && Covers(e, b, t)) by {
        if DailyCovers(reps, b, t) {
          var x :| x in reps && IsDaily(x.repeat) && Covers(x, b, t);
          assert x in init || x == e;
        }
        if DailyCovers(init, b, t) {
          var x :| x in init && IsDaily(x.repeat) && Covers(x, b, t);
          assert x in reps;
        }
      }
      if IsDaily(e.repeat) {
        MarkDatesMembers(MarkRepeats(bk, init, lo, hi), DailyDates(lo, hi), e, d, b, t);
        DailyDatesMembers(lo, hi, d);
      }
    }
  }

  /**
   After a rebuild, table `t` is listed at (`d`, `b`) exactly when a booking or
   one-off event dated `d` covers `b` for `t`, or a daily repeating event
   covers `b` for `t` and `d` lies in the date-picker window `[lo, hi]`.
   Whatever the map held before plays no part, and repeating events that are
   not daily contribute nothing.
   */
  lemma BuildMembers(bookings: seq<Record>, current: seq<Record>, repeats: seq<Record>, lo: Date, hi: Date, d: Date, b: Slot, t: Table)
    ensures IsBooked(Build(bookings, current, repeats, lo, hi), d, b, t) <==>
      (exists e :: e in bookings + current && e.date == d && Covers(e, b, t)) ||
      (lo <= d <= hi && DailyCovers(repeats, b, t))
  {
    var afterBookings := MarkAll(map[], bookings);
    var afterCurrent := MarkAll(afterBookings, current);
    MarkAllMembers(map[], bookings, d, b, t);
    MarkAllMembers(afterBookings, current, d, b, t);
    MarkRepeatsMembers(afterCurrent, repeats, lo, hi, d, b, t);
    if exists e :: e in bookings + current && e.date == d && Covers(e, b, t) {
      var e :| e in bookings + current && e.date == d && Covers(e, b, t);
      assert e in bookings || e in current;
    }
  }

  /** Reordering the downloaded record lists changes no booked/free answer. */
  lemma BuildOrderIndependent(bookings: seq<Record>, current: seq<Record>, repeats: seq<Record>,
                              bookings': seq<Record>, current': seq<Record>, repeats': seq<Record>,
                              lo: Date, hi: Date, d: Date, b: Slot, t: Table)
    requires multiset(bookings) == multiset(bookings')
    requires multiset(current) == multiset(current')
    requires multiset(repeats) == multiset(repeats')
    ensures IsBooked(Build(bookings, current, repeats, lo, hi), d, b, t) ==
            IsBooked(Build(bookings', current', repeats', lo, hi), d, b, t)
  {
    BuildMembers(bookings, current, repeats, lo, hi, d, b, t);
    BuildMembers(bookings', current', repeats', lo, hi, d, b, t);
    assert forall e :: e in bookings + current <==> e in bookings' + current' by {
      forall e ensures e in bookings + current <==> e in bookings' + current' {
        assert e in bookings <==> e in multiset(bookings);
        assert e in bookings' <==> e in multiset(bookings');
        assert e in current <==> e in multiset(current);
        assert e in current' <==> e in multiset(current');
      }
    }
    assert forall e :: e in repeats <==> e in repeats' by {
      forall e ensures e in repeats <==> e in repeats' {
        assert e in repeats <==> e in multiset(repeats);
        assert e in repeats' <==> e in multiset(repeats');
      }
    }
  }
}
