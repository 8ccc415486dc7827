/**
 The booking page component. Its `booked` field is the occupancy map and
 its `starters` field the chosen starters; the methods change them in place
 as the page's handlers do, and each is proved against the pure
 descriptions in the Occupancy, Validation and Starters modules.
 */
module BookingPage {
  import opened Occupancy
  import opened Validation
  import opened Starters

  /** What the form posts when a reservation is accepted (hours as blocks, the people count as given). */
  datatype Reservation = Reservation(date: Date, hour: Slot, table: Table, repeat: Repeat,
                                     duration: int, ppl: int, starters: seq<string>)

  class Booking {
    var booked: Booked
    var starters: seq<string>

    /** A page before any download: nothing booked, no starter chosen. */
    constructor ()
      ensures booked == map[] && starters == []
    {
      booked := map[];
      starters := [];
    }

    /** Marks table `table` on `date` for the blocks `[start, start + duration)`. */
    method MakeBooked(date: Date, start: Slot, duration: int, table: Table)
      modifies this`booked
      ensures booked == Mark(old(booked), date, start, duration, table)
    {
      if date !in booked {
        booked := booked[date := map[]];
      }
      ghost var inner0 := booked[date];
      var hourBlock := start;
      while hourBlock < start + duration
        invariant date in booked
        invariant booked == old(booked)[date := booked[date]]
        invariant MarkSlots(booked[date], hourBlock, start + duration, table) ==
                  MarkSlots(inner0, start, start + duration, table)
        decreases start + duration - hourBlock
      {
        var day := booked[date];  // the page mutates this inner object in place
        if hourBlock !in day {
          day := day[hourBlock := []];
        }
        day := day[hourBlock := day[hourBlock] + [table]];
        assert day == booked[date][hourBlock := SlotList(booked[date], hourBlock) + [table]];
        booked := booked[date := day];
        hourBlock := hourBlock + 1;
      }
    }

    /**
     Rebuilds the map from one download: it is emptied, then bookings and
     one-off events are marked on their dates, then every daily event is
     marked on each day from `minDate` to `maxDate`.
     */
    method ParseData(bookings: seq<Record>, eventsCurrent: seq<Record>, eventsRepeat: seq<Record>,
                     minDate: Date, maxDate: Date)
      modifies this`booked
      ensures booked == Build(bookings, eventsCurrent, eventsRepeat, minDate, maxDate)
    {
      booked := map[];
      MarkRecords(bookings);
      MarkRecords(eventsCurrent);
      MarkRepeatEvents(eventsRepeat, minDate, maxDate);
    }

    /** One `for ... of` loop over bookings or one-off events, each marked on its own date. */
    method MarkRecords(records: seq<Record>)
      modifies this`booked
      ensures booked == MarkAll(old(booked), records)
    {
      for i := 0 to |records|
        invariant booked == MarkAll(old(booked), records[..i])
      {
        var item := records[i];
        MakeBooked(item.date, item.start, item.duration, item.table);
        assert records[..i + 1][..i] == records[..i];
      }
      assert records[..|records|] == records;
    }

    /** The loop over repeating events: a daily one is marked on every day of `[minDate, maxDate]`. */
    method MarkRepeatEvents(eventsRepeat: seq<Record>, minDate: Date, maxDate: Date)
      modifies this`booked
      ensures booked == MarkRepeats(old(booked), eventsRepeat, minDate, maxDate)
    {
      for i := 0 to |eventsRepeat|
        invariant booked == MarkRepeats(old(booked), eventsRepeat[..i], minDate, maxDate)
      {
        var item := eventsRepeat[i];
        assert eventsRepeat[..i + 1][..i] == eventsRepeat[..i];
        if IsDaily(item.repeat) {
          MarkDaily(item, minDate, maxDate);
        }
      }
      assert eventsRepeat[..|eventsRepeat|] == eventsRepeat;
    }

    /** The loop over dates for one daily event: marked on each day from `minDate` to `maxDate`, in ascending order. */
    method MarkDaily(item: Record, minDate: Date, maxDate: Date)
      modifies this`booked
      ensures booked == MarkDates(old(booked), DailyDates(minDate, maxDate), item)
    {
      var loopDate := minDate;
      ghost var visited: seq<Date> := [];
      while loopDate <= maxDate
        invariant minDate <= loopDate
        invariant minDate <= maxDate ==> loopDate <= maxDate + 1
        invariant minDate > maxDate ==> loopDate == minDate
        invariant |visited| == loopDate - minDate
        invariant forall i :: 0 <= i < |visited| ==> visited[i] == minDate + i
        invariant booked == MarkDates(old(booked), visited, item)
        decreases maxDate - loopDate
      {
        MakeBooked(loopDate, item.start, item.duration, item.table);
        assert (visited + [loopDate])[..|visited|] == visited;
        visited := visited + [loopDate];
        loopDate := loopDate + 1;
      }
      ghost var days := DailyDates(minDate, maxDate);
      assert |days| == |visited| && forall i :: 0 <= i < |days| ==> days[i] == visited[i];
      assert visited == days;
    }

    /**
     The booked/free flag of each table on the page at (`date`, `hour`): a
     missing date or block entry leaves every table free.
     */
    method UpdateDOM(date: Date, hour: Slot, tables: seq<Table>) returns (tableBooked: seq<bool>)
      ensures |tableBooked| == |tables|
      ensures forall i :: 0 <= i < |tables| ==> (tableBooked[i] <==> tables[i] in Lookup(booked, date, hour))
    {
      var allAvailable := false;
      if date !in booked || hour !in booked[date] {
        allAvailable := true;
      }
      tableBooked := [];
      for i := 0 to |tables|
        invariant |tableBooked| == i
        invariant forall j :: 0 <= j < i ==> (tableBooked[j] <==> IsBooked(booked, date, hour, tables[j]))
      {
        var isBooked := !allAvailable && tables[i] in booked[date][hour];
        tableBooked := tableBooked + [isBooked];
      }
    }

    /**
     The submit-time check. The page reads the date's entry only once the
     closing check has passed and the walk has a block to visit (a request
     longer than one block), so only then must the date have an entry. The
     empty lists the walk inserts, one per visited block, change no
     booked/free answer; the result is the Validation verdict on the map as
     it was.
     */
    method HoursAmountCorrect(date: Date, selectedHour: Slot, duration: int, tableSelected: Table, close: int)
      returns (ok: bool)
      requires date in booked || 2 * close - selectedHour < duration || duration <= 1
      modifies this`booked
      ensures ok == Accepts(old(booked), date, selectedHour, duration, tableSelected, close)
      ensures booked.Keys == old(booked).Keys
      ensures forall d :: d in booked && d != date ==> booked[d] == old(booked)[d]
      ensures date in old(booked) ==> forall b :: b in booked[date] ==>
        b in old(booked)[date] ||
        (2 * close - selectedHour >= duration && selectedHour < b < selectedHour + duration &&
         b <= selectedHour + AvailableTime(old(booked), date, selectedHour, duration, tableSelected))
      ensures forall d, b :: Lookup(booked, d, b) == Lookup(old(booked), d, b)
    {
      var timeToClosing := 2 * close - selectedHour;
      var availableTime := 1;
      if timeToClosing >= duration {
        if selectedHour + 1 < selectedHour + duration {
          var day;
          availableTime, day := CheckBlocks(booked[date], selectedHour, duration, tableSelected);
          WalkCounter(booked, date, selectedHour, duration, tableSelected, selectedHour + availableTime);
          EmptyListsKeepLookups(booked, date, day);
          booked := booked[date := day];  // the page mutates this inner object in place
        }
        ok := availableTime >= duration;
      } else {
        ok := false;
      }
    }

    /**
     The reservation posted on acceptance (the post itself is not part of
     this model), and the optimistic fold of it into the map.
     */
    method SendReservation(date: Date, hour: Slot, table: Table, duration: int, ppl: int)
      returns (payload: Reservation)
      modifies this`booked
      ensures payload == Reservation(date, hour, table, NoRepeat, duration, ppl, starters)
      ensures booked == Mark(old(booked), date, hour, duration, table)
    {
      payload := Reservation(date, hour, table, NoRepeat, duration, ppl, []);
      for i := 0 to |starters|
        invariant payload == Reservation(date, hour, table, NoRepeat, duration, ppl, starters[..i])
      {
        payload := payload.(starters := payload.starters + [starters[i]]);
        assert starters[..i + 1] == starters[..i] + [starters[i]];
      }
      assert starters[..|starters|] == starters;
      MakeBooked(payload.date, payload.hour, payload.duration, payload.table);
    }

    /**
     The submit handler: an accepted request is folded into the map, after
     which the table is listed on every block of it; a refused one changes
     no booked/free answer.
     */
    method Submit(date: Date, selectedHour: Slot, duration: int, tableSelected: Table, ppl: int, close: int)
      returns (accepted: bool)
      requires date in booked || 2 * close - selectedHour < duration || duration <= 1
      modifies this`booked
      ensures accepted == Accepts(old(booked), date, selectedHour, duration, tableSelected, close)
      ensures booked.Keys == if accepted then old(booked).Keys + {date} else old(booked).Keys
      ensures forall d, b :: (Lookup(booked, d, b) ==
                              if accepted then Lookup(Mark(old(booked), date, selectedHour, duration, tableSelected), d, b)
                              else Lookup(old(booked), d, b))
    {
      accepted := HoursAmountCorrect(date, selectedHour, duration, tableSelected, close);
      ghost var checked := booked;
      if accepted {
        var _ := SendReservation(date, selectedHour, tableSelected, duration, ppl);
      }
      forall d, b ensures Lookup(booked, d, b) ==
                          if accepted then Lookup(Mark(old(booked), date, selectedHour, duration, tableSelected), d, b)
                          else Lookup(old(booked), d, b)
      {
        MarkAt(checked, date, selectedHour, duration, tableSelected, d, b);
        MarkAt(old(booked), date, selectedHour, duration, tableSelected, d, b);
      }
    }

    /** Ticking or unticking starter `value`. */
    method ToggleStarter(value: string)
      modifies this`starters
      ensures starters == Toggled(old(starters), value)
    {
      if IndexOf(starters, value) < 0 {
        starters := starters + [value];
      } else {
        starters := starters[..IndexOf(starters, value)];
      }
    }
  }

  /**
   The walk of the submit-time check over the selected day's blocks: the
   counter starts at one block (the selected one, never looked at) and grows
   by one for each following block, below the end of the request, where the
   table is not listed, stopping at the first where it is. Each visited block
   without an entry gets an empty list, which reads the same as no entry.
   */
  method CheckBlocks(day: map<Slot, seq<Table>>, selectedHour: Slot, duration: int, tableSelected: Table)
    returns (availableTime: int, day': map<Slot, seq<Table>>)
    ensures 1 <= availableTime && (availableTime == 1 || availableTime <= duration)
    ensures forall b :: selectedHour < b < selectedHour + availableTime ==> tableSelected !in SlotList(day, b)
    ensures availableTime < duration ==> tableSelected in SlotList(day, selectedHour + availableTime)
    ensures forall b :: SlotList(day', b) == SlotList(day, b)
    ensures forall b :: b in day' ==> b in day || (selectedHour < b < selectedHour + duration && b <= selectedHour + availableTime)
  {
    day' := day;
    availableTime := 1;
    var checkedHour := selectedHour + 1;
    while checkedHour < selectedHour + duration
      invariant selectedHour < checkedHour
      invariant checkedHour <= selectedHour + duration || checkedHour == selectedHour + 1
      invariant availableTime == checkedHour - selectedHour
      invariant forall b :: selectedHour < b < checkedHour ==> tableSelected !in SlotList(day, b)
      invariant forall b :: b in day' ==> b in day || selectedHour < b < checkedHour
      invariant forall b :: SlotList(day', b) == SlotList(day, b)
      decreases selectedHour + duration - checkedHour
    {
      if checkedHour !in day' {
        day' := day'[checkedHour := []];
      }
      if tableSelected !in day'[checkedHour] {
        availableTime := availableTime + 1;
      } else {
        break;
      }
      checkedHour := checkedHour + 1;
    }
  }

  /**
   Where the walk stops fixes the counter: the blocks it passed are free and
   the block it stopped at, if below the end, is booked.
   */
  lemma WalkCounter(bk: Booked, date: Date, selected: Slot, duration: int, t: Table, checked: Slot)
    requires date in bk
    requires selected < checked <= selected + duration
    requires forall b :: selected < b < checked ==> t !in SlotList(bk[date], b)
    requires checked < selected + duration ==> t in SlotList(bk[date], checked)
    ensures AvailableTime(bk, date, selected, duration, t) == checked - selected
  {
    FreeRunUnique(bk, date, selected + 1, selected + duration, t, checked - selected - 1);
  }

  /** Giving missing blocks of one day an empty list changes no lookup. */
  lemma EmptyListsKeepLookups(bk: Booked, date: Date, day: map<Slot, seq<Table>>)
    requires date in bk
    requires forall b :: SlotList(day, b) == SlotList(bk[date], b)
    ensures forall d, b :: Lookup(bk[date := day], d, b) == Lookup(bk, d, b)
  {
  }
}
