# Booking availability of the pizzeria booking page

A Dafny model of the table-availability logic of the booking page
(`src/js/components/Booking.js`): the occupancy map `booked[date][hour]`
that lists the tables taken at each half-hour block, how it is rebuilt
from downloaded bookings and events (daily events expanded over the
date-picker window), how the page decides whether a table is shown as
booked, the submit-time check that a table stays free for the requested
duration before closing, the optimistic fold of an accepted reservation
back into the map, and the list of chosen starters.

Units. A date is a day number: the page keys the map by
`utils.dateToStr(date)`, which is taken to be injective, and steps days with
`utils.addDays(date, 1)`, which is `+ 1`. An hour is a count of half-hours
since midnight (12:30 is block 25), so `utils.hourToNumber` and the page's
`+= 0.5` steps become integers and `+ 1`; a duration is a count of half-hour
blocks. The closing hour is a whole hour, so "closing minus selected hour"
is `2 * close - selected` in blocks. Tables are integers.

Files:

- `occupancy.dfy`, module `Occupancy`: the map as a value. `Lookup` and
  `IsBooked` read it (a missing date or block means free); `MarkSlots` and
  `Mark` describe one `makeBooked` call; `MarkAll`, `DailyDates`,
  `MarkDates`, `MarkRepeats` and `Build` describe a whole `parseData`. The
  lemmas characterise exactly which tables a rebuilt map lists.
- `validation.dfy`, module `Validation`: the verdict of `ishoursAmoutCorrect`
  as functions (`FreeRun`, `AvailableTime`, `Accepts`) and lemmas about it.
- `starters.dfy`, module `Starters`: `indexOf` and the starter toggle.
- `booking.dfy`, module `BookingPage`: the class `Booking` with the fields
  `booked` and `starters`, whose methods change them in place as the page's
  handlers do, each proved against the functions above. The submit-time
  walk is `CheckBlocks`, a method over the selected day's map whose result
  `HoursAmountCorrect` writes back into the field.

The starter toggle removes a starter with `splice(index)` and no count,
which cuts the list off at that index. The model follows the code: unticking
a starter drops it and every starter chosen after it (`Starters.Toggled`,
`Starters.UntickTruncates`); it does not remove just the one element.

A repeating event whose `repeat` is anything other than "daily" is skipped
entirely by the rebuild: it is not marked on a date of its own either
(`Occupancy.MarkRepeatsMembers`). Marking pushes onto a list rather than
inserting into a set, so two records covering the same table and block list
it twice (`Occupancy.MarkAt`); only membership decides booked or free.

The submit-time check never looks at the selected block itself: its walk
starts one block later, and the counter starts at one block. The model keeps
this (`Validation.FirstBlockUnchecked` shows a table listed at the selected
block that is still accepted).

## Model

| member | source | states |
|---|---|---|
| `Occupancy.IsBooked` | src/js/components/Booking.js:110-132 | a table is booked at (date, block) iff the date entry and the block entry exist and the list holds it; a missing entry means free |
| `Occupancy.MarkSlotsAt` | src/js/components/Booking.js:97-102 | marking a day's blocks `[start, end)` creates each missing block entry, appends the table to each covered list and leaves every other block as it was |
| `Occupancy.Mark` | src/js/components/Booking.js:88-103 | after one booking the date entry exists, the date keys grow by that date only, and every other date is unchanged |
| `Occupancy.MarkAt` | src/js/components/Booking.js:91-102 | after one booking every covered block exists and holds its old list plus the table (old list a prefix, one shorter, duplicates kept); every other block reads as before and no uncovered block is created |
| `Occupancy.DailyDates` | src/js/components/Booking.js:79 | the daily expansion visits `maxDate - minDate + 1` days (none when the window is empty), the i-th being `minDate + i`, so ascending |
| `Occupancy.DailyDatesMembers` | src/js/components/Booking.js:79 | a day is visited by the daily expansion iff it lies in `[minDate, maxDate]` |
| `Occupancy.MarkAllMembers` | src/js/components/Booking.js:67-72 | after marking a list of records, a table is listed at (d, b) iff it was before or some record dated d covers b for that table |
| `Occupancy.MarkDatesMembers` | src/js/components/Booking.js:79-81 | after marking one event on a list of days, a table is listed at (d, b) iff it was before or d is one of the days and the event covers b for it |
| `Occupancy.MarkRepeatsMembers` | src/js/components/Booking.js:77-83 | after the repeating-event loop, a table is listed at (d, b) iff it was before or d is in the window and some event whose repeat is "daily" covers b for it; other repeat values add nothing |
| `Occupancy.BuildMembers` | src/js/components/Booking.js:64-83 | after a rebuild a table is booked at (d, b) iff a booking or one-off event dated d covers b for it, or a daily event covers b for it and d is in `[minDate, maxDate]`; earlier map contents play no part |
| `Occupancy.BuildOrderIndependent` | src/js/components/Booking.js:67-83 | reordering the three downloaded record lists changes no booked/free answer |
| `Validation.FreeRun` | src/js/components/Booking.js:228-237 | the walk's run of free blocks: every block of it is free, it stops before the end, and the block right after it, if below the end, is booked |
| `Validation.AvailableTime` | src/js/components/Booking.js:224-237 | the counter is at least one block, at most the duration for a request of at least one block, every block after the selected one below its end is free for the table, and when it falls short the block at its end is booked for the table |
| `Validation.Accepts` | src/js/components/Booking.js:220-248 | the request is refused whenever it runs past closing, whatever the occupancy; otherwise accepted iff every block after the selected one, below selected + duration, is free for the table |
| `Validation.AllFreeCounter` | src/js/components/Booking.js:224-238 | for a request of at least one block, when all checked blocks are free the counter ends at exactly the requested duration |
| `Validation.FirstBlockUncheckedAll` | src/js/components/Booking.js:228 | for every map and request, listing the table at the selected block beforehand changes no verdict: the walk starts one block later |
| `Validation.FirstBlockUnchecked` | src/js/components/Booking.js:228 | a witness: a table already listed at the selected block is accepted when the later blocks are free |
| `Starters.IndexOf` | src/js/components/Booking.js:200-203 | `indexOf`: -1 iff the value is absent, otherwise the position of its first occurrence |
| `Starters.Toggled` | src/js/components/Booking.js:200-204 | an absent value is appended at the end; a present one leaves exactly the proper prefix before its first occurrence, which no longer holds it |
| `Starters.ToggleTwiceRestores` | src/js/components/Booking.js:200-204 | ticking then unticking a starter that was not chosen gives back the original list |
| `Starters.UntickTruncates` | src/js/components/Booking.js:203 | unticking the first of two chosen starters empties the list, so re-ticking it does not restore the second |
| `BookingPage.Booking.constructor` | src/js/components/Booking.js:195 | a page starts with no starter chosen and nothing booked |
| `BookingPage.Booking.MakeBooked` | src/js/components/Booking.js:88-103 | the map after the in-place loop is the marked map of `Occupancy.Mark` |
| `BookingPage.Booking.ParseData` | src/js/components/Booking.js:64-87 | the map is reset and rebuilt, ending as `Occupancy.Build` of the three lists and the window |
| `BookingPage.Booking.MarkRecords` | src/js/components/Booking.js:67-72 | the loop over bookings or one-off events leaves the map marked with each record in order |
| `BookingPage.Booking.MarkRepeatEvents` | src/js/components/Booking.js:77-83 | the loop over repeating events marks each daily event over the window and skips the others, ending as `Occupancy.MarkRepeats` |
| `BookingPage.Booking.MarkDaily` | src/js/components/Booking.js:79-81 | the loop over dates marks one daily event on each day from `minDate` to `maxDate` in ascending order, ending as `Occupancy.MarkDates` over `Occupancy.DailyDates` |
| `BookingPage.Booking.UpdateDOM` | src/js/components/Booking.js:110-132 | one flag per table on the page, set iff the table is in the list at (date, hour), with missing entries meaning free |
| `BookingPage.Booking.HoursAmountCorrect` | src/js/components/Booking.js:220-248 | returns the `Validation.Accepts` verdict on the map as it was; needs the date's entry only when the walk runs; inserts empty lists only for blocks the walk visited (after the selected one, below its end, up to the block where it stopped), which change no lookup, and adds no date |
| `BookingPage.CheckBlocks` | src/js/components/Booking.js:224-237 | the walk over one day: the counter starts at one block, every block it passed is free for the table, and if it stopped short of the duration the block it stopped at lists the table; the new lists read as the old ones and only visited blocks gain an entry |
| `BookingPage.WalkCounter` | src/js/components/Booking.js:228-237 | where the walk stops fixes the counter at `Validation.AvailableTime` |
| `BookingPage.Booking.SendReservation` | src/js/components/Booking.js:249-281 | the payload carries date, hour, table, no repeat, duration, people and a copy of the starters; the map gains the reservation as `Occupancy.Mark` |
| `BookingPage.Booking.Submit` | src/js/components/Booking.js:209-217 | the result is the `Validation.Accepts` verdict; an accepted request is folded into the map and adds its date to the map's dates, a refused one changes no lookup and adds no date; the date needs an entry only when the walk runs |
| `BookingPage.Booking.ToggleStarter` | src/js/components/Booking.js:196-206 | the starters become `Starters.Toggled` of the old list and the value |

## Left out

- `getData` (src/js/components/Booking.js:15-63): URL building and the three fetches; the downloaded arrays are parameters of `ParseData`, and the date-picker window `minDate`/`maxDate` is a parameter too.
- The POST in `sendReservation` (src/js/components/Booking.js:268-279): network I/O; only the payload and the local fold into the map are modelled.
- `render`, `initWidgets`, the class toggling in `updateDOM` and `initActions`, the table click handler and the `window.alert` messages: DOM and UI; `UpdateDOM` returns the booked flags instead of setting CSS classes, and the check returns a boolean. The date, hour, table, duration, people count and closing hour that the page reads from its widgets and settings are parameters.
- The call to `updateDOM` and the console logging at the end of `parseData`: UI.
- `utils.hourToNumber`, `utils.dateToStr`, `utils.addDays`: utils.js is not part of this model; hours arrive already as block numbers and dates as day numbers, which is what those helpers are taken to compute. Hour strings and calendar arithmetic are therefore not modelled.
- Durations are whole numbers of half-hour blocks. The page takes `hoursAmount.value` as hours (and in `sendReservation` passes it to `makeBooked` without `parseFloat`); a value that is not a multiple of 0.5, or a string, is not modelled.
- `BookingPage.Booking.HoursAmountCorrect` requires the selected date to have an entry in the map only when the closing check passes and the request is longer than one block: only then does the page reach `booked[date][checkedHour]` (src/js/components/Booking.js:229), which throws on a date with no entry. A request past closing, or of one block, is handled on any date.
- `BookingPage.Booking.Submit` carries the same requirement, for the same reason.
- `BookingPage.Booking.SendReservation`: the payload's `address` and `phone` fields (src/js/components/Booking.js:262-263) are not modelled; the page puts the input elements themselves there, not their values, so what gets posted for them depends on how the elements serialise.
- Before any table is clicked the page's selected table is `undefined` (src/js/components/Booking.js:188-189). A first reservation made that way is accepted when no list holds `undefined`, and `undefined` is then pushed into every block it covers (src/js/components/Booking.js:280); a later request made before any click whose blocks after the selected one overlap it finds it with `indexOf` and is refused. The model has only integer tables and mirrors this when the caller passes one integer never used as a table id, which behaves the same way: accepted first, refused once it is listed.
- Table ids in the page's markup that are not numbers: the model has integer tables only. `updateDOM` keeps such an id as a string (src/js/components/Booking.js:122-124), but the click handler always applies `parseInt` (src/js/components/Booking.js:189), so a non-numeric id becomes `NaN` and an id such as "2b" becomes 2. `indexOf(NaN)` never matches (src/js/components/Booking.js:232), so a `NaN` table is never refused and `NaN` is pushed into the map, while `includes` in `updateDOM` never shows that table as booked; for "2b" the check and the flags look at different ids (2 and "2b"). None of this is modelled.
- `src/js/app.js`: product download, menu and cart set-up, outside the booking logic.
- The map before the first download is `undefined` in the page; the constructor starts it empty.
