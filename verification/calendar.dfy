/** The older day-by-day availability calendar
    (`components/availability-calendar.tsx`): pick a date, list that day's
    slots ordered by start time, add a slot from two `hh:00` pickers, or
    delete one slot by its identifier. It writes straight to the table,
    bypassing `setSlotAvailability`; a read-only calendar does nothing.
    The `start_time` and `end_time` columns have the store's `time` type,
    so a picked "09:00" is read back as "09:00:00". */
module Calendar {
  import opened Wrappers
  import opened Text
  import opened Seqs
  import opened Availability
  import Scheduler

  /** `${i.toString().padStart(2, '0')}:00`, the i-th picker choice. */
  function TimeChoice(i: int): string {
    HourText(i) + ":00"
  }

  /** The 24 picker choices, "00:00" to "23:00". */
  function TimeChoices(): (r: seq<string>)
    ensures |r| == 24
    ensures forall i :: 0 <= i < 24 ==> r[i] == TimeChoice(i)
  {
    seq(24, i => TimeChoice(i))
  }

  const DefaultStartTime := "09:00"
  const DefaultEndTime := "17:00"

  /** The pickers open on 09:00 and 17:00, both among the choices. */
  lemma DefaultsAreChoices()
    ensures DefaultStartTime == TimeChoices()[9]
    ensures DefaultEndTime == TimeChoices()[17]
  {
    assert IntToString(9) == "9";
    assert IntToString(17) == NatToString(1) + [DigitChar(7)];
  }

  /** The text a `time` column reads back for a value written as `hh:mm`:
      the seconds are filled in. Other text is kept as written. */
  function StoredTime(s: string): string {
    if |s| == 5 && s[2] == ':' then s + ":00" else s
  }

  /** An hour of the day is two digits. */
  lemma TwoDigitHour(i: int)
    requires 0 <= i < 24
    ensures HourText(i) == [DigitChar(i / 10), DigitChar(i % 10)]
  {
    if i >= 10 {
      assert NatToString(i / 10) == [DigitChar(i / 10)];
    }
  }

  /** A picked time is stored as the start time `setSlotAvailability`
      writes for that hour, and the views read that hour back from it. */
  lemma PickedTimeIsSlotStart(i: int)
    requires 0 <= i < 24
    ensures StoredTime(TimeChoices()[i]) == SlotStart(i)
    ensures HourOf(StoredTime(TimeChoices()[i])) == Some(i)
  {
    var h, c := HourText(i), TimeChoices()[i];
    TwoDigitHour(i);
    assert |h| == 2;
    assert c == h + ":00";
    assert c + ":00" == h + ":00:00";
    SlotTimesRoundTrip(i);
  }

  /** Stored picker times compare by code unit as their hours compare. */
  lemma PickedTimesOrdered(i: int, j: int)
    requires 0 <= i < 24 && 0 <= j < 24
    ensures StrLe(SlotStart(i), SlotStart(j)) <==> i <= j
  {
    var hi, hj := HourText(i), HourText(j);
    TwoDigitHour(i);
    TwoDigitHour(j);
    var si, sj := hi + ":00:00", hj + ":00:00";
    assert si[0] == hi[0] && si[1..][0] == hi[1] && si[1..][1..] == ":00:00";
    assert sj[0] == hj[0] && sj[1..][0] == hj[1] && sj[1..][1..] == ":00:00";
    StrLeTotal(":00:00", ":00:00");
    DigitCharOrder(i / 10, j / 10);
    DigitCharOrder(i % 10, j % 10);
  }

  lemma DigitCharOrder(a: nat, b: nat)
    requires a < 10 && b < 10
    ensures DigitChar(a) < DigitChar(b) <==> a < b
    ensures DigitChar(a) == DigitChar(b) <==> a == b
  {
  }

  /** `addAvailability`: with a date selected and editing allowed, inserts
      one row with the picked times; the insert omits `is_booked`, which
      takes its column default of false. There is neither a duplicate check
      nor a check that the start precedes the end. */
  function CalendarAdd(t: Table, interpreterId: string, selected: Option<string>, readOnly: bool,
                       startTime: string, endTime: string, newId: string, dbError: Option<string>): (r: Result<Table>)
    ensures selected.None? || readOnly ==> r == Success(t)
    ensures r.Failure? <==> selected.Some? && !readOnly && dbError.Some?
    ensures selected.Some? && !readOnly && dbError.None? ==>
      r == Success(t + [Row(newId, interpreterId, selected.value, StoredTime(startTime), StoredTime(endTime), false)])
  {
    if selected.None? || readOnly then Success(t)
    else if dbError.Some? then Failure(dbError.value)
    else Success(t + [Row(newId, interpreterId, selected.value, StoredTime(startTime), StoredTime(endTime), false)])
  }

  /** `removeAvailability(id)`: deletes the row with that identifier,
      whoever it belongs to; a read-only calendar deletes nothing. */
  function CalendarRemove(t: Table, id: string, readOnly: bool, dbError: Option<string>): (r: Result<Table>)
    ensures readOnly ==> r == Success(t)
    ensures r.Failure? <==> !readOnly && dbError.Some?
    ensures r.Success? && !readOnly ==> forall row :: row in r.value <==> row in t && row.id != id
    ensures r.Success? ==> multiset(r.value) <= multiset(t)
  {
    if readOnly then Success(t)
    else if dbError.Some? then Failure(dbError.value)
    else
      var keep := (row: Row) => row.id != id;
      FilterSubMultiset(t, keep);
      Success(Filter(t, keep))
  }

  /** The order `.order("start_time")` lists a day's rows in. */
  predicate ByStartTime(a: Row, b: Row) {
    StrLe(a.startTime, b.startTime)
  }

  lemma ByStartTimeTotal()
    ensures Total(ByStartTime)
  {
    forall a: Row, b: Row
      ensures ByStartTime(a, b) || ByStartTime(b, a)
    {
      StrLeTotal(a.startTime, b.startTime);
    }
  }

  /** `fetchAvailability(date)`: the interpreter's rows of that day, ordered
      by start time; a failed read keeps the list shown before. */
  function DayListing(t: Table, interpreterId: string, date: string, shown: seq<Row>,
                      dbError: Option<string>): (r: seq<Row>)
    ensures dbError.Some? ==> r == shown
    ensures dbError.None? ==> Sorted(r, ByStartTime)
    ensures dbError.None? ==>
      multiset(r) == multiset(Filter(t, (row: Row) => row.interpreterId == interpreterId && row.date == date))
    ensures dbError.None? ==>
      forall row :: row in r <==> row in t && row.interpreterId == interpreterId && row.date == date
  {
    if dbError.Some? then shown
    else
      ByStartTimeTotal();
      var day := Filter(t, (row: Row) => row.interpreterId == interpreterId && row.date == date);
      var r := SortBy(day, ByStartTime);
      assert forall row :: row in r <==> row in multiset(r);
      r
  }

  /** The calendar bypasses the existence check of `setSlotAvailability`:
      picking an hour the interpreter already holds stores a second copy. */
  lemma CalendarAddDuplicates(t: Table, interpreterId: string, date: string, hour: int,
                              endTime: string, newId: string)
    requires 0 <= hour < 24 && HasSlot(t, interpreterId, date, SlotStart(hour))
    ensures var r := CalendarAdd(t, interpreterId, Some(date), false, TimeChoices()[hour], endTime, newId, None);
            r.Success? && !NoDuplicateSlots(r.value)
  {
    PickedTimeIsSlotStart(hour);
    var r := CalendarAdd(t, interpreterId, Some(date), false, TimeChoices()[hour], endTime, newId, None);
    var row :| row in t && Matches(row, interpreterId, date, SlotStart(hour));
    var i :| 0 <= i < |t| && t[i] == row;
    assert r.value[i] == row && r.value[|t|] == Row(newId, interpreterId, date, SlotStart(hour), StoredTime(endTime), false);
  }

  /** Nor does anything stop a slot that ends before it starts: picking an
      end hour earlier than the start hour stores a row whose end sorts
      before its start. */
  lemma CalendarAcceptsBackwardSlot(t: Table, interpreterId: string, date: string, newId: string,
                                    startHour: int, endHour: int)
    requires 0 <= endHour < startHour < 24
    ensures var r := CalendarAdd(t, interpreterId, Some(date), false, TimeChoices()[startHour],
                                 TimeChoices()[endHour], newId, None);
            && r.Success?
            && r.value[|t|] == Row(newId, interpreterId, date, SlotStart(startHour), SlotStart(endHour), false)
            && !StrLe(r.value[|t|].startTime, r.value[|t|].endTime)
  {
    PickedTimeIsSlotStart(startHour);
    PickedTimeIsSlotStart(endHour);
    PickedTimesOrdered(startHour, endHour);
  }

  /** Rows added from the pickers have the shape the week editor writes, so
      a calendar add keeps an interpreter's rows well formed for it. */
  lemma CalendarAddKeepsWellFormed(t: Table, interpreterId: string, date: string, hour: int, endTime: string,
                                   newId: string, dbError: Option<string>)
    requires 0 <= hour < 24 && ':' !in date && Scheduler.WellFormedFor(t, interpreterId)
    ensures var r := CalendarAdd(t, interpreterId, Some(date), false, TimeChoices()[hour], endTime, newId, dbError);
            r.Success? ==> Scheduler.WellFormedFor(r.value, interpreterId)
  {
    PickedTimeIsSlotStart(hour);
  }

  /** Adding and removing through the calendar never books a slot. */
  lemma CalendarKeepsUnbooked(t: Table, interpreterId: string, selected: Option<string>, readOnly: bool,
                              startTime: string, endTime: string, id: string, dbError: Option<string>)
    requires AllUnbooked(t)
    ensures var r := CalendarAdd(t, interpreterId, selected, readOnly, startTime, endTime, id, dbError);
            r.Success? ==> AllUnbooked(r.value)
    ensures var r := CalendarRemove(t, id, readOnly, dbError);
            r.Success? ==> AllUnbooked(r.value)
  {
  }
}
