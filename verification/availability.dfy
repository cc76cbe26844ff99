/** The `availability` table and the three server actions on it
    (`app/dashboard/interpreter/availability/actions.ts`): the signed-in
    interpreter's slots in a date range, any interpreter's slots for a
    client, and setting one hourly slot on or off. The table is a value;
    the signed-in user, the identifier the store assigns to a new row and
    the outcome of the store call are parameters. */
module Availability {
  import opened Wrappers
  import opened Text
  import opened Seqs
  import opened Forms

  /** One row of `availability`. Dates are `yyyy-MM-dd` text and times
      `hh:mm:ss` text, compared the way the store compares them. */
  datatype Row = Row(id: string, interpreterId: string, date: string,
                     startTime: string, endTime: string, isBooked: bool)

  type Table = seq<Row>

  // ---------------------------------------------------------------------
  // Slot times
  // ---------------------------------------------------------------------

  /** `hour.toString().padStart(2, '0')`. */
  function HourText(hour: int): string {
    PadStart(IntToString(hour), 2, '0')
  }

  /** The start time written for the slot beginning at `hour`. */
  function SlotStart(hour: int): string {
    HourText(hour) + ":00:00"
  }

  /** The end time written for the slot beginning at `hour`: one hour later. */
  function SlotEnd(hour: int): string {
    SlotStart(hour + 1)
  }

  /** The hour a view reads back from a start time:
      `parseInt(startTime.split(':')[0], 10)`, `None` for NaN. */
  function HourOf(startTime: string): Option<int> {
    ParseInt(BeforeFirst(startTime, ':'))
  }

  /** The views read back the hour the action wrote, for every integer hour,
      and a slot ends at the hour after it starts. */
  lemma SlotTimesRoundTrip(hour: int)
    ensures HourOf(SlotStart(hour)) == Some(hour)
    ensures HourOf(SlotEnd(hour)) == Some(hour + 1)
  {
    IntTextHasNoColon(hour);
    IntTextHasNoColon(hour + 1);
    BeforeFirstOfConcat(HourText(hour), ":00:00", ':');
    BeforeFirstOfConcat(HourText(hour + 1), ":00:00", ':');
    IntPadParseRoundTrip(hour);
    IntPadParseRoundTrip(hour + 1);
  }

  /** Distinct hours are written as distinct start times. */
  lemma SlotStartInjective(h1: int, h2: int)
    requires SlotStart(h1) == SlotStart(h2)
    ensures h1 == h2
  {
    SlotTimesRoundTrip(h1);
    SlotTimesRoundTrip(h2);
  }

  // ---------------------------------------------------------------------
  // Reading
  // ---------------------------------------------------------------------

  /** `.gte("date", startDate).lte("date", endDate)`. */
  predicate InRange(date: string, startDate: string, endDate: string) {
    StrLe(startDate, date) && StrLe(date, endDate)
  }

  /** The rows of `interpreterId` dated within the inclusive range, in table order. */
  function RangeQuery(t: Table, interpreterId: string, startDate: string, endDate: string): (r: seq<Row>)
    ensures forall row :: row in r <==> row in t && row.interpreterId == interpreterId && InRange(row.date, startDate, endDate)
  {
    Filter(t, (row: Row) => row.interpreterId == interpreterId && InRange(row.date, startDate, endDate))
  }

  /** The query repeats no row more often than the table holds it. */
  lemma RangeQueryKeepsCounts(t: Table, interpreterId: string, startDate: string, endDate: string)
    ensures multiset(RangeQuery(t, interpreterId, startDate, endDate)) <= multiset(t)
  {
    FilterSubMultiset(t, (row: Row) => row.interpreterId == interpreterId && InRange(row.date, startDate, endDate));
  }

  /** `getAvailability`: the signed-in interpreter's own slots in the range. */
  function GetAvailability(t: Table, user: Option<string>, startDate: string, endDate: string,
                           dbError: Option<string>): (r: Result<seq<Row>>)
    ensures user.None? ==> r == Failure(NotAuthenticated)
    ensures user.Some? && dbError.Some? ==> r == Failure(dbError.value)
    ensures user.Some? && dbError.None? ==> r == Success(RangeQuery(t, user.value, startDate, endDate))
    ensures r.Success? ==> user.Some?
    ensures r.Success? ==>
      forall row :: row in r.value <==> row in t && row.interpreterId == user.value && InRange(row.date, startDate, endDate)
  {
    if user.None? then Failure(NotAuthenticated)
    else if dbError.Some? then Failure(dbError.value)
    else Success(RangeQuery(t, user.value, startDate, endDate))
  }

  /** `getPublicAvailability`: any interpreter's slots in the range, with no
      sign-in check. */
  function GetPublicAvailability(t: Table, interpreterId: string, startDate: string, endDate: string,
                                 dbError: Option<string>): (r: Result<seq<Row>>)
    ensures r.Failure? <==> dbError.Some?
    ensures r.Success? ==>
      forall row :: row in r.value <==> row in t && row.interpreterId == interpreterId && InRange(row.date, startDate, endDate)
  {
    if dbError.Some? then Failure(dbError.value)
    else Success(RangeQuery(t, interpreterId, startDate, endDate))
  }

  // ---------------------------------------------------------------------
  // setSlotAvailability
  // ---------------------------------------------------------------------

  /** The filter both branches use: this interpreter, this date, this start time. */
  predicate Matches(row: Row, interpreterId: string, date: string, startTime: string) {
    row.interpreterId == interpreterId && row.date == date && row.startTime == startTime
  }

  predicate HasSlot(t: Table, interpreterId: string, date: string, startTime: string) {
    exists row :: row in t && Matches(row, interpreterId, date, startTime)
  }

  /** The row inserted for a new slot. */
  function NewSlot(id: string, interpreterId: string, date: string, hour: int): Row {
    Row(id, interpreterId, date, SlotStart(hour), SlotEnd(hour), false)
  }

  /** The rows the existence check of `setSlotAvailability` selects. */
  function MatchingRows(t: Table, interpreterId: string, date: string, startTime: string): (r: seq<Row>)
    ensures forall row :: row in r <==> row in t && Matches(row, interpreterId, date, startTime)
  {
    Filter(t, (row: Row) => Matches(row, interpreterId, date, startTime))
  }

  /** Whether the existence check's `existing` is a row. The action ignores
      the read's error, and `.single()` yields a row only when exactly one
      row matches: a failed read, no matching row and several matching rows
      all leave `existing` null. */
  predicate Found(t: Table, interpreterId: string, date: string, startTime: string, readFailed: bool) {
    !readFailed && |MatchingRows(t, interpreterId, date, startTime)| == 1
  }

  /** `setSlotAvailability(date, hour, isAvailable)`. Making a slot available
      inserts a row unless the existence check finds one (then nothing is
      written and the call succeeds); making it unavailable deletes every
      matching row. `readFailed` is the outcome of the existence check's
      read, `dbError` the outcome of the write, when one is issued. */
  function SetSlotAvailability(t: Table, user: Option<string>, date: string, hour: int, isAvailable: bool,
                               newId: string, readFailed: bool, dbError: Option<string>): (r: Result<Table>)
    ensures user.None? ==> r == Failure(NotAuthenticated)
    ensures r.Failure? && user.Some? ==> dbError.Some? && r.error == dbError.value
    ensures user.Some? && dbError.None? ==> r.Success?
    ensures user.Some? && isAvailable && Found(t, user.value, date, SlotStart(hour), readFailed) ==> r == Success(t)
    ensures r.Success? && isAvailable && !Found(t, user.value, date, SlotStart(hour), readFailed) ==>
      r.value == t + [NewSlot(newId, user.value, date, hour)]
    ensures r.Success? && isAvailable ==>
      HasSlot(r.value, user.value, date, SlotStart(hour)) &&
      (forall row :: row in t ==> row in r.value) &&
      (forall row :: row in r.value && row !in t ==> row == NewSlot(newId, user.value, date, hour))
    ensures r.Success? && !isAvailable ==>
      !HasSlot(r.value, user.value, date, SlotStart(hour)) &&
      forall row :: row in r.value <==> row in t && !Matches(row, user.value, date, SlotStart(hour))
  {
    if user.None? then Failure(NotAuthenticated)
    else
      var start := SlotStart(hour);
      if isAvailable then
        if Found(t, user.value, date, start, readFailed) then
          var m := MatchingRows(t, user.value, date, start);
          assert m[0] in m;
          Success(t)
        else if dbError.Some? then Failure(dbError.value)
        else
          var added := NewSlot(newId, user.value, date, hour);
          assert added in t + [added];
          Success(t + [added])
      else if dbError.Some? then Failure(dbError.value)
      else Success(Filter(t, (row: Row) => !Matches(row, user.value, date, start)))
  }

  /** With no matching row the existence check finds nothing, whatever the
      read's outcome. */
  lemma NotFoundWithoutSlot(t: Table, interpreterId: string, date: string, startTime: string, readFailed: bool)
    requires !HasSlot(t, interpreterId, date, startTime)
    ensures MatchingRows(t, interpreterId, date, startTime) == []
    ensures !Found(t, interpreterId, date, startTime, readFailed)
  {
    assert forall k :: 0 <= k < |t| ==> t[k] in t;
    FilterNone(t, (row: Row) => Matches(row, interpreterId, date, startTime));
  }

  /** Adding after the existence check found nothing inserts one more
      matching row. */
  lemma AddGrowsMatches(t: Table, user: string, date: string, hour: int, newId: string, readFailed: bool)
    requires !Found(t, user, date, SlotStart(hour), readFailed)
    ensures var r := SetSlotAvailability(t, Some(user), date, hour, true, newId, readFailed, None);
            r.Success? &&
            |MatchingRows(r.value, user, date, SlotStart(hour))| == |MatchingRows(t, user, date, SlotStart(hour))| + 1
  {
    var added := NewSlot(newId, user, date, hour);
    var p := (row: Row) => Matches(row, user, date, SlotStart(hour));
    FilterConcat(t, [added], p);
    assert Filter([added], p) == [added];
  }

  /** Setting a slot to the state it already has changes nothing, provided
      both existence checks read successfully and the table held the slot
      at most once: the second call of a repeated toggle is a no-op. */
  lemma SetSlotIdempotent(t: Table, user: string, date: string, hour: int, isAvailable: bool,
                          id1: string, id2: string)
    requires |MatchingRows(t, user, date, SlotStart(hour))| <= 1
    ensures var once := SetSlotAvailability(t, Some(user), date, hour, isAvailable, id1, false, None);
            once.Success? &&
            SetSlotAvailability(once.value, Some(user), date, hour, isAvailable, id2, false, None) == once
  {
    var once := SetSlotAvailability(t, Some(user), date, hour, isAvailable, id1, false, None);
    if isAvailable {
      if !Found(t, user, date, SlotStart(hour), false) {
        AddGrowsMatches(t, user, date, hour, id1, false);
      }
    } else {
      FilterIdempotent(t, (row: Row) => !Matches(row, user, date, SlotStart(hour)));
    }
  }

  /** Key of a slot: interpreter, date, start time. */
  predicate SameSlot(a: Row, b: Row) {
    a.interpreterId == b.interpreterId && a.date == b.date && a.startTime == b.startTime
  }

  /** No two rows of the table hold the same slot. */
  ghost predicate NoDuplicateSlots(t: Table) {
    Pairwise(t, (a: Row, b: Row) => !SameSlot(a, b))
  }

  /** In a table without duplicate slots a slot the interpreter holds
      matches exactly one row. */
  lemma UniqueMatch(t: Table, interpreterId: string, date: string, startTime: string)
    requires NoDuplicateSlots(t) && HasSlot(t, interpreterId, date, startTime)
    ensures |MatchingRows(t, interpreterId, date, startTime)| == 1
  {
    var m := MatchingRows(t, interpreterId, date, startTime);
    var row :| row in t && Matches(row, interpreterId, date, startTime);
    assert row in m;
    FilterAtMostOne(t, (row: Row) => Matches(row, interpreterId, date, startTime),
                    (a: Row, b: Row) => !SameSlot(a, b));
  }

  /** The existence check keeps a table free of duplicate slots exactly as
      long as it reads successfully: from a table without duplicates a
      successful call leaves one without, except when adding a slot the
      interpreter already holds after a failed read, which inserts a second
      copy of it. */
  lemma SetSlotKeepsNoDuplicates(t: Table, user: Option<string>, date: string, hour: int, isAvailable: bool,
                                 newId: string, readFailed: bool, dbError: Option<string>)
    requires NoDuplicateSlots(t)
    ensures var r := SetSlotAvailability(t, user, date, hour, isAvailable, newId, readFailed, dbError);
            r.Success? ==>
              (NoDuplicateSlots(r.value) <==>
               !(isAvailable && readFailed && HasSlot(t, user.value, date, SlotStart(hour))))
  {
    var r := SetSlotAvailability(t, user, date, hour, isAvailable, newId, readFailed, dbError);
    if r.Success? {
      var u := user.value;
      var start := SlotStart(hour);
      if isAvailable && HasSlot(t, u, date, start) {
        if readFailed {
          FailedReadDuplicatesSlot(t, u, date, hour, newId);
        } else {
          UniqueMatch(t, u, date, start);
        }
      } else if isAvailable {
        NotFoundWithoutSlot(t, u, date, start, readFailed);
        var added := NewSlot(newId, u, date, hour);
        forall i | 0 <= i < |t|
          ensures !SameSlot(t[i], added)
        {
          assert t[i] in t;
        }
        AppendKeepsPairwise(t, added);
      } else {
        FilterKeepsPairwise(t, (row: Row) => !Matches(row, u, date, start), (a: Row, b: Row) => !SameSlot(a, b));
      }
    }
  }

  /** After a failed existence read, adding a slot the interpreter already
      holds stores a second row for it. */
  lemma FailedReadDuplicatesSlot(t: Table, user: string, date: string, hour: int, newId: string)
    requires HasSlot(t, user, date, SlotStart(hour))
    ensures var r := SetSlotAvailability(t, Some(user), date, hour, true, newId, true, None);
            r.Success? && r.value == t + [NewSlot(newId, user, date, hour)] && !NoDuplicateSlots(r.value)
  {
    var r := SetSlotAvailability(t, Some(user), date, hour, true, newId, true, None);
    var row :| row in t && Matches(row, user, date, SlotStart(hour));
    var i :| 0 <= i < |t| && t[i] == row;
    assert r.value[i] == row && r.value[|t|] == NewSlot(newId, user, date, hour);
    assert SameSlot(r.value[i], r.value[|t|]);
  }

  lemma AppendKeepsPairwise(t: Table, added: Row)
    requires NoDuplicateSlots(t)
    requires forall i :: 0 <= i < |t| ==> !SameSlot(t[i], added)
    ensures NoDuplicateSlots(t + [added])
  {
    var r := t + [added];
    forall i, j | 0 <= i < j < |r|
      ensures !SameSlot(r[i], r[j])
    {
      assert r[i] == t[i];
      if j < |t| {
        assert r[j] == t[j];
      }
    }
  }

  /** The rows of one interpreter. */
  function OwnRows(t: Table, interpreterId: string): (r: seq<Row>)
    ensures forall row :: row in r <==> row in t && row.interpreterId == interpreterId
  {
    Filter(t, (row: Row) => row.interpreterId == interpreterId)
  }

  /** Setting a slot touches only the caller's rows: every other
      interpreter's rows, and their order, are unchanged. */
  lemma SetSlotIsolation(t: Table, user: Option<string>, date: string, hour: int, isAvailable: bool,
                         newId: string, readFailed: bool, dbError: Option<string>, other: string)
    requires user.Some? ==> other != user.value
    ensures var r := SetSlotAvailability(t, user, date, hour, isAvailable, newId, readFailed, dbError);
            r.Success? ==> OwnRows(r.value, other) == OwnRows(t, other)
  {
    var r := SetSlotAvailability(t, user, date, hour, isAvailable, newId, readFailed, dbError);
    if r.Success? && r.value != t {
      var u := user.value;
      var start := SlotStart(hour);
      var mine := (row: Row) => row.interpreterId == other;
      if isAvailable {
        var added := NewSlot(newId, u, date, hour);
        FilterConcat(t, [added], mine);
        assert Filter([added], mine) == [];
      } else {
        FilterNarrow(t, (row: Row) => !Matches(row, u, date, start), mine);
      }
    }
  }

  /** Only inserts with `is_booked: false` and deletes reach the table, so
      a slot is never marked booked by these actions. */
  ghost predicate AllUnbooked(t: Table) {
    forall row :: row in t ==> !row.isBooked
  }
}
