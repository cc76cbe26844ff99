/** The interpreter's weekly availability editor
    (`components/availability-scheduler.tsx`). The editor keeps the set of
    lit cell keys of the shown week; a click or drag over a cell lights it
    (mode add) or clears it (mode remove) at once, writes to the server only
    when the cell's state actually changes, and reloads the week from the
    server when that write fails. */
module Scheduler {
  import opened Wrappers
  import opened Text
  import opened Seqs
  import opened Availability
  import opened Slots

  datatype Mode = Add | Remove

  /** The keys the editor shows for the signed-in interpreter's week. */
  function ServerKeys(t: Table, user: string, weekStart: string, weekEnd: string): set<string> {
    LoadKeys(RangeQuery(t, user, weekStart, weekEnd))
  }

  /** `fetchAvailability`: a successful read replaces the lit keys with the
      keys of the rows read; a failed one leaves them as they were. */
  function Reload(current: set<string>, result: Result<seq<Row>>): (r: set<string>)
    ensures result.Failure? ==> r == current
    ensures result.Success? ==> forall k :: k in r <==> exists row :: row in result.value && RowKey(row) == k
  {
    match result
    case Success(rows) => LoadKeys(rows)
    case Failure(_) => current
  }

  /** The editor state after the optimistic update, and the write it issues. */
  datatype Toggle = Toggle(slots: set<string>, write: Option<bool>)

  /** `toggleSlot(date, hour)`: the clicked cell ends lit exactly in add
      mode, no other cell changes, and a write carrying the new state is
      issued exactly when the cell's state changed. */
  function ToggleSlot(slots: set<string>, date: string, hour: int, mode: Mode): (r: Toggle)
    ensures SlotKey(date, hour) in r.slots <==> mode == Add
    ensures forall k :: k != SlotKey(date, hour) ==> (k in r.slots <==> k in slots)
    ensures r.write.Some? <==> (SlotKey(date, hour) in slots) != (mode == Add)
    ensures r.write.Some? ==> r.write.value == (mode == Add)
  {
    var key := SlotKey(date, hour);
    var isCurrentlyAvailable := key in slots;
    var shouldBeAvailable := mode == Add;
    var newSlots := if shouldBeAvailable then slots + {key} else slots - {key};
    Toggle(newSlots, if isCurrentlyAvailable != shouldBeAvailable then Some(shouldBeAvailable) else None)
  }

  /** What the editor shows and what the server holds after one toggle. */
  datatype Screen = Screen(slots: set<string>, table: Table)

  /** One toggle end to end: the optimistic update, the server write when
      one is issued (`readFailed` is the outcome of its existence check and
      `writeError` that of the write), and the reload of the week
      after a failed write (`reloadError` is the outcome of that read). */
  function SchedulerToggle(slots: set<string>, t: Table, user: Option<string>, date: string, hour: int,
                           mode: Mode, newId: string, readFailed: bool, writeError: Option<string>,
                           weekStart: string, weekEnd: string, reloadError: Option<string>): Screen
  {
    var toggled := ToggleSlot(slots, date, hour, mode);
    match toggled.write
    case None => Screen(toggled.slots, t)
    case Some(available) =>
      match SetSlotAvailability(t, user, date, hour, available, newId, readFailed, writeError)
      case Success(t') => Screen(toggled.slots, t')
      case Failure(_) => Screen(Reload(toggled.slots, GetAvailability(t, user, weekStart, weekEnd, reloadError)), t)
  }

  /** A row whose start time is the `hh:00:00` text of the hour read from it,
      as every row the editor writes is. */
  predicate CanonicalStart(row: Row) {
    var h := HourOf(row.startTime);
    h.Some? && row.startTime == SlotStart(h.value)
  }

  /** The rows of `user` have colon-free dates and canonical start times. */
  ghost predicate WellFormedFor(t: Table, user: string) {
    forall row :: row in t && row.interpreterId == user ==> ':' !in row.date && CanonicalStart(row)
  }

  /** For a well-formed row, lighting the cell and matching the slot filter
      of `setSlotAvailability` are the same thing. */
  lemma KeyMatchesFilter(row: Row, user: string, date: string, hour: int)
    requires row.interpreterId == user && ':' !in row.date && CanonicalStart(row) && ':' !in date
    ensures RowKey(row) == SlotKey(date, hour) <==> Matches(row, user, date, SlotStart(hour))
  {
    RowKeyIsSlotKey(row, date, hour);
    SlotTimesRoundTrip(hour);
  }

  /** The lit key of the clicked cell is on the server exactly when the
      server holds a matching slot. */
  lemma ServerKeyIffSlot(t: Table, user: string, date: string, hour: int, weekStart: string, weekEnd: string)
    requires WellFormedFor(t, user) && ':' !in date && InRange(date, weekStart, weekEnd)
    ensures SlotKey(date, hour) in ServerKeys(t, user, weekStart, weekEnd) <==> HasSlot(t, user, date, SlotStart(hour))
  {
    var key := SlotKey(date, hour);
    if key in ServerKeys(t, user, weekStart, weekEnd) {
      var row :| row in RangeQuery(t, user, weekStart, weekEnd) && RowKey(row) == key;
      KeyMatchesFilter(row, user, date, hour);
    }
    if HasSlot(t, user, date, SlotStart(hour)) {
      var row :| row in t && Matches(row, user, date, SlotStart(hour));
      KeyMatchesFilter(row, user, date, hour);
      assert row in RangeQuery(t, user, weekStart, weekEnd);
    }
  }

  /** After an insert the week's keys gain exactly the clicked cell. */
  lemma InsertAddsKey(t: Table, user: string, date: string, hour: int, newId: string,
                      weekStart: string, weekEnd: string)
    requires ':' !in date && InRange(date, weekStart, weekEnd)
    ensures ServerKeys(t + [NewSlot(newId, user, date, hour)], user, weekStart, weekEnd)
         == ServerKeys(t, user, weekStart, weekEnd) + {SlotKey(date, hour)}
  {
    var added := NewSlot(newId, user, date, hour);
    var before := RangeQuery(t, user, weekStart, weekEnd);
    var after := RangeQuery(t + [added], user, weekStart, weekEnd);
    assert forall row :: row in t + [added] <==> row in t || row == added;
    LoadKeysGrow(before, after, added);
    SlotTimesRoundTrip(hour);
    assert RowKey(added) == SlotKey(date, hour);
  }

  /** The table left by deleting the clicked slot. */
  function Deleted(t: Table, user: string, date: string, hour: int): (r: Table)
    ensures forall row :: row in r <==> row in t && !Matches(row, user, date, SlotStart(hour))
  {
    Filter(t, (row: Row) => !Matches(row, user, date, SlotStart(hour)))
  }

  /** After a delete the week's keys lose exactly the clicked cell. */
  lemma DeleteRemovesKey(t: Table, user: string, date: string, hour: int, weekStart: string, weekEnd: string)
    requires WellFormedFor(t, user) && ':' !in date
    ensures ServerKeys(Deleted(t, user, date, hour), user, weekStart, weekEnd)
         == ServerKeys(t, user, weekStart, weekEnd) - {SlotKey(date, hour)}
  {
    var before := RangeQuery(t, user, weekStart, weekEnd);
    var after := RangeQuery(Deleted(t, user, date, hour), user, weekStart, weekEnd);
    forall row | row in before
      ensures row in after <==> RowKey(row) != SlotKey(date, hour)
    {
      KeyMatchesFilter(row, user, date, hour);
    }
    LoadKeysShrink(before, after, SlotKey(date, hour));
  }

  lemma InsertKeepsWellFormed(t: Table, user: string, date: string, hour: int, newId: string)
    requires WellFormedFor(t, user) && ':' !in date
    ensures WellFormedFor(t + [NewSlot(newId, user, date, hour)], user)
  {
    SlotTimesRoundTrip(hour);
  }

  /** The server write of a toggle that changed the cell, when it succeeds:
      the week's keys become exactly the editor's keys. */
  lemma WriteKeepsEditorInSync(slots: set<string>, t: Table, user: string, date: string, hour: int,
                               mode: Mode, newId: string, readFailed: bool, weekStart: string, weekEnd: string)
    requires slots == ServerKeys(t, user, weekStart, weekEnd)
    requires WellFormedFor(t, user) && ':' !in date && InRange(date, weekStart, weekEnd)
    requires ToggleSlot(slots, date, hour, mode).write.Some?
    ensures var written := SetSlotAvailability(t, Some(user), date, hour, mode == Add, newId, readFailed, None);
            written.Success? &&
            ToggleSlot(slots, date, hour, mode).slots == ServerKeys(written.value, user, weekStart, weekEnd) &&
            WellFormedFor(written.value, user)
  {
    var toggled := ToggleSlot(slots, date, hour, mode);
    ServerKeyIffSlot(t, user, date, hour, weekStart, weekEnd);
    if mode == Add {
      NotFoundWithoutSlot(t, user, date, SlotStart(hour), readFailed);
      InsertAddsKey(t, user, date, hour, newId, weekStart, weekEnd);
      InsertKeepsWellFormed(t, user, date, hour, newId);
    } else {
      DeleteRemovesKey(t, user, date, hour, weekStart, weekEnd);
    }
  }

  /** The optimistic update never lies for long: when the editor shows
      exactly the server's keys of the week before a toggle inside that
      week, it shows exactly the server's keys after it, whether the write
      succeeded or failed and was reverted by the reload (unless both the
      write and the reload failed). A successful write leaves the clicked
      cell lit exactly in add mode, and the interpreter's rows stay well
      formed. */
  lemma ToggleKeepsEditorInSync(slots: set<string>, t: Table, user: string, date: string, hour: int,
                                mode: Mode, newId: string, readFailed: bool, writeError: Option<string>,
                                weekStart: string, weekEnd: string, reloadError: Option<string>)
    requires slots == ServerKeys(t, user, weekStart, weekEnd)
    requires WellFormedFor(t, user) && ':' !in date && InRange(date, weekStart, weekEnd)
    requires writeError.None? || reloadError.None?
    ensures var s := SchedulerToggle(slots, t, Some(user), date, hour, mode, newId, readFailed, writeError,
                                     weekStart, weekEnd, reloadError);
            s.slots == ServerKeys(s.table, user, weekStart, weekEnd) &&
            WellFormedFor(s.table, user) &&
            (writeError.None? ==> (SlotKey(date, hour) in s.slots <==> mode == Add))
  {
    var toggled := ToggleSlot(slots, date, hour, mode);
    assert EditorInSync(slots, t, user, date, weekStart, weekEnd);
    if toggled.write.None? {
      UnchangedToggleInSync(slots, t, user, date, hour, mode, newId, readFailed, writeError, weekStart, weekEnd, reloadError);
    } else if writeError.None? {
      WrittenToggleInSync(slots, t, user, date, hour, mode, newId, readFailed, weekStart, weekEnd, reloadError);
    } else {
      RevertedToggleInSync(slots, t, user, date, hour, mode, newId, readFailed, writeError.value, weekStart, weekEnd);
    }
  }

  /** The editor shows the server's keys of the week, and the clicked date
      lies in that week. */
  ghost predicate EditorInSync(slots: set<string>, t: Table, user: string, date: string,
                               weekStart: string, weekEnd: string) {
    slots == ServerKeys(t, user, weekStart, weekEnd) &&
    WellFormedFor(t, user) && ':' !in date && InRange(date, weekStart, weekEnd)
  }

  lemma UnchangedToggleInSync(slots: set<string>, t: Table, user: string, date: string, hour: int,
                              mode: Mode, newId: string, readFailed: bool, writeError: Option<string>,
                              weekStart: string, weekEnd: string, reloadError: Option<string>)
    requires EditorInSync(slots, t, user, date, weekStart, weekEnd)
    requires ToggleSlot(slots, date, hour, mode).write.None?
    ensures SchedulerToggle(slots, t, Some(user), date, hour, mode, newId, readFailed, writeError,
                            weekStart, weekEnd, reloadError) == Screen(slots, t)
    ensures SlotKey(date, hour) in slots <==> mode == Add
  {
    var toggled := ToggleSlot(slots, date, hour, mode);
    assert toggled.slots == slots by {
      forall k | k in slots
        ensures k in toggled.slots
      {
      }
    }
  }

  lemma WrittenToggleInSync(slots: set<string>, t: Table, user: string, date: string, hour: int,
                            mode: Mode, newId: string, readFailed: bool, weekStart: string, weekEnd: string,
                            reloadError: Option<string>)
    requires EditorInSync(slots, t, user, date, weekStart, weekEnd)
    requires ToggleSlot(slots, date, hour, mode).write.Some?
    ensures var s := SchedulerToggle(slots, t, Some(user), date, hour, mode, newId, readFailed, None,
                                     weekStart, weekEnd, reloadError);
            s.slots == ServerKeys(s.table, user, weekStart, weekEnd) &&
            WellFormedFor(s.table, user) &&
            (SlotKey(date, hour) in s.slots <==> mode == Add)
  {
    WriteKeepsEditorInSync(slots, t, user, date, hour, mode, newId, readFailed, weekStart, weekEnd);
    var written := SetSlotAvailability(t, Some(user), date, hour, mode == Add, newId, readFailed, None);
    assert SchedulerToggle(slots, t, Some(user), date, hour, mode, newId, readFailed, None, weekStart, weekEnd, reloadError)
        == Screen(ToggleSlot(slots, date, hour, mode).slots, written.value);
  }

  lemma RevertedToggleInSync(slots: set<string>, t: Table, user: string, date: string, hour: int,
                             mode: Mode, newId: string, readFailed: bool, writeError: string, weekStart: string, weekEnd: string)
    requires EditorInSync(slots, t, user, date, weekStart, weekEnd)
    requires ToggleSlot(slots, date, hour, mode).write.Some?
    ensures var s := SchedulerToggle(slots, t, Some(user), date, hour, mode, newId, readFailed, Some(writeError),
                                     weekStart, weekEnd, None);
            s == Screen(slots, t)
  {
    FailedWriteIsReverted(slots, t, user, date, hour, mode, newId, readFailed, writeError, weekStart, weekEnd);
  }

  /** A failed write leaves the table as it was and the reload puts the
      server's keys back on screen. */
  lemma FailedWriteIsReverted(slots: set<string>, t: Table, user: string, date: string, hour: int,
                              mode: Mode, newId: string, readFailed: bool, writeError: string, weekStart: string, weekEnd: string)
    requires slots == ServerKeys(t, user, weekStart, weekEnd)
    requires WellFormedFor(t, user) && ':' !in date && InRange(date, weekStart, weekEnd)
    requires ToggleSlot(slots, date, hour, mode).write.Some?
    ensures SetSlotAvailability(t, Some(user), date, hour, mode == Add, newId, readFailed, Some(writeError)).Failure?
    ensures Reload(ToggleSlot(slots, date, hour, mode).slots, GetAvailability(t, Some(user), weekStart, weekEnd, None)) == slots
  {
    ServerKeyIffSlot(t, user, date, hour, weekStart, weekEnd);
    if mode == Add {
      NotFoundWithoutSlot(t, user, date, SlotStart(hour), readFailed);
    }
  }
}
