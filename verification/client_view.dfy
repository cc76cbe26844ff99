/** The read-only week grid a client sees on an interpreter's profile
    (`components/client-availability-view.tsx`): the same cells as the
    interpreter's editor, lit only for slots that are not booked. */
module ClientView {
  import opened Wrappers
  import opened Text
  import opened Availability
  import opened Slots
  import opened Scheduler

  /** The keys of the rows read, skipping booked slots. */
  function PublicKeys(rows: seq<Row>): (r: set<string>)
    ensures forall k :: k in r <==> exists row :: row in rows && !row.isBooked && RowKey(row) == k
  {
    set row | row in rows && !row.isBooked :: RowKey(row)
  }

  /** `fetchAvailability` of the client view: a successful read replaces
      the lit keys, a failed one leaves them as they were. */
  function ClientFetch(current: set<string>, t: Table, interpreterId: string, weekStart: string, weekEnd: string,
                       dbError: Option<string>): (r: set<string>)
    ensures dbError.Some? ==> r == current
  {
    match GetPublicAvailability(t, interpreterId, weekStart, weekEnd, dbError)
    case Success(rows) => PublicKeys(rows)
    case Failure(_) => current
  }

  /** A free slot of the interpreter dated `date` starting at `hour`. */
  ghost predicate FreeSlotAt(t: Table, interpreterId: string, date: string, hour: int) {
    exists row :: row in t && row.interpreterId == interpreterId && row.date == date &&
                  !row.isBooked && HourOf(row.startTime) == Some(hour)
  }

  /** The client sees the cell for `date` at `hour` lit exactly when the
      date is in the shown week and the interpreter has a free slot there. */
  lemma ClientCellIffFreeSlot(current: set<string>, t: Table, interpreterId: string, weekStart: string, weekEnd: string,
                              date: string, hour: int)
    requires forall row :: row in t && row.interpreterId == interpreterId ==> ':' !in row.date
    requires ':' !in date
    ensures SlotKey(date, hour) in ClientFetch(current, t, interpreterId, weekStart, weekEnd, None)
        <==> InRange(date, weekStart, weekEnd) && FreeSlotAt(t, interpreterId, date, hour)
  {
    var rows := RangeQuery(t, interpreterId, weekStart, weekEnd);
    var key := SlotKey(date, hour);
    if key in PublicKeys(rows) {
      var row :| row in rows && !row.isBooked && RowKey(row) == key;
      RowKeyIsSlotKey(row, date, hour);
    }
    if InRange(date, weekStart, weekEnd) && FreeSlotAt(t, interpreterId, date, hour) {
      var row :| row in t && row.interpreterId == interpreterId && row.date == date &&
                 !row.isBooked && HourOf(row.startTime) == Some(hour);
      RowKeyIsSlotKey(row, date, hour);
      assert row in rows;
    }
  }

  /** What the interpreter publishes is what clients see: after the
      interpreter makes a slot available, a client viewing that week sees
      the cell lit, and after they make it unavailable the cell is dark.
      Requires that no slot is booked, which holds as long as only the
      availability actions write the table. */
  lemma PublishedSlotIsOffered(t: Table, user: string, date: string, hour: int, isAvailable: bool, newId: string, readFailed: bool,
                               weekStart: string, weekEnd: string, current: set<string>)
    requires WellFormedFor(t, user) && AllUnbooked(t)
    requires ':' !in date && InRange(date, weekStart, weekEnd)
    ensures var r := SetSlotAvailability(t, Some(user), date, hour, isAvailable, newId, readFailed, None);
            r.Success? &&
            (SlotKey(date, hour) in ClientFetch(current, r.value, user, weekStart, weekEnd, None) <==> isAvailable)
  {
    var r := SetSlotAvailability(t, Some(user), date, hour, isAvailable, newId, readFailed, None);
    SlotTimesRoundTrip(hour);
    ClientCellIffFreeSlot(current, r.value, user, weekStart, weekEnd, date, hour);
    if isAvailable {
      var row :| row in r.value && Matches(row, user, date, SlotStart(hour));
      assert row in t || row == NewSlot(newId, user, date, hour);
      assert FreeSlotAt(r.value, user, date, hour);
    }
  }
}
