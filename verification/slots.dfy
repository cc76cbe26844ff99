/** The week grid both availability views draw
    (`components/availability-scheduler.tsx`,
    `components/client-availability-view.tsx`): fourteen hourly rows from
    8:00, seven days from a Monday, and the `${date}:${hour}` keys that name
    the cells. */
module Slots {
  import opened Wrappers
  import opened Text
  import opened Availability

  /** `HOURS`: the fourteen hours 8 to 21. */
  const Hours: seq<int> := seq(14, i => i + 8)

  lemma HoursAreTheWorkingDay()
    ensures |Hours| == 14
    ensures forall h :: h in Hours <==> 8 <= h <= 21
  {
    forall h | 8 <= h <= 21
      ensures h in Hours
    {
      assert Hours[h - 8] == h;
    }
  }

  // ---------------------------------------------------------------------
  // Cell keys
  // ---------------------------------------------------------------------

  /** The key of the cell for `date` at `hour`. */
  function SlotKey(date: string, hour: int): string {
    date + ":" + IntToString(hour)
  }

  /** How a parsed hour is interpolated into a key: NaN prints as "NaN". */
  function HourLabel(h: Option<int>): string {
    match h
    case None => "NaN"
    case Some(n) => IntToString(n)
  }

  /** The key a loaded row lights up: its date and the hour parsed from its
      start time. */
  function RowKey(row: Row): string {
    row.date + ":" + HourLabel(HourOf(row.startTime))
  }

  /** The set of keys of the rows a read returned. */
  function LoadKeys(rows: seq<Row>): (r: set<string>)
    ensures forall k :: k in r <==> exists row :: row in rows && RowKey(row) == k
  {
    set row | row in rows :: RowKey(row)
  }

  /** Reading one row more lights exactly that row's key more. */
  lemma LoadKeysGrow(before: seq<Row>, after: seq<Row>, added: Row)
    requires forall row :: row in after <==> row in before || row == added
    ensures LoadKeys(after) == LoadKeys(before) + {RowKey(added)}
  {
    assert added in after;
    forall k | k in LoadKeys(after)
      ensures k in LoadKeys(before) + {RowKey(added)}
    {
      var row :| row in after && RowKey(row) == k;
      if row != added {
        assert row in before;
      }
    }
    forall k | k in LoadKeys(before)
      ensures k in LoadKeys(after)
    {
      var row :| row in before && RowKey(row) == k;
      assert row in after;
    }
  }

  /** Dropping exactly the rows that light `key` darkens exactly `key`. */
  lemma LoadKeysShrink(before: seq<Row>, after: seq<Row>, key: string)
    requires forall row :: row in after ==> row in before
    requires forall row :: row in before ==> (row in after <==> RowKey(row) != key)
    ensures LoadKeys(after) == LoadKeys(before) - {key}
  {
    LoadKeysDropped(before, after, key);
    LoadKeysKept(before, after, key);
  }

  lemma LoadKeysDropped(before: seq<Row>, after: seq<Row>, key: string)
    requires forall row :: row in after ==> row in before && RowKey(row) != key
    ensures LoadKeys(after) <= LoadKeys(before) - {key}
  {
    forall k | k in LoadKeys(after)
      ensures k in LoadKeys(before) - {key}
    {
      var row :| row in after && RowKey(row) == k;
      assert row in before;
    }
  }

  lemma LoadKeysKept(before: seq<Row>, after: seq<Row>, key: string)
    requires forall row :: row in before && RowKey(row) != key ==> row in after
    ensures LoadKeys(before) - {key} <= LoadKeys(after)
  {
    forall k | k in LoadKeys(before) - {key}
      ensures k in LoadKeys(after)
    {
      var row :| row in before && RowKey(row) == k;
      assert row in after;
    }
  }

  /** "NaN" is never the rendering of an hour. */
  lemma HourLabelInjective(a: Option<int>, b: Option<int>)
    requires HourLabel(a) == HourLabel(b)
    ensures a == b
  {
    if a.Some? && b.Some? {
      IntToStringInjective(a.value, b.value);
    }
  }

  /** A key splits back into its date and its hour text at the first colon. */
  lemma KeyParts(d1: string, t1: string, d2: string, t2: string)
    requires ':' !in d1 && ':' !in d2
    requires d1 + ":" + t1 == d2 + ":" + t2
    ensures d1 == d2 && t1 == t2
  {
    var k := d1 + ":" + t1;
    assert k == d1 + (":" + t1);
    assert k == d2 + (":" + t2);
    BeforeFirstOfConcat(d1, ":" + t1, ':');
    BeforeFirstOfConcat(d2, ":" + t2, ':');
    assert t1 == k[|d1| + 1..];
  }

  /** With colon-free dates a row lights up the cell for `date` at `hour`
      exactly when it is dated `date` and its start time parses to `hour`. */
  lemma RowKeyIsSlotKey(row: Row, date: string, hour: int)
    requires ':' !in row.date && ':' !in date
    ensures RowKey(row) == SlotKey(date, hour) <==> row.date == date && HourOf(row.startTime) == Some(hour)
  {
    if RowKey(row) == SlotKey(date, hour) {
      KeyParts(row.date, HourLabel(HourOf(row.startTime)), date, IntToString(hour));
      HourLabelInjective(HourOf(row.startTime), Some(hour));
    }
  }

  /** Distinct cells of the grid have distinct keys. */
  lemma SlotKeyInjective(d1: string, h1: int, d2: string, h2: int)
    requires ':' !in d1 && ':' !in d2
    requires SlotKey(d1, h1) == SlotKey(d2, h2)
    ensures d1 == d2 && h1 == h2
  {
    KeyParts(d1, IntToString(h1), d2, IntToString(h2));
    IntToStringInjective(h1, h2);
  }

  // ---------------------------------------------------------------------
  // Weeks
  // ---------------------------------------------------------------------

  /** Days are numbered consecutively, day 0 being a Monday.
      `startOfWeek(day, { weekStartsOn: 1 })`: the Monday on or before `day`. */
  function WeekStartOf(day: int): (r: int)
    ensures r % 7 == 0 && r <= day < r + 7
  {
    day - day % 7
  }

  /** `endOfWeek(start, { weekStartsOn: 1 })`: the Sunday closing the week. */
  function WeekEndOf(start: int): (r: int)
    ensures WeekStartOf(r) == WeekStartOf(start) && r % 7 == 6
  {
    WeekStartOf(start) + 6
  }

  /** `Array.from({ length: 7 }, (_, i) => addDays(start, i))`. */
  function WeekDays(start: int): (r: seq<int>)
    ensures |r| == 7
    ensures forall i :: 0 <= i < 7 ==> r[i] == start + i
  {
    seq(7, i => start + i)
  }

  /** `subWeeks(start, 1)` and `addWeeks(start, 1)`. */
  function PrevWeek(start: int): int { start - 7 }

  function NextWeek(start: int): int { start + 7 }

  /** Navigation stays on Mondays, the two buttons undo each other, and
      consecutive weeks tile the days with neither gap nor overlap: the
      seven days shown are exactly the days from the week start to its end. */
  lemma WeekNavigation(start: int)
    requires start % 7 == 0
    ensures WeekStartOf(PrevWeek(start)) == PrevWeek(start)
    ensures WeekStartOf(NextWeek(start)) == NextWeek(start)
    ensures NextWeek(PrevWeek(start)) == start && PrevWeek(NextWeek(start)) == start
    ensures WeekEndOf(start) + 1 == NextWeek(start)
    ensures forall d :: d in WeekDays(start) <==> start <= d <= WeekEndOf(start)
    ensures forall d :: d in WeekDays(start) <==> WeekStartOf(d) == start
  {
    assert WeekStartOf(start) == start;
    forall d | start <= d <= start + 6
      ensures d in WeekDays(start)
    {
      assert WeekDays(start)[d - start] == d;
    }
  }
}
