/** The current-week daily revenue columns of the table (app.js,
    `getRevenueForDay`). Time is a millisecond count on the local wall clock;
    the weekday of a day is counted from 1 January 1970, a Thursday. */
module Week {
  import opened Ledger

  const DAY_MS: int := 86400000

  /** The number of the local day a timestamp falls on. */
  function DayNumber(t: int): int {
    t / DAY_MS
  }

  /** `getDay()`: 0 is Sunday, 1 Monday, ..., 6 Saturday. */
  function Weekday(t: int): int {
    (DayNumber(t) + 4) % 7
  }

  /** `distance`: how many days back the Monday of the week lies; a Sunday
      closes the week, so it is six days after its Monday. */
  function MondayDistance(day: int): int {
    if day == 0 then 6 else day - 1
  }

  /** The distance lands on a Monday, and it is the only distance under a week
      that does. */
  lemma {:induction false} MondayDistanceIsMonday(day: int, e: int)
    requires 0 <= day < 7
    ensures 0 <= MondayDistance(day) < 7
    ensures (day - MondayDistance(day) + 7) % 7 == 1
    ensures 0 <= e < 7 && (day - e + 7) % 7 == 1 ==> e == MondayDistance(day)
  {
  }

  /** `startOfWeek`: midnight at the start of the week's Monday. */
  function WeekStart(now: int): int {
    (DayNumber(now) - MondayDistance(Weekday(now))) * DAY_MS
  }

  /** `endOfWeek`: six days later at 23:59:59.999, the last millisecond of
      the Sunday. */
  function WeekEnd(now: int): int {
    WeekStart(now) + 6 * DAY_MS + (DAY_MS - 1)
  }

  predicate InWeek(now: int, t: int) {
    WeekStart(now) <= t <= WeekEnd(now)
  }

  /** The week holds the current moment, starts on a Monday midnight and spans
      seven whole days. */
  lemma {:induction false} WeekHoldsNow(now: int)
    ensures InWeek(now, now)
    ensures WeekStart(now) % DAY_MS == 0 && Weekday(WeekStart(now)) == 1
    ensures WeekEnd(now) - WeekStart(now) + 1 == 7 * DAY_MS
  {
    var m := DayNumber(now) - MondayDistance(Weekday(now));
    assert (m * DAY_MS) / DAY_MS == m;
  }

  /** The k-th day of the week (k = 0 for the Monday) has weekday k + 1,
      modulo 7. */
  lemma {:induction false} DayWithinWeek(now: int, t: int)
    requires InWeek(now, t)
    ensures var k := DayNumber(t) - DayNumber(WeekStart(now));
      0 <= k < 7 && Weekday(t) == (k + 1) % 7
  {
    var m := DayNumber(now) - MondayDistance(Weekday(now));
    assert (m * DAY_MS) / DAY_MS == m;
    assert m <= DayNumber(t) < m + 7;
  }

  /** Two moments share a week exactly when they have the same Monday. */
  lemma {:induction false} SameWeekIffSameStart(now: int, t: int)
    ensures InWeek(now, t) <==> WeekStart(t) == WeekStart(now)
  {
    WeekHoldsNow(t);
    if InWeek(now, t) {
      DayWithinWeek(now, t);
    }
  }

  /** The entries one column adds up: not penalties, inside the week, on the
      given weekday. */
  predicate CountsOn(f: Freight, now: int, day: int) {
    f.kind != Penalty && InWeek(now, f.date) && Weekday(f.date) == day
  }

  /** `getRevenueForDay(driver, day)`. */
  function RevenueForDay(fs: seq<Freight>, now: int, day: int): int {
    SumOf(fs, (f: Freight) => if CountsOn(f, now, day) then f.value else 0)
  }

  /** The real revenue of the current week, all days together. */
  function WeekRevenue(fs: seq<Freight>, now: int): int {
    SumOf(fs, (f: Freight) => if f.kind != Penalty && InWeek(now, f.date) then f.value else 0)
  }

  /** The seven columns, Monday first and Sunday last. */
  function DailyRevenues(fs: seq<Freight>, now: int): (r: seq<int>)
    ensures |r| == 7
  {
    seq(7, k requires 0 <= k < 7 => RevenueForDay(fs, now, (k + 1) % 7))
  }

  function SumInts(xs: seq<int>): int {
    if |xs| == 0 then 0 else SumInts(xs[..|xs| - 1]) + xs[|xs| - 1]
  }

  lemma {:induction false} SumSeven(xs: seq<int>)
    requires |xs| == 7
    ensures SumInts(xs) == xs[0] + xs[1] + xs[2] + xs[3] + xs[4] + xs[5] + xs[6]
  {
    assert SumInts(xs[..1]) == xs[0] by {
      assert xs[..1][..0] == [];
    }
    assert SumInts(xs[..2]) == SumInts(xs[..1]) + xs[1] by {
      assert xs[..2][..1] == xs[..1];
    }
    assert SumInts(xs[..3]) == SumInts(xs[..2]) + xs[2] by {
      assert xs[..3][..2] == xs[..2];
    }
    assert SumInts(xs[..4]) == SumInts(xs[..3]) + xs[3] by {
      assert xs[..4][..3] == xs[..3];
    }
    assert SumInts(xs[..5]) == SumInts(xs[..4]) + xs[4] by {
      assert xs[..5][..4] == xs[..4];
    }
    assert SumInts(xs[..6]) == SumInts(xs[..5]) + xs[5] by {
      assert xs[..6][..5] == xs[..5];
    }
  }

  /** The seven columns add up to the week's real revenue: every counted entry
      falls on exactly one column. */
  lemma {:induction false} DailyRevenuesAddUp(fs: seq<Freight>, now: int)
    ensures SumInts(DailyRevenues(fs, now)) == WeekRevenue(fs, now)
    decreases |fs|
  {
    SumSeven(DailyRevenues(fs, now));
    if |fs| > 0 {
      var p := fs[..|fs| - 1];
      DailyRevenuesAddUp(p, now);
      SumSeven(DailyRevenues(p, now));
    }
  }

  /** A new entry adds its value to a column exactly when it counts on that
      day: it is not a penalty, it falls in the current week, and its
      weekday is the column's. */
  lemma {:induction false} RevenueForDaySnoc(fs: seq<Freight>, f: Freight, now: int, day: int)
    ensures RevenueForDay(fs + [f], now, day)
      == RevenueForDay(fs, now, day) + (if CountsOn(f, now, day) then f.value else 0)
  {
    assert (fs + [f])[..|fs|] == fs;
  }

  /** A column with no counting entry shows 0. */
  lemma {:induction false} RevenueForDayOfNone(fs: seq<Freight>, now: int, day: int)
    requires forall k :: 0 <= k < |fs| ==> !CountsOn(fs[k], now, day)
    ensures RevenueForDay(fs, now, day) == 0
    decreases |fs|
  {
    if |fs| > 0 {
      RevenueForDayOfNone(fs[..|fs| - 1], now, day);
    }
  }

  /** A penalty never shows up in the daily columns. */
  lemma {:induction false} PenaltyLeavesDaysAlone(fs: seq<Freight>, f: Freight, now: int, day: int)
    requires f.kind == Penalty
    ensures RevenueForDay(fs + [f], now, day) == RevenueForDay(fs, now, day)
  {
    assert (fs + [f])[..|fs|] == fs;
  }
}
