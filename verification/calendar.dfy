/** Dates as the Python backend sees them: day numbers in the proleptic
    Gregorian calendar (Python's date.toordinal(), where 0001-01-01 is day 1
    and a Monday), instants as microsecond counts, Monday-based weekdays,
    and the conversion between day numbers and (year, month, day). */
module Calendar {
  import opened Text

  /** A calendar date as a day number: 0001-01-01 is 1. */
  type Day = int

  /** A naive datetime as a count of microseconds; it falls on day
      t / MicrosPerDay. */
  type Instant = int

  const MicrosPerDay: int := 86_400_000_000

  /** Python's date.min and date.max as day numbers. */
  const MinDay: Day := 1
  const MaxDay: Day := 3_652_059

  /** datetime.date(): the day an instant falls on. */
  function DateOf(t: Instant): Day
  {
    t / MicrosPerDay
  }

  /** datetime.combine(d, time.min): the first instant of day d. */
  function Midnight(d: Day): Instant
  {
    d * MicrosPerDay
  }

  /** Comparing an instant with a midnight is comparing its day. */
  lemma MidnightOrder(t: Instant, d: Day)
    ensures t >= Midnight(d) <==> DateOf(t) >= d
    ensures Midnight(d) <= t < Midnight(d + 1) <==> DateOf(t) == d
  {
  }

  /** date.weekday(): 0 is Monday, 6 is Sunday. */
  function Weekday(d: Day): (w: int)
    ensures 0 <= w < 7
  {
    (d + 6) % 7
  }

  /** The Monday that starts the week containing d. */
  function MondayOf(d: Day): (m: Day)
    ensures Weekday(m) == 0
    ensures m <= d < m + 7
  {
    d - Weekday(d)
  }

  /** Two days share a Monday exactly when they fall in the same week. */
  lemma MondayOfWeek(d: Day, m: Day)
    requires Weekday(m) == 0
    ensures MondayOf(d) == m <==> m <= d < m + 7
  {
    if m <= d < m + 7 {
      assert (d + 6) % 7 == ((m + 6) + (d - m)) % 7;
    }
  }

  /** The first instant (Monday 00:00) of the week containing t. */
  function WeekStart(t: Instant): (r: Instant)
    ensures r <= t < r + 7 * MicrosPerDay
    ensures r == Midnight(DateOf(r)) && Weekday(DateOf(r)) == 0
  {
    Midnight(MondayOf(DateOf(t)))
  }

  /** The week start as the backend computes it: t minus weekday(t) whole
      days, which keeps t's time of day. */
  function WeekStartAsWritten(t: Instant): Instant
  {
    t - Weekday(DateOf(t)) * MicrosPerDay
  }

  /** The two agree only at midnight; otherwise the computed start is late
      by exactly the time of day of t. */
  lemma WeekStartOffset(t: Instant)
    ensures WeekStartAsWritten(t) == WeekStart(t) + (t - Midnight(DateOf(t)))
    ensures WeekStartAsWritten(t) == WeekStart(t) <==> t == Midnight(DateOf(t))
  {
  }

  /** An instant is counted from the week start exactly when it falls on or
      after that week's Monday. */
  lemma WeekStartCounts(t: Instant, x: Instant)
    ensures x >= WeekStart(t) <==> DateOf(x) >= MondayOf(DateOf(t))
  {
    MidnightOrder(x, MondayOf(DateOf(t)));
  }

  /** The time of day of t, as microseconds since its midnight. */
  function TimeOfDay(t: Instant): (r: int)
    ensures 0 <= r < MicrosPerDay
  {
    t - Midnight(DateOf(t))
  }

  /** An instant is counted from the computed week start exactly when it
      falls after this week's Monday, or on that Monday no earlier in the
      day than t itself. */
  lemma WeekStartAsWrittenCounts(t: Instant, x: Instant)
    ensures x >= WeekStartAsWritten(t) <==>
              || DateOf(x) > MondayOf(DateOf(t))
              || (DateOf(x) == MondayOf(DateOf(t)) && TimeOfDay(x) >= TimeOfDay(t))
  {
    var m := MondayOf(DateOf(t));
    WeekStartOffset(t);
    assert WeekStartAsWritten(t) == Midnight(m) + TimeOfDay(t);
    assert x == Midnight(DateOf(x)) + TimeOfDay(x);
    if DateOf(x) > m {
      assert Midnight(DateOf(x)) >= Midnight(m) + MicrosPerDay;
    } else if DateOf(x) < m {
      assert Midnight(DateOf(x)) + MicrosPerDay <= Midnight(m);
    }
  }

  /** A check-in on Monday 2025-01-06 at 09:00, looked at on Wednesday
      2025-01-08 at 15:00, lies in the current week but before the computed
      week start. */
  lemma WeekStartMissesEarlyLog()
    ensures var monday := ToOrdinal(Date(2025, 1, 6));
            var log := Midnight(monday) + 9 * 3_600_000_000;
            var now := Midnight(monday + 2) + 15 * 3_600_000_000;
            && Weekday(monday) == 0
            && MondayOf(DateOf(now)) == monday
            && WeekStart(now) <= log
            && log < WeekStartAsWritten(now)
  {
    var monday := ToOrdinal(Date(2025, 1, 6));
    assert monday == 739257;
    var now := Midnight(monday + 2) + 15 * 3_600_000_000;
    assert DateOf(now) == monday + 2;
  }

  predicate IsLeap(y: int)
  {
    y % 4 == 0 && (y % 100 != 0 || y % 400 == 0)
  }

  function YearLength(y: int): int
  {
    if IsLeap(y) then 366 else 365
  }

  function MonthLength(y: int, m: int): int
    requires 1 <= m <= 12
  {
    if m == 2 then (if IsLeap(y) then 29 else 28)
    else if m == 4 || m == 6 || m == 9 || m == 11 then 30
    else 31
  }

  /** Days of year y before the first of month m; month 13 stands for the
      end of the year. */
  function DaysBeforeMonth(y: int, m: int): (r: int)
    requires 1 <= m <= 13
    ensures m == 13 ==> r == YearLength(y)
  {
    var table := [0, 31, 59, 90, 120, 151, 181, 212, 243, 273, 304, 334, 365];
    table[m - 1] + (if m > 2 && IsLeap(y) then 1 else 0)
  }

  lemma MonthStep(y: int, m: int)
    requires 1 <= m <= 12
    ensures DaysBeforeMonth(y, m + 1) == DaysBeforeMonth(y, m) + MonthLength(y, m)
  {
  }

  /** Days before January 1st of year y, counted from day 1: Python's
      _days_before_year (floor division throughout). */
  function DaysBeforeYear(y: int): int
  {
    var p := y - 1;
    p * 365 + p / 4 - p / 100 + p / 400
  }

  lemma YearStep(y: int)
    ensures DaysBeforeYear(y + 1) == DaysBeforeYear(y) + YearLength(y)
  {
    StepOver4(y);
    StepOver100(y);
    StepOver400(y);
    MultiplesNest(y);
    var leaps := y / 4 - y / 100 + y / 400 - ((y - 1) / 4 - (y - 1) / 100 + (y - 1) / 400);
    assert leaps == if IsLeap(y) then 1 else 0;
    assert DaysBeforeYear(y + 1) == DaysBeforeYear(y) + 365 + leaps;
  }

  /** A multiple of 400 is a multiple of 100, which is a multiple of 4. */
  lemma MultiplesNest(y: int)
    ensures y % 400 == 0 ==> y % 100 == 0
    ensures y % 100 == 0 ==> y % 4 == 0
  {
    if y % 400 == 0 {
      MultipleOf100(y / 400 * 4);
    }
    if y % 100 == 0 {
      MultipleOf4(y / 100 * 25);
    }
  }

  lemma MultipleOf100(q: int)
    ensures (100 * q) % 100 == 0
  {
  }

  lemma MultipleOf4(q: int)
    ensures (4 * q) % 4 == 0
  {
  }

  /** Counting multiples of 4, 100 and 400 up to y instead of y - 1 adds
      one exactly when y is such a multiple. */
  lemma StepOver4(y: int)
    ensures (y - 1) / 4 + (if y % 4 == 0 then 1 else 0) == y / 4
  {
  }

  lemma StepOver100(y: int)
    ensures (y - 1) / 100 + (if y % 100 == 0 then 1 else 0) == y / 100
  {
  }

  lemma StepOver400(y: int)
    ensures (y - 1) / 400 + (if y % 400 == 0 then 1 else 0) == y / 400
  {
  }

  /** Years start later and later: year a ends no later than year b begins. */
  lemma {:induction false} YearsOrdered(a: int, b: int)
    requires a < b
    ensures DaysBeforeYear(a + 1) <= DaysBeforeYear(b)
    decreases b - a
  {
    if a + 1 < b {
      YearsOrdered(a, b - 1);
      YearStep(b - 1);
    }
  }

  datatype Date = Date(year: int, month: int, day: int)

  predicate ValidDate(d: Date)
  {
    1 <= d.month <= 12 && 1 <= d.day <= MonthLength(d.year, d.month)
  }

  /** date.toordinal(). */
  function ToOrdinal(d: Date): Day
    requires 1 <= d.month <= 12
  {
    DaysBeforeYear(d.year) + DaysBeforeMonth(d.year, d.month) + d.day
  }

  /** The year containing day n, searching upwards from year y. */
  function YearUp(n: Day, y: int): (r: int)
    requires DaysBeforeYear(y) < n
    ensures DaysBeforeYear(r) < n <= DaysBeforeYear(r + 1)
    decreases n - DaysBeforeYear(y)
  {
    YearStep(y);
    if n > DaysBeforeYear(y + 1) then YearUp(n, y + 1) else y
  }

  /** The year containing day n, searching downwards from year y. */
  function YearDown(n: Day, y: int): (r: int)
    requires n <= DaysBeforeYear(y + 1)
    ensures DaysBeforeYear(r) < n <= DaysBeforeYear(r + 1)
    decreases DaysBeforeYear(y + 1) - n
  {
    YearStep(y);
    if n <= DaysBeforeYear(y) then YearDown(n, y - 1) else y
  }

  function YearOfDay(n: Day): (r: int)
    ensures DaysBeforeYear(r) < n <= DaysBeforeYear(r + 1)
  {
    if n > 0 then YearUp(n, 1) else YearDown(n, 0)
  }

  /** The month of year y holding day-of-year doy, searching from month m. */
  function MonthOfDay(y: int, doy: int, m: int): (r: int)
    requires 1 <= m <= 12 && DaysBeforeMonth(y, m) < doy <= YearLength(y)
    ensures m <= r <= 12
    ensures DaysBeforeMonth(y, r) < doy <= DaysBeforeMonth(y, r + 1)
    decreases 12 - m
  {
    MonthStep(y, m);
    if m < 12 && doy > DaysBeforeMonth(y, m + 1) then MonthOfDay(y, doy, m + 1) else m
  }

  /** date.fromordinal(n), for every day number. */
  function FromOrdinal(n: Day): (d: Date)
    ensures ValidDate(d)
    ensures ToOrdinal(d) == n
  {
    var y := YearOfDay(n);
    YearStep(y);
    var doy := n - DaysBeforeYear(y);
    var m := MonthOfDay(y, doy, 1);
    MonthStep(y, m);
    Date(y, m, doy - DaysBeforeMonth(y, m))
  }

  /** A day lies in exactly one year. */
  lemma YearUnique(n: Day, y: int)
    requires DaysBeforeYear(y) < n <= DaysBeforeYear(y + 1)
    ensures YearOfDay(n) == y
  {
    var r := YearOfDay(n);
    if r < y {
      YearsOrdered(r, y);
    } else if r > y {
      YearsOrdered(y, r);
    }
  }

  /** A day of the year lies in exactly one month. */
  lemma MonthUnique(y: int, doy: int, m: int)
    requires 1 <= m <= 12 && DaysBeforeMonth(y, m) < doy <= DaysBeforeMonth(y, m + 1)
    ensures MonthOfDay(y, doy, 1) == m
  {
    if m < 12 { MonthsOrdered(y, m, 12); }
    MonthStep(y, 12);
    var r := MonthOfDay(y, doy, 1);
    if r < m {
      MonthsOrdered(y, r, m);
    } else if r > m {
      MonthsOrdered(y, m, r);
    }
  }

  /** A valid date is recovered from its day number. */
  lemma OrdinalRoundTrip(d: Date)
    requires ValidDate(d)
    ensures FromOrdinal(ToOrdinal(d)) == d
  {
    var n := ToOrdinal(d);
    YearStep(d.year);
    MonthStep(d.year, d.month);
    if d.month < 12 { MonthsOrdered(d.year, d.month, 12); }
    MonthStep(d.year, 12);
    YearUnique(n, d.year);
    MonthUnique(d.year, n - DaysBeforeYear(d.year), d.month);
  }

  lemma {:induction false} MonthsOrdered(y: int, a: int, b: int)
    requires 1 <= a < b <= 12
    ensures DaysBeforeMonth(y, a + 1) <= DaysBeforeMonth(y, b)
    ensures DaysBeforeMonth(y, a) < DaysBeforeMonth(y, b)
    decreases b - a
  {
    MonthStep(y, a);
    if a + 1 < b {
      MonthsOrdered(y, a, b - 1);
      MonthStep(y, b - 1);
    }
  }

  /** Day numbers in Python's supported range fall in years 1 to 9999. */
  lemma YearInRange(n: Day)
    requires MinDay <= n <= MaxDay
    ensures 1 <= FromOrdinal(n).year <= 9999
  {
    var y := FromOrdinal(n).year;
    assert DaysBeforeYear(1) == 0;
    assert DaysBeforeYear(10000) == MaxDay;
    if y < 1 {
      YearsOrdered(y, 1);
    } else if y > 9999 {
      YearsOrdered(9999, y);
    }
  }

  /** date.isoformat(): "YYYY-MM-DD", each field zero-padded. */
  function IsoDate(n: Day): string
  {
    var d := FromOrdinal(n);
    ZeroPad(if d.year < 0 then 0 else d.year, 4) + "-" + ZeroPad(d.month, 2) + "-" + ZeroPad(d.day, 2)
  }

  /** For the days Python can represent, the ISO form is ten characters,
      dashes at positions 4 and 7 and digits elsewhere, and the fields read
      back to the calendar date. */
  lemma IsoDateShape(n: Day)
    requires MinDay <= n <= MaxDay
    ensures |IsoDate(n)| == 10
    ensures IsoDate(n)[4] == '-' && IsoDate(n)[7] == '-'
    ensures AllDigits(IsoDate(n)[..4]) && AllDigits(IsoDate(n)[5..7]) && AllDigits(IsoDate(n)[8..])
    ensures DecimalValue(IsoDate(n)[..4]) == FromOrdinal(n).year
    ensures DecimalValue(IsoDate(n)[5..7]) == FromOrdinal(n).month
    ensures DecimalValue(IsoDate(n)[8..]) == FromOrdinal(n).day
  {
    var d := FromOrdinal(n);
    YearInRange(n);
    ZeroPadWidth(d.year, 4);
    ZeroPadWidth(d.month, 2);
    ZeroPadWidth(d.day, 2);
    ZeroPadValue(d.year, 4);
    ZeroPadValue(d.month, 2);
    ZeroPadValue(d.day, 2);
    var s := IsoDate(n);
    var ys, ms, ds := ZeroPad(d.year, 4), ZeroPad(d.month, 2), ZeroPad(d.day, 2);
    assert s == ys + "-" + ms + "-" + ds;
    assert s[..4] == ys;
    assert s[5..7] == ms;
    assert s[8..] == ds;
  }

  /** Distinct days in Python's range have distinct ISO strings, so grouping
      by ISO string is grouping by day. */
  lemma IsoDateInjective(a: Day, b: Day)
    requires MinDay <= a <= MaxDay && MinDay <= b <= MaxDay
    requires IsoDate(a) == IsoDate(b)
    ensures a == b
  {
    IsoDateShape(a);
    IsoDateShape(b);
    assert FromOrdinal(a) == FromOrdinal(b);
  }
}
