/** The proleptic Gregorian calendar in GMT, counted in days and milliseconds
    from the Unix epoch 1970-01-01T00:00:00Z, as a GMT GregorianCalendar
    splits an instant into fields. */
module Calendar {

  /** The first full year the JDK's calendar counts as Gregorian (it switches
      from the Julian calendar on 15 October 1582). */
  const MinYear: int := 1583
  /** The last year printed with four digits. */
  const MaxYear: int := 9999

  const MillisPerSecond: int := 1000
  const MillisPerMinute: int := 60_000
  const MillisPerHour: int := 3_600_000
  const MillisPerDay: int := 86_400_000

  predicate IsLeapYear(y: int) {
    y % 4 == 0 && (y % 100 != 0 || y % 400 == 0)
  }

  function YearLength(y: int): nat {
    if IsLeapYear(y) then 366 else 365
  }

  function MonthLength(y: int, m: int): nat
    requires 1 <= m <= 12
  {
    if m == 2 then (if IsLeapYear(y) then 29 else 28)
    else if m == 4 || m == 6 || m == 9 || m == 11 then 30
    else 31
  }

  datatype Date = Date(year: int, month: int, day: int)

  predicate ValidDate(d: Date) {
    && MinYear <= d.year <= MaxYear
    && 1 <= d.month <= 12
    && 1 <= d.day <= MonthLength(d.year, d.month)
  }

  /** Leap years among 1, 2, ..., y - 1 (by floor division). */
  function LeapYearsBefore(y: int): int {
    (y - 1) / 4 - (y - 1) / 100 + (y - 1) / 400
  }

  /** Days from 1970-01-01 to January 1 of year `y` (negative before 1970). */
  function DaysBeforeYear(y: int): int {
    365 * (y - 1970) + LeapYearsBefore(y) - LeapYearsBefore(1970)
  }

  /** Quotient and remainder are the only ones with a remainder in [0, k). */
  lemma DivMod(y: int, k: int, q: int, r: int)
    requires k > 0 && 0 <= r < k && y == k * q + r
    ensures y / k == q && y % k == r
  {
    var q', r' := y / k, y % k;
    assert y == k * q' + r';
    assert k * (q - q') == r' - r by {
      assert k * (q - q') == k * q - k * q';
    }
    if q > q' {
      MulAtLeast(k, q - q');
    } else if q < q' {
      MulAtLeast(k, q' - q);
    }
  }

  lemma MulAtLeast(k: int, d: int)
    requires k > 0 && d >= 1
    ensures k * d >= k
  {
    assert k * d == k * (d - 1) + k;
  }

  lemma DivStep(y: int, k: int)
    requires k > 0
    ensures y / k - (y - 1) / k == if y % k == 0 then 1 else 0
  {
    var q, r := (y - 1) / k, (y - 1) % k;
    if r + 1 == k {
      DivMod(y, k, q + 1, 0);
    } else {
      DivMod(y, k, q, r + 1);
    }
  }

  lemma MultipleOf100(y: int)
    ensures y % 400 == 0 ==> y % 100 == 0
    ensures y % 100 == 0 ==> y % 4 == 0
  {
    if y % 400 == 0 {
      var q := y / 400;
      assert y == 100 * (4 * q) + 0;
      DivMod(y, 100, 4 * q, 0);
    }
    if y % 100 == 0 {
      var q := y / 100;
      assert y == 4 * (25 * q) + 0;
      DivMod(y, 4, 25 * q, 0);
    }
  }

  /** Consecutive year starts lie one year length apart: the closed form of
      `DaysBeforeYear` counts exactly the Gregorian leap years. */
  lemma YearStep(y: int)
    ensures DaysBeforeYear(y + 1) == DaysBeforeYear(y) + YearLength(y)
  {
    DivStep(y, 4);
    DivStep(y, 100);
    DivStep(y, 400);
    MultipleOf100(y);
  }

  /** Later years start later, by at least 365 days per year. */
  lemma {:induction false} DaysBeforeYearMonotone(a: int, b: int)
    requires a <= b
    ensures DaysBeforeYear(b) - DaysBeforeYear(a) >= 365 * (b - a)
    decreases b - a
  {
    if a < b {
      YearStep(b - 1);
      DaysBeforeYearMonotone(a, b - 1);
    }
  }

  /** Days from January 1 of year `y` to the first day of month `m`;
      month 13 stands for the following January. */
  function DaysBeforeMonth(y: int, m: int): nat
    requires 1 <= m <= 13
  {
    if m == 1 then 0 else DaysBeforeMonth(y, m - 1) + MonthLength(y, m - 1)
  }

  lemma MonthsFillYear(y: int)
    ensures DaysBeforeMonth(y, 13) == YearLength(y)
  {
    var leap := if IsLeapYear(y) then 1 else 0;
    assert DaysBeforeMonth(y, 2) == 31;
    assert DaysBeforeMonth(y, 3) == 59 + leap;
    assert DaysBeforeMonth(y, 4) == 90 + leap;
    assert DaysBeforeMonth(y, 5) == 120 + leap;
    assert DaysBeforeMonth(y, 6) == 151 + leap;
    assert DaysBeforeMonth(y, 7) == 181 + leap;
    assert DaysBeforeMonth(y, 8) == 212 + leap;
    assert DaysBeforeMonth(y, 9) == 243 + leap;
    assert DaysBeforeMonth(y, 10) == 273 + leap;
    assert DaysBeforeMonth(y, 11) == 304 + leap;
    assert DaysBeforeMonth(y, 12) == 334 + leap;
  }

  lemma {:induction false} DaysBeforeMonthMonotone(y: int, a: int, b: int)
    requires 1 <= a <= b <= 13
    ensures DaysBeforeMonth(y, b) - DaysBeforeMonth(y, a) >= 28 * (b - a)
    decreases b - a
  {
    if a < b {
      DaysBeforeMonthMonotone(y, a, b - 1);
    }
  }

  /** Days from 1970-01-01 to the given date. */
  function DaysFromCivil(d: Date): (days: int)
    requires ValidDate(d)
    ensures DaysBeforeYear(d.year) <= days < DaysBeforeYear(d.year + 1)
    ensures DaysBeforeMonth(d.year, d.month) <= days - DaysBeforeYear(d.year) < DaysBeforeMonth(d.year, d.month + 1)
  {
    YearStep(d.year);
    MonthsFillYear(d.year);
    DaysBeforeMonthMonotone(d.year, d.month + 1, 13);
    DaysBeforeYear(d.year) + DaysBeforeMonth(d.year, d.month) + d.day - 1
  }

  /** The day numbers the calendar covers: 1583-01-01 up to 9999-12-31. */
  predicate InCalendarRange(days: int) {
    DaysBeforeYear(MinYear) <= days < DaysBeforeYear(MaxYear + 1)
  }

  /** Walks forward year by year from January 1 of year `y` through `d` days,
      giving the year reached and the (0-based) day within it. */
  function YearAndDayOfYear(y: int, d: nat): (r: (int, nat))
    ensures r.0 >= y && r.1 < YearLength(r.0)
    ensures DaysBeforeYear(r.0) + r.1 == DaysBeforeYear(y) + d
    decreases d
  {
    if d < YearLength(y) then (y, d)
    else
      YearStep(y);
      YearAndDayOfYear(y + 1, d - YearLength(y))
  }

  /** Walks forward month by month from the first of month `m` through `d`
      days that stay inside year `y`, giving the month reached and the
      (0-based) day within it. */
  function MonthAndDay(y: int, m: int, d: nat): (r: (int, nat))
    requires 1 <= m <= 12
    requires DaysBeforeMonth(y, m) + d < YearLength(y)
    ensures m <= r.0 <= 12 && r.1 < MonthLength(y, r.0)
    ensures DaysBeforeMonth(y, r.0) + r.1 == DaysBeforeMonth(y, m) + d
    decreases 12 - m
  {
    MonthsFillYear(y);
    if d < MonthLength(y, m) then (m, d)
    else MonthAndDay(y, m + 1, d - MonthLength(y, m))
  }

  /** The calendar date of a day number, the inverse of `DaysFromCivil`. */
  function CivilFromDays(days: int): (d: Date)
    requires InCalendarRange(days)
    ensures ValidDate(d)
    ensures DaysFromCivil(d) == days
  {
    var (y, doy) := YearAndDayOfYear(MinYear, days - DaysBeforeYear(MinYear));
    assert y <= MaxYear by {
      if y > MaxYear {
        DaysBeforeYearMonotone(MaxYear + 1, y);
      }
    }
    var (m, dom) := MonthAndDay(y, 1, doy);
    Date(y, m, dom + 1)
  }

  /** Distinct valid dates have distinct day numbers. */
  lemma DaysFromCivilInjective(a: Date, b: Date)
    requires ValidDate(a) && ValidDate(b)
    requires DaysFromCivil(a) == DaysFromCivil(b)
    ensures a == b
  {
    if a.year < b.year {
      EarlierYearEarlierDay(a, b);
    } else if b.year < a.year {
      EarlierYearEarlierDay(b, a);
    } else if a.month < b.month {
      EarlierMonthEarlierDay(a, b);
    } else if b.month < a.month {
      EarlierMonthEarlierDay(b, a);
    }
  }

  lemma EarlierYearEarlierDay(a: Date, b: Date)
    requires ValidDate(a) && ValidDate(b) && a.year < b.year
    ensures DaysFromCivil(a) < DaysFromCivil(b)
  {
    DaysBeforeYearMonotone(a.year + 1, b.year);
  }

  lemma EarlierMonthEarlierDay(a: Date, b: Date)
    requires ValidDate(a) && ValidDate(b) && a.year == b.year && a.month < b.month
    ensures DaysFromCivil(a) < DaysFromCivil(b)
  {
    DaysBeforeMonthMonotone(a.year, a.month + 1, b.month);
  }

  /** Every valid date survives the trip to a day number and back. */
  lemma CivilFromDaysOfCivil(d: Date)
    requires ValidDate(d)
    ensures InCalendarRange(DaysFromCivil(d))
    ensures CivilFromDays(DaysFromCivil(d)) == d
  {
    DaysBeforeYearMonotone(MinYear, d.year);
    DaysBeforeYearMonotone(d.year + 1, MaxYear + 1);
    DaysFromCivilInjective(CivilFromDays(DaysFromCivil(d)), d);
  }

  /** Day of the week, 0 = Sunday ... 6 = Saturday; day 0 (1970-01-01) was a
      Thursday. */
  function DayOfWeek(days: int): (w: nat)
    ensures w < 7
  {
    (days + 4) % 7
  }

  lemma EpochIsThursday()
    ensures DaysFromCivil(Date(1970, 1, 1)) == 0
    ensures DayOfWeek(0) == 4
  {
  }

  /** The weekday advances by one each day, wrapping from Saturday to Sunday,
      before the epoch as after it. */
  lemma DayOfWeekStep(days: int)
    ensures DayOfWeek(days + 1) == (DayOfWeek(days) + 1) % 7
  {
  }

  datatype TimeOfDay = TimeOfDay(hour: int, minute: int, second: int)

  predicate ValidTime(t: TimeOfDay) {
    0 <= t.hour < 24 && 0 <= t.minute < 60 && 0 <= t.second < 60
  }

  function MillisOfDay(t: TimeOfDay): int {
    t.hour * MillisPerHour + t.minute * MillisPerMinute + t.second * MillisPerSecond
  }

  /** The day number of an instant: floor division, so an instant before the
      epoch falls on a negative day. */
  function EpochDay(millis: int): int {
    millis / MillisPerDay
  }

  /** Hour, minute and second of an instant in GMT. */
  function TimeOfDayOf(millis: int): (t: TimeOfDay)
    ensures ValidTime(t)
    ensures EpochDay(millis) * MillisPerDay + t.hour * MillisPerHour + t.minute * MillisPerMinute
            + t.second * MillisPerSecond == millis - millis % MillisPerSecond
  {
    var ms := millis % MillisPerDay;
    var t := TimeOfDay(ms / MillisPerHour, ms / MillisPerMinute % 60, ms / MillisPerSecond % 60);
    TimeDecomposition(ms);
    SecondsOfDay(millis);
    t
  }

  lemma TimeDecomposition(ms: int)
    requires 0 <= ms < MillisPerDay
    ensures ms / MillisPerHour < 24
    ensures ms / MillisPerHour * MillisPerHour + ms / MillisPerMinute % 60 * MillisPerMinute
            + ms / MillisPerSecond % 60 * MillisPerSecond == ms - ms % MillisPerSecond
  {
    var s := ms / 1000;
    var m := s / 60;
    assert ms / MillisPerMinute == m;
    assert ms / MillisPerHour == m / 60;
    assert s * 1000 == ms - ms % 1000;
    assert m * 60 + s % 60 == s;
    assert m / 60 * 60 + m % 60 == m;
  }

  lemma SecondsOfDay(millis: int)
    ensures millis % MillisPerDay % MillisPerSecond == millis % MillisPerSecond
    ensures EpochDay(millis) * MillisPerDay + millis % MillisPerDay == millis
  {
    var q := millis / MillisPerDay;
    var r := millis % MillisPerDay;
    assert millis == q * MillisPerDay + r;
    assert millis == (q * 86400) * 1000 + r;
  }

  /** An instant assembled from a day number and a time of day splits back
      into the same day and the same time: `EpochDay` and `TimeOfDayOf` lose
      nothing but the milliseconds. */
  lemma InstantFields(days: int, t: TimeOfDay)
    requires ValidTime(t)
    ensures EpochDay(days * MillisPerDay + MillisOfDay(t)) == days
    ensures TimeOfDayOf(days * MillisPerDay + MillisOfDay(t)) == t
  {
    var ms := MillisOfDay(t);
    var millis := days * MillisPerDay + ms;
    assert 0 <= ms < MillisPerDay;
    DivMod(millis, MillisPerDay, days, ms);
    DivMod(ms, MillisPerHour, t.hour, t.minute * MillisPerMinute + t.second * MillisPerSecond);
    var minutes := t.hour * 60 + t.minute;
    DivMod(ms, MillisPerMinute, minutes, t.second * MillisPerSecond);
    DivMod(minutes, 60, t.hour, t.minute);
    var seconds := minutes * 60 + t.second;
    DivMod(ms, MillisPerSecond, seconds, 0);
    DivMod(seconds, 60, minutes, t.second);
  }
}
