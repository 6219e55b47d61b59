/**
 * Timestamp reconstruction: `pd.to_datetime` applied to the year, month, day
 * and hour fields of a row. A timestamp is the number of whole hours since
 * 1970-01-01T00:00 in the proleptic Gregorian calendar. The conversion fails
 * on a date that does not exist and on an instant outside the range of a
 * pandas timestamp (64-bit nanoseconds since the epoch).
 */
module Calendar {
  import opened Wrappers

  predicate IsLeapYear(y: int) {
    y % 4 == 0 && (y % 100 != 0 || y % 400 == 0)
  }

  function DaysInYear(y: int): int {
    if IsLeapYear(y) then 366 else 365
  }

  function DaysInMonth(y: int, m: int): int
    requires 1 <= m <= 12
  {
    if m == 2 then (if IsLeapYear(y) then 29 else 28)
    else if m == 4 || m == 6 || m == 9 || m == 11 then 30
    else 31
  }

  /** Days of year `y` before the first of month `m` (`m == 13` gives the whole year). */
  function DaysBeforeMonth(y: int, m: int): int
    requires 1 <= m <= 13
  {
    CumulativeDays(m) + (if m > 2 && IsLeapYear(y) then 1 else 0)
  }

  /** Days of a common year before the first of month `m`. */
  function CumulativeDays(m: int): int
    requires 1 <= m <= 13
  {
    match m
    case 1 => 0
    case 2 => 31
    case 3 => 59
    case 4 => 90
    case 5 => 120
    case 6 => 151
    case 7 => 181
    case 8 => 212
    case 9 => 243
    case 10 => 273
    case 11 => 304
    case 12 => 334
    case _ => 365
  }

  lemma DaysBeforeMonthStep(y: int, m: int)
    requires 1 <= m <= 12
    ensures DaysBeforeMonth(y, m + 1) == DaysBeforeMonth(y, m) + DaysInMonth(y, m)
    ensures DaysBeforeMonth(y, 1) == 0 && DaysBeforeMonth(y, 13) == DaysInYear(y)
  {
  }

  lemma DaysBeforeMonthMonotone(y: int, m: int, m': int)
    requires 1 <= m < m' <= 12
    ensures DaysBeforeMonth(y, m + 1) <= DaysBeforeMonth(y, m')
  {
  }

  /** Days from 0001-01-01 to January 1 of year `y`. */
  function DaysBeforeYear(y: int): int {
    var p := y - 1;
    365 * p + p / 4 - p / 100 + p / 400
  }

  lemma DaysBeforeYearStep(y: int)
    ensures DaysBeforeYear(y + 1) == DaysBeforeYear(y) + DaysInYear(y)
  {
    QuotientStep4(y);
    QuotientStep100(y);
    QuotientStep400(y);
  }

  lemma QuotientStep4(y: int)
    ensures y / 4 - (y - 1) / 4 == if y % 4 == 0 then 1 else 0
  {
  }

  lemma QuotientStep100(y: int)
    ensures y / 100 - (y - 1) / 100 == if y % 100 == 0 then 1 else 0
  {
  }

  lemma QuotientStep400(y: int)
    ensures y / 400 - (y - 1) / 400 == if y % 400 == 0 then 1 else 0
  {
  }

  lemma {:induction false} DaysBeforeYearMonotone(y: int, z: int)
    requires y < z
    ensures DaysBeforeYear(y + 1) <= DaysBeforeYear(z)
    decreases z - y
  {
    if y + 1 < z {
      DaysBeforeYearMonotone(y, z - 1);
      DaysBeforeYearStep(z - 1);
    }
  }

  /** Day number of 1970-01-01 counted from 0001-01-01. */
  const EPOCH_DAY: int := 719162

  lemma EpochDayIsFirstOf1970()
    ensures EPOCH_DAY == DaysBeforeYear(1970)
  {
  }

  const NANOS_PER_HOUR: int := 3_600_000_000_000
  /** The smallest and largest nanosecond counts of a pandas timestamp (the 64-bit minimum is reserved for NaT). */
  const MIN_NANOS: int := -9_223_372_036_854_775_807
  const MAX_NANOS: int := 9_223_372_036_854_775_807

  /** The four time fields of a raw row. */
  datatype Parts = Parts(year: int, month: int, day: int, hour: int)

  /** An instant, as whole hours since 1970-01-01T00:00. */
  datatype Timestamp = Timestamp(hours: int)

  datatype DateError = InvalidDate | OutOfBounds

  /** The fields name an existing day of the proleptic Gregorian calendar and an hour of that day. */
  predicate ValidParts(p: Parts) {
    && 1 <= p.month <= 12
    && 1 <= p.day <= DaysInMonth(p.year, p.month)
    && 0 <= p.hour < 24
  }

  function DayNumber(p: Parts): int
    requires 1 <= p.month <= 12
  {
    DaysBeforeYear(p.year) + DaysBeforeMonth(p.year, p.month) + p.day - 1
  }

  function EpochHours(p: Parts): int
    requires 1 <= p.month <= 12
  {
    (DayNumber(p) - EPOCH_DAY) * 24 + p.hour
  }

  /** The whole hours whose nanosecond count fits a pandas timestamp: 2562047 either side of the epoch. */
  const MAX_HOURS: int := MAX_NANOS / NANOS_PER_HOUR

  predicate InTimestampRange(hours: int) {
    -MAX_HOURS <= hours <= MAX_HOURS
  }

  /** An hour count is in range exactly when its nanosecond count is. */
  lemma TimestampRangeInNanos(hours: int)
    ensures InTimestampRange(hours) <==> MIN_NANOS <= hours * NANOS_PER_HOUR <= MAX_NANOS
  {
    assert MAX_HOURS == 2562047;
    if hours > MAX_HOURS {
      assert hours * NANOS_PER_HOUR >= 2562048 * NANOS_PER_HOUR;
    } else if hours < -MAX_HOURS {
      assert hours * NANOS_PER_HOUR <= -2562048 * NANOS_PER_HOUR;
    } else {
      assert -2562047 * NANOS_PER_HOUR <= hours * NANOS_PER_HOUR <= 2562047 * NANOS_PER_HOUR;
    }
  }

  /** The year whose days contain day number `n`, searching upwards from `y`. */
  function YearUp(n: int, y: int): (r: int)
    requires DaysBeforeYear(y) <= n
    ensures DaysBeforeYear(r) <= n < DaysBeforeYear(r + 1)
    decreases n - DaysBeforeYear(y)
  {
    DaysBeforeYearStep(y);
    if n < DaysBeforeYear(y + 1) then y else YearUp(n, y + 1)
  }

  /** The year whose days contain day number `n`, searching downwards from `y`. */
  function YearDown(n: int, y: int): (r: int)
    requires n < DaysBeforeYear(y + 1)
    ensures DaysBeforeYear(r) <= n < DaysBeforeYear(r + 1)
    decreases DaysBeforeYear(y + 1) - n
  {
    DaysBeforeYearStep(y);
    if DaysBeforeYear(y) <= n then y else YearDown(n, y - 1)
  }

  function YearOf(n: int): (r: int)
    ensures DaysBeforeYear(r) <= n < DaysBeforeYear(r + 1)
  {
    if n >= EPOCH_DAY then YearUp(n, 1970) else YearDown(n, 1969)
  }

  lemma YearUnique(n: int, y: int, z: int)
    requires DaysBeforeYear(y) <= n < DaysBeforeYear(y + 1)
    requires DaysBeforeYear(z) <= n < DaysBeforeYear(z + 1)
    ensures y == z
  {
    if y < z {
      DaysBeforeYearMonotone(y, z);
    } else if z < y {
      DaysBeforeYearMonotone(z, y);
    }
  }

  /** The month of year `y` containing day `doy` (0-based), searching from month `m`. */
  function MonthFrom(y: int, doy: int, m: int): (r: int)
    requires 1 <= m <= 12 && DaysBeforeMonth(y, m) <= doy < DaysInYear(y)
    ensures m <= r <= 12 && DaysBeforeMonth(y, r) <= doy < DaysBeforeMonth(y, r + 1)
    decreases 12 - m
  {
    DaysBeforeMonthStep(y, m);
    if doy < DaysBeforeMonth(y, m + 1) then m else MonthFrom(y, doy, m + 1)
  }

  lemma MonthUnique(y: int, doy: int, m: int, m': int)
    requires 1 <= m <= 12 && DaysBeforeMonth(y, m) <= doy < DaysBeforeMonth(y, m + 1)
    requires 1 <= m' <= 12 && DaysBeforeMonth(y, m') <= doy < DaysBeforeMonth(y, m' + 1)
    ensures m == m'
  {
    if m < m' {
      DaysBeforeMonthMonotone(y, m, m');
    } else if m' < m {
      DaysBeforeMonthMonotone(y, m', m);
    }
  }

  /** The calendar fields of an instant (what `Timestamp.year`, `.month`, `.day` and `.hour` give back). */
  function Decompose(t: Timestamp): Parts {
    DateOfDay(t.hours / 24 + EPOCH_DAY, t.hours % 24)
  }

  /** The calendar fields of hour `hour` of day number `n`. */
  function DateOfDay(n: int, hour: int): Parts {
    var y := YearOf(n);
    DaysBeforeYearStep(y);
    DaysBeforeMonthStep(y, 1);
    var doy := n - DaysBeforeYear(y);
    var m := MonthFrom(y, doy, 1);
    Parts(y, m, doy - DaysBeforeMonth(y, m) + 1, hour)
  }

  /** An hour count splits into whole days and the hour of the day. */
  lemma HoursSplit(days: int, hour: int)
    requires 0 <= hour < 24
    ensures (days * 24 + hour) / 24 == days
    ensures (days * 24 + hour) % 24 == hour
  {
  }

  /** The day number of valid fields lies within their year. */
  lemma DayInYear(p: Parts)
    requires ValidParts(p)
    ensures DaysBeforeYear(p.year) <= DayNumber(p) < DaysBeforeYear(p.year + 1)
  {
    DaysBeforeMonthStep(p.year, p.month);
    if p.month < 12 {
      DaysBeforeMonthMonotone(p.year, p.month, 12);
    }
    DaysBeforeMonthStep(p.year, 12);
    DaysBeforeYearStep(p.year);
  }

  /** Decomposing the instant of valid fields gives the fields back. */
  lemma DecomposeEpochHours(p: Parts)
    requires ValidParts(p)
    ensures Decompose(Timestamp(EpochHours(p))) == p
  {
    var n, h := DayNumber(p), EpochHours(p);
    HoursSplit(n - EPOCH_DAY, p.hour);
    assert h / 24 + EPOCH_DAY == n && h % 24 == p.hour;
    DateOfDayNumber(p);
  }

  /** The calendar fields of the day number of valid fields are those fields. */
  lemma DateOfDayNumber(p: Parts)
    requires ValidParts(p)
    ensures DateOfDay(DayNumber(p), p.hour) == p
  {
    YearOfDayNumber(p);
    MonthOfDayNumber(p);
    DateOfDayIs(DayNumber(p), p.hour, p.year, p.month);
  }

  /** `DateOfDay` once its year and month are known. */
  lemma DateOfDayIs(n: int, hour: int, y: int, m: int)
    requires YearOf(n) == y
    requires DaysBeforeMonth(y, 1) <= n - DaysBeforeYear(y) < DaysInYear(y)
    requires MonthFrom(y, n - DaysBeforeYear(y), 1) == m
    ensures DateOfDay(n, hour) == Parts(y, m, n - DaysBeforeYear(y) - DaysBeforeMonth(y, m) + 1, hour)
  {
  }

  /** The year found for the day number of valid fields is their year. */
  lemma YearOfDayNumber(p: Parts)
    requires ValidParts(p)
    ensures YearOf(DayNumber(p)) == p.year
  {
    DayInYear(p);
    YearUnique(DayNumber(p), YearOf(DayNumber(p)), p.year);
  }

  /** The month found for the day of the year of valid fields is their month. */
  lemma MonthOfDayNumber(p: Parts)
    requires ValidParts(p)
    ensures var doy := DayNumber(p) - DaysBeforeYear(p.year);
            && DaysBeforeMonth(p.year, 1) <= doy < DaysInYear(p.year)
            && MonthFrom(p.year, doy, 1) == p.month
  {
    DayOfYearInMonth(p);
    var doy := DayNumber(p) - DaysBeforeYear(p.year);
    MonthUnique(p.year, doy, MonthFrom(p.year, doy, 1), p.month);
  }

  /** The day of the year of valid fields lies within their month. */
  lemma DayOfYearInMonth(p: Parts)
    requires ValidParts(p)
    ensures var doy := DayNumber(p) - DaysBeforeYear(p.year);
            && DaysBeforeMonth(p.year, 1) <= doy < DaysInYear(p.year)
            && DaysBeforeMonth(p.year, p.month) <= doy < DaysBeforeMonth(p.year, p.month + 1)
  {
    DayInYear(p);
    DaysBeforeYearStep(p.year);
    DaysBeforeMonthStep(p.year, p.month);
    DaysBeforeMonthStep(p.year, 1);
  }

  /** Every instant decomposes into valid fields that compose back to it. */
  lemma EpochHoursDecompose(t: Timestamp)
    ensures ValidParts(Decompose(t))
    ensures EpochHours(Decompose(t)) == t.hours
  {
    var p := Decompose(t);
    var n := t.hours / 24 + EPOCH_DAY;
    DaysBeforeYearStep(p.year);
    DaysBeforeMonthStep(p.year, p.month);
    assert DayNumber(p) == n;
  }

  /**
   * `pd.to_datetime` of one row's fields: an error for a date that does not
   * exist or an instant pandas cannot represent, otherwise the instant whose
   * decomposition is exactly the given fields.
   */
  function ToTimestamp(p: Parts): (r: Result<Timestamp, DateError>)
    ensures r == Err(InvalidDate) <==> !ValidParts(p)
    ensures r == Err(OutOfBounds) <==> ValidParts(p) && !InTimestampRange(EpochHours(p))
    ensures r.Ok? ==> r.value.hours == EpochHours(p) && InTimestampRange(r.value.hours)
  {
    if !ValidParts(p) then Err(InvalidDate)
    else
      var h := EpochHours(p);
      if InTimestampRange(h) then Ok(Timestamp(h)) else Err(OutOfBounds)
  }

  /** A converted instant decomposes into exactly the fields it came from. */
  lemma ToTimestampDecompose(p: Parts)
    requires ToTimestamp(p).Ok?
    ensures Decompose(ToTimestamp(p).value) == p
  {
    DecomposeEpochHours(p);
  }

  /** Every representable instant is what its own decomposition converts to. */
  lemma ToTimestampOfDecompose(t: Timestamp)
    requires InTimestampRange(t.hours)
    ensures ToTimestamp(Decompose(t)) == Ok(t)
  {
    EpochHoursDecompose(t);
  }

  /** Distinct valid fields never share a timestamp: `date_time` is uniquely derived. */
  lemma ToTimestampInjective(p: Parts, q: Parts)
    requires ToTimestamp(p).Ok? && ToTimestamp(q).Ok?
    requires ToTimestamp(p) == ToTimestamp(q)
    ensures p == q
  {
    ToTimestampDecompose(p);
    ToTimestampDecompose(q);
  }

  /** The first hour of 2013-03-01 is 378360 hours after the epoch. */
  lemma FirstRecordInstant()
    ensures ToTimestamp(Parts(2013, 3, 1, 0)) == Ok(Timestamp(378360))
  {
    assert DaysBeforeYear(2013) == 734868;
  }

  /** April has 30 days, and 2015 is not a leap year but 2016 is. */
  lemma CalendarExamples()
    ensures ToTimestamp(Parts(2013, 4, 31, 0)) == Err(InvalidDate)
    ensures ToTimestamp(Parts(2015, 2, 29, 12)) == Err(InvalidDate)
    ensures ToTimestamp(Parts(2016, 2, 29, 12)).Ok?
    ensures ToTimestamp(Parts(2014, 13, 1, 0)) == Err(InvalidDate)
    ensures ToTimestamp(Parts(2014, 1, 1, 24)) == Err(InvalidDate)
  {
    assert InTimestampRange(EpochHours(Parts(2016, 2, 29, 12))) by {
      assert DaysBeforeYear(2016) == 735963;
    }
  }
}
