/**
 * The UTC calendar arithmetic behind `datetime.fromtimestamp(ms / 1000, tz=timezone.utc)`,
 * done on integer milliseconds: days since 1970-01-01 become a proleptic Gregorian date and
 * the rest of the day becomes a time of day.
 */
module CivilTime {
  import opened Wrappers

  /** Python's `datetime.MINYEAR` and `datetime.MAXYEAR`. */
  const MinYear := 1
  const MaxYear := 9999

  predicate IsLeap(y: int)
  {
    y % 4 == 0 && (y % 100 != 0 || y % 400 == 0)
  }

  function YearLength(y: int): int
  {
    if IsLeap(y) then 366 else 365
  }

  function MonthLength(y: int, m: int): int
    requires 1 <= m <= 12
  {
    if m == 2 then (if IsLeap(y) then 29 else 28)
    else if m == 4 || m == 6 || m == 9 || m == 11 then 30
    else 31
  }

  /** Days from 1970-01-01 to January 1 of year `y` (negative for earlier years). */
  function DaysBeforeYear(y: int): int
    decreases if y < 1970 then 1970 - y else y - 1970
  {
    if y == 1970 then 0
    else if y > 1970 then DaysBeforeYear(y - 1) + YearLength(y - 1)
    else DaysBeforeYear(y + 1) - YearLength(y)
  }

  lemma NextYear(y: int)
    ensures DaysBeforeYear(y + 1) == DaysBeforeYear(y) + YearLength(y)
  {
  }

  lemma {:induction false} DaysBeforeYearMonotone(a: int, b: int)
    requires a < b
    ensures DaysBeforeYear(a) + YearLength(a) <= DaysBeforeYear(b)
    decreases b - a
  {
    NextYear(a);
    if a + 1 < b {
      DaysBeforeYearMonotone(a + 1, b);
    }
  }

  /** Days from January 1 of year `y` to the first day of month `m` (13 stands for the next year). */
  function DaysBeforeMonth(y: int, m: int): int
    requires 1 <= m <= 13
  {
    if m == 1 then 0 else DaysBeforeMonth(y, m - 1) + MonthLength(y, m - 1)
  }

  lemma MonthsFillYear(y: int)
    ensures DaysBeforeMonth(y, 13) == YearLength(y)
  {
    var feb := if IsLeap(y) then 29 else 28;
    assert DaysBeforeMonth(y, 2) == 31;
    assert DaysBeforeMonth(y, 3) == 59 + feb - 28;
    assert DaysBeforeMonth(y, 4) == 90 + feb - 28;
    assert DaysBeforeMonth(y, 5) == 120 + feb - 28;
    assert DaysBeforeMonth(y, 6) == 151 + feb - 28;
    assert DaysBeforeMonth(y, 7) == 181 + feb - 28;
    assert DaysBeforeMonth(y, 8) == 212 + feb - 28;
    assert DaysBeforeMonth(y, 9) == 243 + feb - 28;
    assert DaysBeforeMonth(y, 10) == 273 + feb - 28;
    assert DaysBeforeMonth(y, 11) == 304 + feb - 28;
    assert DaysBeforeMonth(y, 12) == 334 + feb - 28;
  }

  lemma {:induction false} DaysBeforeMonthNonNegative(y: int, m: int)
    requires 1 <= m <= 13
    ensures 0 <= DaysBeforeMonth(y, m)
  {
    if m > 1 {
      DaysBeforeMonthNonNegative(y, m - 1);
    }
  }

  lemma {:induction false} DaysBeforeMonthMonotone(y: int, a: int, b: int)
    requires 1 <= a < b <= 13
    ensures DaysBeforeMonth(y, a) + MonthLength(y, a) <= DaysBeforeMonth(y, b)
    decreases b - a
  {
    if a + 1 < b {
      DaysBeforeMonthMonotone(y, a + 1, b);
    }
  }

  datatype Date = Date(year: int, month: int, day: int)

  predicate ValidDate(d: Date)
  {
    1 <= d.month <= 12 && 1 <= d.day <= MonthLength(d.year, d.month)
  }

  /** Days from 1970-01-01 to `d`, negative before it. */
  function DaysFromCivil(d: Date): int
    requires ValidDate(d)
  {
    DaysBeforeYear(d.year) + DaysBeforeMonth(d.year, d.month) + d.day - 1
  }

  /** The year holding the day `offset` days after January 1 of year `y`, and that day's offset in it. */
  function YearOf(y: int, offset: int): (r: (int, int))
    ensures 0 <= r.1 < YearLength(r.0)
    ensures DaysBeforeYear(r.0) + r.1 == DaysBeforeYear(y) + offset
    decreases if offset < 0 then 400 - offset else offset
  {
    if offset < 0 then
      NextYear(y - 1);
      YearOf(y - 1, offset + YearLength(y - 1))
    else if offset >= YearLength(y) then
      NextYear(y);
      YearOf(y + 1, offset - YearLength(y))
    else
      (y, offset)
  }

  /** The month and day of the day `offset` days after the first of month `m` of year `y`. */
  function MonthOf(y: int, m: int, offset: int): (r: (int, int))
    requires 1 <= m <= 12 && 0 <= offset
    requires DaysBeforeMonth(y, m) + offset < YearLength(y)
    ensures 1 <= r.0 <= 12 && 1 <= r.1 <= MonthLength(y, r.0)
    ensures DaysBeforeMonth(y, r.0) + r.1 - 1 == DaysBeforeMonth(y, m) + offset
    decreases 12 - m
  {
    if offset < MonthLength(y, m) then
      (m, offset + 1)
    else
      MonthsFillYear(y);
      MonthOf(y, m + 1, offset - MonthLength(y, m))
  }

  /** The civil date `n` days after 1970-01-01. */
  function CivilFromDays(n: int): (d: Date)
    ensures ValidDate(d) && DaysFromCivil(d) == n
  {
    var yo := YearOf(1970, n);
    MonthsFillYear(yo.0);
    var md := MonthOf(yo.0, 1, yo.1);
    Date(yo.0, md.0, md.1)
  }

  lemma OffsetInYear(d: Date)
    requires ValidDate(d)
    ensures 0 <= DaysBeforeMonth(d.year, d.month) + d.day - 1 < YearLength(d.year)
  {
    DaysBeforeMonthNonNegative(d.year, d.month);
    DaysBeforeMonthMonotone(d.year, d.month, 13);
    MonthsFillYear(d.year);
  }

  /** Two valid dates that are the same number of days from the epoch are the same date. */
  lemma {:induction false} DaysFromCivilInjective(a: Date, b: Date)
    requires ValidDate(a) && ValidDate(b) && DaysFromCivil(a) == DaysFromCivil(b)
    ensures a == b
  {
    OffsetInYear(a);
    OffsetInYear(b);
    assert a.year == b.year by {
      if a.year < b.year {
        DaysBeforeYearMonotone(a.year, b.year);
      } else if b.year < a.year {
        DaysBeforeYearMonotone(b.year, a.year);
      }
    }
    assert a.month == b.month by {
      if a.month < b.month {
        DaysBeforeMonthMonotone(a.year, a.month, b.month);
      } else if b.month < a.month {
        DaysBeforeMonthMonotone(a.year, b.month, a.month);
      }
    }
  }

  /** `CivilFromDays` is the inverse of `DaysFromCivil` on valid dates. */
  lemma CivilFromDaysRoundTrip(d: Date)
    requires ValidDate(d)
    ensures CivilFromDays(DaysFromCivil(d)) == d
  {
    DaysFromCivilInjective(CivilFromDays(DaysFromCivil(d)), d);
  }

  /** An aware datetime in UTC, as `datetime` holds it. */
  datatype DateTime = DateTime(date: Date, hour: int, minute: int, second: int, microsecond: int)

  predicate ValidDateTime(t: DateTime)
  {
    && ValidDate(t.date) && MinYear <= t.date.year <= MaxYear
    && 0 <= t.hour < 24 && 0 <= t.minute < 60 && 0 <= t.second < 60
    && 0 <= t.microsecond < 1000000
  }

  /** The milliseconds since the epoch that `t` stands for (sub-millisecond digits dropped). */
  function EpochMillis(t: DateTime): int
    requires ValidDate(t.date)
  {
    (DaysFromCivil(t.date) * 86400 + t.hour * 3600 + t.minute * 60 + t.second) * 1000
      + t.microsecond / 1000
  }

  /** Splitting milliseconds into days, hours, minutes, seconds and milliseconds loses nothing. */
  lemma SplitMillis(ms: int)
    ensures var seconds := ms / 1000;
      var ofDay := seconds % 86400;
      && 0 <= ofDay / 3600 < 24 && 0 <= ofDay % 3600 / 60 < 60 && 0 <= ofDay % 60 < 60
      && 0 <= ms % 1000 * 1000 < 1000000 && ms % 1000 * 1000 / 1000 == ms % 1000
      && (seconds / 86400 * 86400 + ofDay / 3600 * 3600 + ofDay % 3600 / 60 * 60 + ofDay % 60) * 1000 + ms % 1000 == ms
  {
    var seconds := ms / 1000;
    var ofDay := seconds % 86400;
    assert seconds * 1000 + ms % 1000 == ms;
    assert seconds / 86400 * 86400 + ofDay == seconds;
    assert ofDay / 3600 * 3600 + ofDay % 3600 == ofDay;
    assert ofDay % 3600 / 60 * 60 + ofDay % 3600 % 60 == ofDay % 3600;
    assert ofDay % 3600 % 60 == ofDay % 60;
  }

  /** Joining in-range fields into milliseconds and splitting them again gives the fields back. */
  lemma JoinMillis(days: int, hour: int, minute: int, second: int, milli: int)
    requires 0 <= hour < 24 && 0 <= minute < 60 && 0 <= second < 60 && 0 <= milli < 1000
    ensures var seconds := days * 86400 + hour * 3600 + minute * 60 + second;
      var ms := seconds * 1000 + milli;
      && ms / 1000 == seconds && ms % 1000 == milli
      && seconds / 86400 == days && seconds % 86400 == hour * 3600 + minute * 60 + second
      && (hour * 3600 + minute * 60 + second) / 3600 == hour
      && (hour * 3600 + minute * 60 + second) % 3600 / 60 == minute
      && (hour * 3600 + minute * 60 + second) % 60 == second
  {
    var ofDay := hour * 3600 + minute * 60 + second;
    var seconds := days * 86400 + ofDay;
    DivModUnique(seconds * 1000 + milli, seconds, milli, 1000);
    DivModUnique(seconds, days, ofDay, 86400);
    DivModUnique(ofDay, hour, minute * 60 + second, 3600);
    DivModUnique(minute * 60 + second, minute, second, 60);
    DivModUnique(ofDay, hour * 60 + minute, second, 60);
  }

  /**
   * `datetime.fromtimestamp(ms / 1000, tz=timezone.utc)` on integer milliseconds. Seconds are
   * floored, as Python does for instants before the epoch; a year outside Python's range raises.
   */
  function FromTimestampMillis(ms: int): (r: Option<DateTime>)
    ensures r.Some? ==> ValidDateTime(r.value) && EpochMillis(r.value) == ms
    ensures r.Some? ==> r.value.microsecond == ms % 1000 * 1000
  {
    var seconds := ms / 1000;
    var date := CivilFromDays(seconds / 86400);
    var ofDay := seconds % 86400;
    SplitMillis(ms);
    if MinYear <= date.year <= MaxYear then
      Some(DateTime(date, ofDay / 3600, ofDay % 3600 / 60, ofDay % 60, ms % 1000 * 1000))
    else
      None
  }

  /** Division by one of the clock's constant divisors, from quotient and remainder. */
  lemma DivModUnique(x: int, q: int, r: int, d: int)
    requires d == 60 || d == 1000 || d == 3600 || d == 86400
    requires 0 <= r < d && x == q * d + r
    ensures x / d == q && x % d == r
  {
    if d == 60 {
      assert x == q * 60 + r;
    } else if d == 1000 {
      assert x == q * 1000 + r;
    } else if d == 3600 {
      assert x == q * 3600 + r;
    } else {
      assert x == q * 86400 + r;
    }
  }

  /**
   * Every in-range datetime with whole milliseconds is what `FromTimestampMillis` gives for its
   * own epoch milliseconds: the conversion misses no datetime and fails only where none exists.
   */
  lemma FromTimestampMillisComplete(t: DateTime)
    requires ValidDateTime(t) && t.microsecond % 1000 == 0
    ensures FromTimestampMillis(EpochMillis(t)) == Some(t)
  {
    var days := DaysFromCivil(t.date);
    var ms := EpochMillis(t);
    JoinMillis(days, t.hour, t.minute, t.second, t.microsecond / 1000);
    var ofDay := ms / 1000 % 86400;
    assert ms / 1000 / 86400 == days;
    assert ofDay / 3600 == t.hour && ofDay % 3600 / 60 == t.minute && ofDay % 60 == t.second;
    assert ms % 1000 * 1000 == t.microsecond;
    CivilFromDaysRoundTrip(t.date);
    assert CivilFromDays(ms / 1000 / 86400) == t.date;
  }
}
