/**
 * The calendar arithmetic of ECMAScript `Date`: `Date.UTC(y, m, d, h, min, s)`
 * and the local-time constructor `new Date(y, m, d, h, min, s)`, on integer
 * milliseconds since 1970-01-01T00:00:00Z. Local time is UTC shifted by a fixed
 * offset, so there is no daylight-saving change.
 */
module CivilTime {

  /** Lengths in milliseconds: a day is always 24 hours, as ECMAScript time values have no leap seconds. */
  function Seconds(n: int): int { n * 1000 }
  function Minutes(n: int): int { n * 60_000 }
  function Hours(n: int): int { n * 3_600_000 }
  function Days(n: int): int { n * 86_400_000 }

  predicate IsLeapYear(y: int) {
    y % 4 == 0 && (y % 100 != 0 || y % 400 == 0)
  }

  function DaysInMonth(y: int, m: int): int
    requires 1 <= m <= 12
  {
    if m == 2 then (if IsLeapYear(y) then 29 else 28)
    else if m == 4 || m == 6 || m == 9 || m == 11 then 30
    else 31
  }

  function DaysInYear(y: int): int {
    if IsLeapYear(y) then 366 else 365
  }

  /**
   * Days from 1970-01-01 to the proleptic Gregorian date y-m-d, by the
   * closed form over 400-year eras that counts years from March.
   */
  function DaysFromCivil(y: int, m: int, d: int): int
    requires 1 <= m <= 12
  {
    var yy := if m <= 2 then y - 1 else y;
    var mp := if m > 2 then m - 3 else m + 9;
    MarchDays(yy) + (153 * mp + 2) / 5 + d - 1 - 719468
  }

  /** Days from 0000-03-01 to the first of March of year `yy`. */
  function MarchDays(yy: int): int {
    var era := yy / 400;
    var yoe := yy - era * 400;
    era * 146097 + yoe * 365 + yoe / 4 - yoe / 100
  }

  /** Shifting by whole 400-year eras changes no residue the leap-year rule looks at. */
  lemma EraResidues(e: int, k: int)
    requires 0 <= k < 400
    ensures (400 * e + k) / 400 == e && (400 * e + k) % 400 == k
    ensures (400 * e + k) % 4 == k % 4 && (400 * e + k) % 100 == k % 100
  {
    assert 400 * e + k == 4 * (100 * e + k / 4) + k % 4;
    assert 400 * e + k == 100 * (4 * e + k / 100) + k % 100;
  }

  lemma YearOfEraStep(r: int)
    requires 0 <= r < 399
    ensures (r + 1) / 4 - r / 4 == (if (r + 1) % 4 == 0 then 1 else 0)
    ensures (r + 1) / 100 - r / 100 == (if (r + 1) % 100 == 0 then 1 else 0)
  {
  }

  /** A year counted from March is as long as the calendar year in which it ends. */
  lemma MarchYearLength(yy: int)
    ensures MarchDays(yy + 1) == MarchDays(yy) + DaysInYear(yy + 1)
  {
    var e := yy / 400;
    var r := yy % 400;
    EraResidues(e, r);
    if r < 399 {
      EraResidues(e, r + 1);
      YearOfEraStep(r);
    } else {
      EraResidues(e + 1, 0);
    }
  }

  // A reference count of days, one year and one month at a time.

  /** Days from 1970-01-01 to the first of January of year `y`. */
  function DaysToYear(y: int): int
    decreases if y < 1970 then 1970 - y else y - 1970
  {
    if y == 1970 then 0
    else if y > 1970 then DaysToYear(y - 1) + DaysInYear(y - 1)
    else DaysToYear(y + 1) - DaysInYear(y)
  }

  /** Days in the months of year `y` before month `m`. */
  function DaysToMonth(y: int, m: int): int
    requires 1 <= m <= 12
  {
    if m == 1 then 0 else DaysToMonth(y, m - 1) + DaysInMonth(y, m - 1)
  }

  /** Days from 1970-01-01 to y-m-d, counted year by year and month by month. */
  function CountedDays(y: int, m: int, d: int): int
    requires 1 <= m <= 12
  {
    DaysToYear(y) + DaysToMonth(y, m) + d - 1
  }

  /** February 1st to March 1st, the step where the closed form changes its year. */
  lemma FebruaryLength(y: int)
    ensures DaysFromCivil(y, 3, 1) == DaysFromCivil(y, 2, 1) + DaysInMonth(y, 2)
  {
    MarchYearLength(y - 1);
  }

  /** The first of month m + 1 comes DaysInMonth(y, m) days after the first of month m. */
  lemma MonthStep(y: int, m: int)
    requires 1 <= m < 12
    ensures DaysFromCivil(y, m + 1, 1) == DaysFromCivil(y, m, 1) + DaysInMonth(y, m)
  {
    if m == 2 {
      FebruaryLength(y);
    }
  }

  /** New Year's Day comes 31 days after the first of December. */
  lemma YearStep(y: int)
    ensures DaysFromCivil(y + 1, 1, 1) == DaysFromCivil(y, 12, 1) + 31
  {
  }

  lemma {:induction false} FirstOfMonth(y: int, m: int)
    requires 1 <= m <= 12
    ensures DaysFromCivil(y, m, 1) == DaysFromCivil(y, 1, 1) + DaysToMonth(y, m)
  {
    if m > 1 {
      FirstOfMonth(y, m - 1);
      MonthStep(y, m - 1);
    }
  }

  lemma DaysBeforeDecember(y: int)
    ensures DaysToMonth(y, 12) == DaysInYear(y) - 31
  {
    var feb := DaysInMonth(y, 2);
    assert DaysToMonth(y, 2) == 31;
    assert DaysToMonth(y, 3) == 31 + feb;
    assert DaysToMonth(y, 4) == 62 + feb;
    assert DaysToMonth(y, 5) == 92 + feb;
    assert DaysToMonth(y, 6) == 123 + feb;
    assert DaysToMonth(y, 7) == 153 + feb;
    assert DaysToMonth(y, 8) == 184 + feb;
    assert DaysToMonth(y, 9) == 215 + feb;
    assert DaysToMonth(y, 10) == 245 + feb;
    assert DaysToMonth(y, 11) == 276 + feb;
  }

  lemma YearLength(y: int)
    ensures DaysFromCivil(y + 1, 1, 1) == DaysFromCivil(y, 1, 1) + DaysInYear(y)
  {
    FirstOfMonth(y, 12);
    YearStep(y);
    DaysBeforeDecember(y);
  }

  lemma {:induction false} FirstOfYear(y: int)
    ensures DaysFromCivil(y, 1, 1) == DaysToYear(y)
    decreases if y < 1970 then 1970 - y else y - 1970
  {
    if y > 1970 {
      FirstOfYear(y - 1);
      YearLength(y - 1);
    } else if y < 1970 {
      FirstOfYear(y + 1);
      YearLength(y);
    }
  }

  /** The closed form agrees with counting days one year and one month at a time. */
  lemma DaysFromCivilCounts(y: int, m: int, d: int)
    requires 1 <= m <= 12
    ensures DaysFromCivil(y, m, d) == CountedDays(y, m, d)
  {
    FirstOfMonth(y, m);
    FirstOfYear(y);
  }

  /** ECMAScript MakeFullYear: years 0 to 99 are read as 1900 to 1999. */
  function FullYear(y: int): int {
    if 0 <= y <= 99 then 1900 + y else y
  }

  /**
   * ECMAScript MakeDay(year, month, date) with a zero-based month: months
   * outside 0..11 carry into the year and dates outside
   * the month carry into the next or previous months.
   */
  function MakeDay(year: int, month: int, date: int): int {
    DaysFromCivil(year + month / 12, month % 12 + 1, 1) + date - 1
  }

  /**
   * `Date.UTC(year, month, date, hour, minute, second)`, month zero-based:
   * MakeDate(MakeDay(...), MakeTime(...)) in milliseconds.
   */
  function DateUtc(year: int, month: int, date: int, hour: int, minute: int, second: int): int {
    MakeDay(FullYear(year), month, date) * 86_400_000 + hour * 3_600_000 + minute * 60_000 + second * 1000
  }

  /**
   * `new Date(year, month, date, hour, minute, second)`: the same fields read
   * as wall-clock time in a zone `offset` milliseconds ahead of UTC.
   */
  function DateLocal(offset: int, year: int, month: int, date: int, hour: int, minute: int, second: int): int {
    DateUtc(year, month, date, hour, minute, second) - offset
  }

  /** Within the year the zero-based month of MakeDay is the civil month minus one. */
  lemma MakeDayInYear(year: int, month: int, date: int)
    requires 0 <= month <= 11
    ensures MakeDay(year, month, date) == CountedDays(year, month + 1, date)
  {
    DaysFromCivilCounts(year, month + 1, 1);
  }

  /** 1970-01-01 is day zero and 2024-01-15 is day 19737. */
  lemma KnownDays()
    ensures DaysFromCivil(1970, 1, 1) == 0
    ensures DaysFromCivil(2024, 1, 15) == 19737
  {
  }
}
