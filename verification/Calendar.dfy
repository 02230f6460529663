/**
 The proleptic Gregorian calendar as Go's time.Date and Time.Date see it. Days are counted from 1 January
 of year 1, the day of Go's zero time.
 */
module Calendar {

  predicate IsLeap(y: int) { y % 4 == 0 && (y % 100 != 0 || y % 400 == 0) }

  function DaysBeforeYear(y: int): int {
    365 * (y - 1) + (y - 1) / 4 - (y - 1) / 100 + (y - 1) / 400
  }

  function DaysIn(y: int, m: int): int {
    if m == 2 then (if IsLeap(y) then 29 else 28) else if m in {4, 6, 9, 11} then 30 else 31
  }

  /** Days of the year before a month; month 13 stands for the end of the year. */
  function DaysBeforeMonth(y: int, m: int): int
    requires 1 <= m <= 13
  {
    (match m
     case 1 => 0 case 2 => 31 case 3 => 59 case 4 => 90 case 5 => 120 case 6 => 151 case 7 => 181
     case 8 => 212 case 9 => 243 case 10 => 273 case 11 => 304 case 12 => 334 case 13 => 365)
    + if m > 2 && IsLeap(y) then 1 else 0
  }

  /** time.Date at midnight UTC, which accepts and normalises months and days out of range. */
  function DateOf(year: int, month: int, day: int): int {
    var y := year + (month - 1) / 12;
    DaysBeforeYear(y) + DaysBeforeMonth(y, (month - 1) % 12 + 1) + day - 1
  }

  datatype Civil = Civil(year: int, month: int, day: int)

  predicate IsReal(c: Civil) { 1 <= c.month <= 12 && 1 <= c.day <= DaysIn(c.year, c.month) }

  // ---------------------------------------------------------------------------------------------
  // From a day to its date
  // ---------------------------------------------------------------------------------------------

  /** The multiples of k up to x, one further on. */
  lemma NextQuotient(x: int, k: int)
    requires k > 0
    ensures (x + 1) / k == x / k + if (x + 1) % k == 0 then 1 else 0
  {
    var q, r := x / k, x % k;
    assert x == q * k + r;
    if r == k - 1 {
      assert x + 1 == (q + 1) * k + 0;
      QuotientIs(x + 1, k, q + 1, 0);
    } else {
      QuotientIs(x + 1, k, q, r + 1);
    }
  }

  lemma QuotientIs(x: int, k: int, q: int, r: int)
    requires k > 0 && x == q * k + r && 0 <= r < k
    ensures x / k == q && x % k == r
  {
    var d := x / k - q;
    assert d * k == r - x % k;
    assert -k < d * k < k;
    SmallMultiple(d, k);
    assert (-d) * k == -(d * k);
    SmallMultiple(-d, k);
  }

  lemma SmallMultiple(d: int, k: int)
    requires k > 0 && d * k < k
    ensures d <= 0
  {
  }

  /** A leap year is a multiple of 4, less the multiples of 100, plus those of 400. */
  lemma LeapYearsCounted(y: int)
    ensures (if y % 4 == 0 then 1 else 0) - (if y % 100 == 0 then 1 else 0) + (if y % 400 == 0 then 1 else 0)
      == if IsLeap(y) then 1 else 0
  {
    if y % 100 == 0 { QuotientIs(y, 4, 25 * (y / 100), 0); }
    if y % 400 == 0 { QuotientIs(y, 100, 4 * (y / 400), 0); }
  }

  lemma YearLength(y: int)
    ensures DaysBeforeYear(y + 1) == DaysBeforeYear(y) + DaysBeforeMonth(y, 13)
  {
    hide IsLeap;
    NextQuotient(y - 1, 4);
    NextQuotient(y - 1, 100);
    NextQuotient(y - 1, 400);
    LeapYearsCounted(y);
    assert y - 1 + 1 == y && y + 1 - 1 == y;
  }

  lemma MonthLength(y: int, m: int)
    requires 1 <= m <= 12
    ensures DaysBeforeMonth(y, m + 1) == DaysBeforeMonth(y, m) + DaysIn(y, m)
  {
  }

  /** The year of a day, looked for from a year that has already begun. */
  function YearFrom(n: int, y: int): (r: int)
    requires DaysBeforeYear(y) <= n
    ensures DaysBeforeYear(r) <= n < DaysBeforeYear(r + 1)
    decreases n - DaysBeforeYear(y)
  {
    YearLength(y);
    if n < DaysBeforeYear(y + 1) then y else YearFrom(n, y + 1)
  }

  function YearOf(n: int): (y: int)
    ensures DaysBeforeYear(y) <= n < DaysBeforeYear(y + 1)
  {
    var r := n % 146_097;
    ShiftedYear(YearFrom(r, r / 366 + 1), n / 146_097);
    ShiftedYear(YearFrom(r, r / 366 + 1) + 1, n / 146_097);
    400 * (n / 146_097) + YearFrom(r, r / 366 + 1)
  }

  /** The calendar repeats every 400 years. */
  lemma ShiftedYear(y: int, cycles: int)
    ensures DaysBeforeYear(400 * cycles + y) == 146_097 * cycles + DaysBeforeYear(y)
  {
    var x := y - 1;
    QuotientIs(x + 400 * cycles, 4, x / 4 + 100 * cycles, x % 4);
    QuotientIs(x + 400 * cycles, 100, x / 100 + 4 * cycles, x % 100);
    QuotientIs(x + 400 * cycles, 400, x / 400 + cycles, x % 400);
    assert 400 * cycles + y - 1 == x + 400 * cycles;
  }

  /** The month a day of the year falls in. */
  function MonthFrom(y: int, dayOfYear: int, m: int): (r: int)
    requires 1 <= m <= 12 && DaysBeforeMonth(y, m) <= dayOfYear < DaysBeforeMonth(y, 13)
    ensures 1 <= r <= 12 && DaysBeforeMonth(y, r) <= dayOfYear < DaysBeforeMonth(y, r + 1)
    decreases 12 - m
  {
    if dayOfYear < DaysBeforeMonth(y, m + 1) then m else MonthFrom(y, dayOfYear, m + 1)
  }

  /** Time.Date: the date of a day. */
  function CivilOf(n: int): (c: Civil)
    ensures IsReal(c) && DateOf(c.year, c.month, c.day) == n
  {
    var y := YearOf(n);
    YearLength(y);
    var m := MonthFrom(y, n - DaysBeforeYear(y), 1);
    MonthLength(y, m);
    var day := n - DaysBeforeYear(y) - DaysBeforeMonth(y, m) + 1;
    MonthEdges(y, m);
    Civil(y, m, day)
  }

  lemma MonthIndex(y: int, m: int)
    requires 1 <= m <= 12
    ensures y + (m - 1) / 12 == y && (m - 1) % 12 + 1 == m
  {
  }

  lemma NextMonthIndex(y: int)
    ensures y + (13 - 1) / 12 == y + 1 && (13 - 1) % 12 + 1 == 1
  {
  }

  lemma MonthEdges(y: int, m: int)
    requires 1 <= m <= 12
    ensures DateOf(y, m, 1) == DaysBeforeYear(y) + DaysBeforeMonth(y, m)
    ensures DateOf(y, m + 1, 0) == DateOf(y, m, 1) + DaysIn(y, m) - 1
    ensures forall d :: DateOf(y, m, d) == DateOf(y, m, 1) + d - 1
  {
    hide DaysBeforeYear;
    MonthIndex(y, m);
    YearLength(y);
    MonthLength(y, m);
    JanuaryIsFirst(y + 1);
    if m < 12 { MonthIndex(y, m + 1); } else { NextMonthIndex(y); }
  }

  lemma {:induction false} LaterYearsStartLater(a: int, b: int)
    requires a <= b
    ensures DaysBeforeYear(a) <= DaysBeforeYear(b)
    decreases b - a
  {
    if a < b {
      LaterYearsStartLater(a, b - 1);
      YearLength(b - 1);
    }
  }

  lemma YearIsUnique(n: int, y: int)
    requires DaysBeforeYear(y) <= n < DaysBeforeYear(y + 1)
    ensures YearOf(n) == y
  {
    var r := YearOf(n);
    if r < y { LaterYearsStartLater(r + 1, y); }
    if y < r { LaterYearsStartLater(y + 1, r); }
  }

  lemma MonthIsUnique(y: int, dayOfYear: int, a: int, b: int)
    requires 1 <= a <= 12 && DaysBeforeMonth(y, a) <= dayOfYear < DaysBeforeMonth(y, a + 1)
    requires 1 <= b <= 12 && DaysBeforeMonth(y, b) <= dayOfYear < DaysBeforeMonth(y, b + 1)
    ensures a == b
  {
  }

  /** A real date is the date of its own day: the two directions are inverse. */
  lemma RealDatesRoundTrip(c: Civil)
    requires IsReal(c)
    ensures CivilOf(DateOf(c.year, c.month, c.day)) == c
  {
    hide DaysBeforeMonth, DaysBeforeYear;
    var n := DateOf(c.year, c.month, c.day);
    RealDayOfYear(c);
    YearIsUnique(n, c.year);
    var d := CivilOf(n);
    MonthIsUnique(c.year, n - DaysBeforeYear(c.year), d.month, c.month);
  }

  /** A real date's day falls in its year, and within the year in its month. */
  lemma RealDayOfYear(c: Civil)
    requires IsReal(c)
    ensures var n := DateOf(c.year, c.month, c.day);
      && n == DaysBeforeYear(c.year) + DaysBeforeMonth(c.year, c.month) + c.day - 1
      && DaysBeforeYear(c.year) <= n < DaysBeforeYear(c.year + 1)
      && DaysBeforeMonth(c.year, c.month) <= n - DaysBeforeYear(c.year) < DaysBeforeMonth(c.year, c.month + 1)
  {
    hide DaysBeforeYear;
    YearLength(c.year);
    MonthLength(c.year, c.month);
  }

  /** Normalising changes exactly the dates that are not real. */
  lemma NormalisingIsDetectable(year: int, month: int, day: int)
    ensures CivilOf(DateOf(year, month, day)) == Civil(year, month, day) <==> IsReal(Civil(year, month, day))
  {
    if IsReal(Civil(year, month, day)) { RealDatesRoundTrip(Civil(year, month, day)); }
  }

  // ---------------------------------------------------------------------------------------------
  // Months and years as stretches of days
  // ---------------------------------------------------------------------------------------------

  /** Time.AddDate. */
  function AddDate(n: int, years: int, months: int, days: int): int {
    var c := CivilOf(n);
    DateOf(c.year + years, c.month + months, c.day + days)
  }

  /** The days of a month are those from its first to the day before the next one's first. */
  lemma MonthIsAStretch(y: int, m: int, n: int)
    requires 1 <= m <= 12
    ensures CivilOf(n).year == y && CivilOf(n).month == m <==> DateOf(y, m, 1) <= n <= DateOf(y, m + 1, 0)
  {
    hide DaysBeforeMonth, DaysBeforeYear, CivilOf;
    MonthEdges(y, m);
    var c := CivilOf(n);
    RealDayOfYear(c);
    if DateOf(y, m, 1) <= n <= DateOf(y, m + 1, 0) {
      var d := Civil(y, m, n - DateOf(y, m, 1) + 1);
      RealDatesRoundTrip(d);
    }
  }

  /** The days of a year are those from 1 January to the day before the next 1 January. */
  lemma YearIsAStretch(y: int, n: int)
    ensures CivilOf(n).year == y <==> DateOf(y, 1, 1) <= n <= DateOf(y + 1, 1, 0)
  {
    hide DaysBeforeMonth, DaysBeforeYear;
    MonthEdges(y, 1);
    MonthEdges(y + 1, 1);
    JanuaryIsFirst(y);
    JanuaryIsFirst(y + 1);
    RealDayOfYear(CivilOf(n));
    if DateOf(y, 1, 1) <= n <= DateOf(y + 1, 1, 0) { YearIsUnique(n, y); }
  }

  lemma JanuaryIsFirst(y: int)
    ensures DaysBeforeMonth(y, 1) == 0
  {
  }

  /** Fixed points: the day Unix time starts, the length of the 400-year cycle, and which century years are leap. */
  lemma FixedPoints(y: int)
    ensures DateOf(1, 1, 1) == 0 && DateOf(1970, 1, 1) == 719_162
    ensures DateOf(y + 400, 1, 1) == DateOf(y, 1, 1) + 146_097
    ensures DateOf(2000, 3, 1) == DateOf(2000, 2, 28) + 2 && DateOf(1900, 3, 1) == DateOf(1900, 2, 28) + 1
    ensures DateOf(2024, 3, 1) == DateOf(2024, 2, 28) + 2 && DateOf(2023, 3, 1) == DateOf(2023, 2, 28) + 1
  {
    assert (y + 399) / 4 == (y - 1) / 4 + 100 && (y + 399) / 100 == (y - 1) / 100 + 4 && (y + 399) / 400 == (y - 1) / 400 + 1;
  }
}
