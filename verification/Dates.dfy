/**
 Partial dates (internal/domain/partialdate.go) and the history window (internal/application/entitlements.go,
 internal/adapters/httpapi/handlers.go): constructors, printing and parsing, and which releases a window shows.
 */
module Dates {
  import opened Wrappers
  import opened Text
  import opened PartialDates
  import opened Calendar

  datatype Error = Invalid

  predicate YearInRange(year: int) { 1970 <= year <= 2200 }

  // ---------------------------------------------------------------------------------------------
  // The constructors
  // ---------------------------------------------------------------------------------------------

  /** NewExactDate: out-of-range components are normalised and then noticed. */
  function NewExactDate(year: int, month: int, day: int): Result<PartialDate, Error> {
    if !YearInRange(year) then Failure(Invalid)
    else
      var t := DateOf(year, month, day);
      if CivilOf(t) != Civil(year, month, day) then Failure(Invalid) else Success(PartialDate(t, ExactDay))
  }

  function NewMonthDate(year: int, month: int): Result<PartialDate, Error> {
    if !YearInRange(year) || !(1 <= month <= 12) then Failure(Invalid)
    else Success(PartialDate(DateOf(year, month, 1), MonthOnly))
  }

  function NewYearDate(year: int): Result<PartialDate, Error> {
    if !YearInRange(year) then Failure(Invalid) else Success(PartialDate(DateOf(year, 1, 1), YearOnly))
  }

  /** NewPartialDate: a stored instant and precision, checked against the anchoring rule. */
  function NewPartialDate(anchor: int, precision: Precision): Result<PartialDate, Error> {
    if precision == Unknown then (if anchor != 0 then Failure(Invalid) else Success(UNKNOWN_DATE))
    else if anchor == 0 then Failure(Invalid)
    else
      var a := CivilOf(anchor / DAY);
      if precision == MonthOnly && a.day != 1 then Failure(Invalid)
      else if precision == YearOnly && (a.day != 1 || a.month != 1) then Failure(Invalid)
      else Success(PartialDate(DateOf(a.year, a.month, a.day), precision))
  }

  /** What the constructors promise: the anchor is the first day the precision could denote. */
  predicate WellAnchored(d: PartialDate) {
    match d.precision
    case Unknown => d.anchor == 0
    case ExactDay => true
    case MonthOnly => CivilOf(d.anchor).day == 1
    case YearOnly => CivilOf(d.anchor).day == 1 && CivilOf(d.anchor).month == 1
  }

  /** Whether one of the three constructors, or the unknown date, gives d. */
  ghost predicate Built(d: PartialDate) {
    || d == UNKNOWN_DATE
    || (exists y, m, day :: NewExactDate(y, m, day) == Success(d))
    || (exists y, m :: NewMonthDate(y, m) == Success(d))
    || (exists y :: NewYearDate(y) == Success(d))
  }

  /** What is built is well anchored in a year in range, and everything such is built. */
  lemma BuiltIff(d: PartialDate)
    ensures Built(d) <==> WellAnchored(d) && (d.precision != Unknown ==> 1970 <= CivilOf(d.anchor).year <= 2200)
  {
    hide CivilOf, DateOf;
    var c := CivilOf(d.anchor);
    if WellAnchored(d) && (d.Known() ==> YearInRange(c.year)) {
      match d.precision
      case Unknown =>
      case ExactDay => assert NewExactDate(c.year, c.month, c.day) == Success(d);
      case MonthOnly => assert NewMonthDate(c.year, c.month) == Success(d);
      case YearOnly => assert NewYearDate(c.year) == Success(d);
    }
    if m, y :| NewMonthDate(y, m) == Success(d) { RealDatesRoundTrip(Civil(y, m, 1)); }
    if y :| NewYearDate(y) == Success(d) { RealDatesRoundTrip(Civil(y, 1, 1)); }
  }

  /** NewExactDate accepts exactly the real days of the years in range. */
  lemma ExactDatesAreReal(year: int, month: int, day: int)
    ensures NewExactDate(year, month, day).Success? <==> 1970 <= year <= 2200 && IsReal(Civil(year, month, day))
  {
    hide CivilOf, DateOf;
    NormalisingIsDetectable(year, month, day);
  }

  /** Storing a date as its anchor's midnight and its precision, and rebuilding it, changes nothing. */
  lemma StoredDatesRoundTrip(d: PartialDate)
    requires Built(d)
    ensures NewPartialDate(Midnight(d.anchor), d.precision) == Success(d)
  {
    hide CivilOf, DateOf, Built;
    BuiltIff(d);
    assert Midnight(d.anchor) / DAY == d.anchor;
    if d.Known() { KnownAnchorsAreLate(d.anchor); }
  }

  lemma KnownAnchorsAreLate(n: int)
    requires YearInRange(CivilOf(n).year)
    ensures n > 0
  {
    var c := CivilOf(n);
    hide DaysBeforeMonth;
    RealDayOfYear(c);
    LaterYearsStartLater(1970, c.year);
  }

  /** Rebuilding never yields a badly anchored date, whatever was stored. */
  lemma RebuiltDatesAreAnchored(anchor: int, precision: Precision)
    ensures NewPartialDate(anchor, precision).Success? ==> WellAnchored(NewPartialDate(anchor, precision).value)
  {
    hide CivilOf, DateOf;
    RealDatesRoundTrip(CivilOf(anchor / DAY));
  }

  // ---------------------------------------------------------------------------------------------
  // What a precision denotes
  // ---------------------------------------------------------------------------------------------

  /** The calendar days a date could be: its day, any of its month's, or any of its year's. */
  predicate Denotes(d: PartialDate, day: int) {
    var c, a := CivilOf(day), CivilOf(d.anchor);
    match d.precision
    case ExactDay => c == a
    case MonthOnly => c.year == a.year && c.month == a.month
    case YearOnly => c.year == a.year
    case Unknown => false
  }

  function PeriodEnd(d: PartialDate): int {
    match d.precision
    case ExactDay => d.anchor
    case MonthOnly => AddDate(d.anchor, 0, 1, -1)
    case YearOnly => AddDate(d.anchor, 1, 0, -1)
    case Unknown => 0
  }

  /** A date denotes exactly the days from its anchor to the end of its period, leap years included. */
  lemma DenotesAnchorToPeriodEnd(d: PartialDate, day: int)
    requires WellAnchored(d) && d.Known()
    ensures Denotes(d, day) <==> d.anchor <= day <= PeriodEnd(d)
    ensures d.anchor <= PeriodEnd(d)
  {
    hide CivilOf, DateOf;
    var a := CivilOf(d.anchor);
    match d.precision
    case ExactDay =>
      assert CivilOf(day) == a <==> day == d.anchor;
    case MonthOnly =>
      MonthIsAStretch(a.year, a.month, day);
      MonthIsAStretch(a.year, a.month, d.anchor);
    case YearOnly =>
      YearIsAStretch(a.year, day);
      YearIsAStretch(a.year, d.anchor);
  }

  // ---------------------------------------------------------------------------------------------
  // The history window
  // ---------------------------------------------------------------------------------------------

  /** UTCDayOf: the midnight of the instant's UTC day, as a day. */
  function UtcDayOf(t: int): int {
    var c := CivilOf(t / DAY);
    DateOf(c.year, c.month, c.day)
  }

  /** WithinHistoryWindow. A boundary of 0, Go's zero time, is no boundary. */
  predicate WithinHistoryWindow(d: PartialDate, firstObservedAt: int, since: int) {
    if since == 0 then true
    else if d.Known() then !(PeriodEnd(d) < UtcDayOf(since))
    else !(firstObservedAt < since)
  }

  /** latestOutsideWindow, for a product whose summary names a latest release. */
  predicate LatestOutsideWindow(latest: Option<PartialDate>, since: int) {
    since != 0 && latest.Some? && latest.value.Known() && PeriodEnd(latest.value) < UtcDayOf(since)
  }

  /** The boundary's day is the one whose midnight the instant is at or after, and before the next. */
  lemma UtcDayHoldsInstant(t: int)
    ensures Midnight(UtcDayOf(t)) <= t < Midnight(UtcDayOf(t) + 1)
  {
    hide CivilOf, DateOf;
  }

  /**
   A dated release is shown exactly when some day its precision could denote falls on or after the
   boundary's UTC day; an undated one exactly when it was first observed by the boundary's instant or
   later; and the response says the latest release is outside exactly when a dated one is not shown.
   */
  lemma WindowShowsWhatMayBeInside(d: PartialDate, firstObservedAt: int, since: int)
    requires WellAnchored(d) && since != 0
    ensures d.Known() ==>
      (WithinHistoryWindow(d, firstObservedAt, since) <==> exists day :: Denotes(d, day) && day >= UtcDayOf(since))
    ensures !d.Known() ==> (WithinHistoryWindow(d, firstObservedAt, since) <==> firstObservedAt >= since)
    ensures LatestOutsideWindow(Some(d), since) <==> d.Known() && !WithinHistoryWindow(d, firstObservedAt, since)
  {
    hide Denotes, UtcDayOf, PeriodEnd, WellAnchored;
    if d.Known() {
      var end := PeriodEnd(d);
      DenotesAnchorToPeriodEnd(d, end);
      if exists day :: Denotes(d, day) && day >= UtcDayOf(since) {
        var day :| Denotes(d, day) && day >= UtcDayOf(since);
        DenotesAnchorToPeriodEnd(d, day);
      }
    }
  }

  // ---------------------------------------------------------------------------------------------
  // Printing and parsing
  // ---------------------------------------------------------------------------------------------

  predicate IsDigit(c: char) { '0' <= c <= '9' }

  function Digit(n: nat): (c: char)
    requires n < 10
    ensures IsDigit(c) && Value(c) == n
  {
    ('0' as int + n) as char
  }

  function Value(c: char): nat
    requires IsDigit(c)
  {
    c as int - '0' as int
  }

  function TwoDigits(n: nat): string
    requires n < 100
  {
    [Digit(n / 10), Digit(n % 10)]
  }

  function FourDigits(n: nat): string
    requires n < 10_000
  {
    TwoDigits(n / 100) + TwoDigits(n % 100)
  }

  /** A run of digits read as a number, or nothing when some character is not a digit. */
  function Number(s: string): Option<nat> {
    if |s| == 0 then Some(0)
    else
      var before := Number(s[..|s| - 1]);
      if before.Some? && IsDigit(s[|s| - 1]) then Some(10 * before.value + Value(s[|s| - 1])) else None
  }

  /** PartialDate.String: Time.Format with as much of "2006-01-02" as is known. */
  function Print(d: PartialDate): string
    requires d.Known() ==> 0 <= CivilOf(d.anchor).year < 10_000
  {
    var c := CivilOf(d.anchor);
    match d.precision
    case ExactDay => FourDigits(c.year) + "-" + TwoDigits(c.month) + "-" + TwoDigits(c.day)
    case MonthOnly => FourDigits(c.year) + "-" + TwoDigits(c.month)
    case YearOnly => FourDigits(c.year)
    case Unknown => ""
  }

  /** time.Parse with the layouts "2006", "2006-01" and "2006-01-02", which also checks month and day. */
  function ParseYear(s: string): Option<nat>
    requires |s| == 4
  {
    Number(s)
  }

  function ParseYearMonth(s: string): Option<(nat, nat)>
    requires |s| == 7
  {
    var y, m := Number(s[..4]), Number(s[5..7]);
    if y.Some? && s[4] == '-' && m.Some? && 1 <= m.value <= 12 then Some((y.value, m.value)) else None
  }

  function ParseDay(s: string): Option<(nat, nat, nat)>
    requires |s| == 10
  {
    var ym, d := ParseYearMonth(s[..7]), Number(s[8..10]);
    if ym.Some? && s[7] == '-' && d.Some? && 1 <= d.value <= DaysIn(ym.value.0, ym.value.1)
    then Some((ym.value.0, ym.value.1, d.value)) else None
  }

  /** ParsePartialDate. */
  function Parse(text: string): Result<PartialDate, Error> {
    var s := Trim(text);
    if |s| == 0 then Success(UNKNOWN_DATE)
    else if |s| == 4 then
      var t := ParseYear(s);
      if t.None? then Failure(Invalid) else NewYearDate(t.value)
    else if |s| == 7 then
      var t := ParseYearMonth(s);
      if t.None? then Failure(Invalid) else NewMonthDate(t.value.0, t.value.1)
    else if |s| == 10 then
      var t := ParseDay(s);
      if t.None? then Failure(Invalid) else NewExactDate(t.value.0, t.value.1, t.value.2)
    else Failure(Invalid)
  }

  lemma NumberInParts(s: string, a: char, b: char)
    ensures Number(s + [a, b]) ==
      if Number(s).Some? && IsDigit(a) && IsDigit(b) then Some(100 * Number(s).value + 10 * Value(a) + Value(b)) else None
  {
    assert (s + [a, b])[..|s| + 1] == s + [a];
    assert (s + [a])[..|s|] == s;
  }

  lemma NumberOfTwo(s: string)
    requires |s| == 2
    ensures Number(s) == if IsDigit(s[0]) && IsDigit(s[1]) then Some(10 * Value(s[0]) + Value(s[1])) else None
  {
    NumberInParts("", s[0], s[1]);
    assert "" + [s[0], s[1]] == s;
  }

  /** Digits printed are read back, and digits read are printed back. */
  lemma TwoDigitsRoundTrip(n: nat, s: string)
    ensures n < 100 ==> Number(TwoDigits(n)) == Some(n)
    ensures |s| == 2 && Number(s).Some? ==> Number(s).value < 100 && TwoDigits(Number(s).value) == s
  {
    hide Number;
    if n < 100 { NumberOfTwo(TwoDigits(n)); }
    if |s| == 2 && Number(s).Some? {
      NumberOfTwo(s);
      var high, low := Value(s[0]), Value(s[1]);
      assert Number(s).value == 10 * high + low && (10 * high + low) / 10 == high && (10 * high + low) % 10 == low;
      assert TwoDigits(Number(s).value) == [s[0], s[1]] == s;
    }
  }

  lemma FourDigitsRoundTrip(n: nat, s: string)
    ensures n < 10_000 ==> Number(FourDigits(n)) == Some(n)
    ensures |s| == 4 && Number(s).Some? ==> Number(s).value < 10_000 && FourDigits(Number(s).value) == s
  {
    if n < 10_000 {
      TwoDigitsRoundTrip(n / 100, "");
      TwoDigitsRoundTrip(n % 100, "");
      var low := TwoDigits(n % 100);
      NumberInParts(TwoDigits(n / 100), low[0], low[1]);
      assert [low[0], low[1]] == low;
    }
    if |s| == 4 && Number(s).Some? {
      assert s == s[..2] + [s[2], s[3]];
      NumberInParts(s[..2], s[2], s[3]);
      TwoDigitsRoundTrip(0, s[..2]);
      var low := [s[2], s[3]];
      NumberOfTwo(low);
      TwoDigitsRoundTrip(0, low);
      var high := Number(s[..2]).value;
      var value := 10 * Value(s[2]) + Value(s[3]);
      assert Number(s).value == 100 * high + value && value < 100;
      assert Number(s).value / 100 == high && Number(s).value % 100 == value;
      assert Number(low) == Some(value);
    }
  }

  /** A string of digits and dashes is already trimmed. */
  lemma PrintedIsTrimmed(s: string)
    requires |s| > 0 && IsDigit(s[0]) && IsDigit(s[|s| - 1])
    ensures Trim(s) == s
  {
  }

  /** Parsing what a date prints gives the date back, for every date the constructors build. */
  lemma PrintedDatesParse(d: PartialDate)
    requires Built(d)
    ensures d.Known() ==> 0 <= CivilOf(d.anchor).year < 10_000
    ensures Parse(Print(d)) == Success(d)
  {
    hide CivilOf, DateOf, Built, Number, TwoDigits;
    BuiltIff(d);
    if d.Known() {
      var c := CivilOf(d.anchor);
      FourDigitsRoundTrip(c.year, "");
      TwoDigitsRoundTrip(c.month, "");
      TwoDigitsRoundTrip(c.day, "");
      PiecesOfPrint(d);
      RealDatesRoundTrip(c);
    }
  }

  /** Where the pieces of a printed date are. */
  lemma PiecesOfPrint(d: PartialDate)
    requires d.Known() && 0 <= CivilOf(d.anchor).year < 10_000
    ensures var c, s := CivilOf(d.anchor), Print(d);
      && Trim(s) == s && |s| == (match d.precision case ExactDay => 10 case MonthOnly => 7 case _ => 4)
      && s[..4] == FourDigits(c.year)
      && (d.precision != YearOnly ==> s[4] == '-' && s[5..7] == TwoDigits(c.month))
      && (d.precision == ExactDay ==> (
            && s[7] == '-' && s[8..10] == TwoDigits(c.day)
            && s[..7][..4] == FourDigits(c.year) && s[..7][5..7] == TwoDigits(c.month)))
  {
    hide CivilOf, Trim;
    var s := Print(d);
    PrintedIsTrimmed(s);
  }

  /** Printing what any accepted string parses to gives the string back, trimmed. */
  lemma ParsedDatesPrint(text: string)
    requires Parse(text).Success?
    ensures var d := Parse(text).value;
      && (d.Known() ==> 0 <= CivilOf(d.anchor).year < 10_000)
      && Print(d) == Trim(text)
  {
    hide CivilOf, DateOf, Number, TwoDigits, FourDigits, Trim;
    var s := Trim(text);
    if |s| == 4 {
      FourDigitsRoundTrip(0, s);
      RealDatesRoundTrip(Civil(ParseYear(s).value, 1, 1));
    } else if |s| == 7 {
      var t := ParseYearMonth(s).value;
      FourDigitsRoundTrip(0, s[..4]);
      TwoDigitsRoundTrip(0, s[5..7]);
      RealDatesRoundTrip(Civil(t.0, t.1, 1));
      assert s == s[..4] + "-" + s[5..7];
    } else if |s| == 10 {
      var t := ParseDay(s).value;
      FourDigitsRoundTrip(0, s[..7][..4]);
      TwoDigitsRoundTrip(0, s[..7][5..7]);
      TwoDigitsRoundTrip(0, s[8..10]);
      RealDatesRoundTrip(Civil(t.0, t.1, t.2));
      assert s == s[..7][..4] + "-" + s[..7][5..7] + "-" + s[8..10];
    }
  }
}
