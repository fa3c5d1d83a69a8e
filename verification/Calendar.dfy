/**
 * Day numbers, civil dates and timestamps (src/storage/version.rs).
 *
 * The reference is the proleptic Gregorian calendar (section 3.2.1 of ISO 8601:2004):
 * month lengths, the 4/100/400 leap rule and the calendar successor of a date.
 */
module Calendar {
  import opened Division

  datatype Date = Date(year: int, month: int, day: int)

  // ---------------------------------------------------------------------
  //  The calendar
  // ---------------------------------------------------------------------

  predicate Leap(y: int) { y % 4 == 0 && (y % 100 != 0 || y % 400 == 0) }

  function DaysInMonth(y: int, m: int): int {
    if m == 2 then (if Leap(y) then 29 else 28)
    else if m == 4 || m == 6 || m == 9 || m == 11 then 30
    else 31
  }

  predicate Valid(d: Date) { 1 <= d.month <= 12 && 1 <= d.day <= DaysInMonth(d.year, d.month) }

  function NextDay(d: Date): Date {
    if d.day < DaysInMonth(d.year, d.month) then d.(day := d.day + 1)
    else if d.month < 12 then Date(d.year, d.month + 1, 1)
    else Date(d.year + 1, 1, 1)
  }

  // ---------------------------------------------------------------------
  //  The conversion
  // ---------------------------------------------------------------------

  /** Rust's division truncates toward zero. */
  function TruncDiv(a: int, b: int): int
    requires b > 0
  {
    if a >= 0 then a / b else -((-a) / b)
  }

  lemma TruncDivOfShifted(z: int)
    ensures TruncDiv(if z >= 0 then z else z - 146096, 146097) == z / 146097
  {
  }

  function YearOfEra(doe: int): int {
    (doe - doe / 1460 + doe / 36524 - doe / 146096) / 365
  }

  /** Days from the first of March of year 0 of an era to that of year yoe. */
  function YearStart(yoe: int): int { 365 * yoe + yoe / 4 - yoe / 100 }

  function FromMarch(y: int, doy: int): Date {
    var mp := (5 * doy + 2) / 153;
    var d := doy - (153 * mp + 2) / 5 + 1;
    var m := if mp < 10 then mp + 3 else mp - 9;
    Date(if m <= 2 then y + 1 else y, m, d)
  }

  function CivilDate(days: int): Date {
    var z := days + 719468;
    var era := TruncDiv(if z >= 0 then z else z - 146096, 146097);
    DateInEra(era, z - era * 146097)
  }

  function DateInEra(era: int, doe: int): Date {
    var yoe := YearOfEra(doe);
    FromMarch(yoe + era * 400, doe - YearStart(yoe))
  }

  /** The inverse formula of the test suite. */
  function DaysFromCivil(d: Date): int {
    var y := if d.month <= 2 then d.year - 1 else d.year;
    var m := if d.month <= 2 then d.month + 12 else d.month;
    var era := TruncDiv(if y >= 0 then y else y - 399, 400);
    var yoe := y - era * 400;
    var doy := (153 * (m - 3) + 2) / 5 + d.day - 1;
    era * 146097 + yoe * 365 + yoe / 4 - yoe / 100 + doy - 719468
  }

  // ---------------------------------------------------------------------
  //  Years of an era
  // ---------------------------------------------------------------------

  /** A day of a 400-year era: century c, four-year cycle q, year k of the cycle, day of the year. */
  predicate EraDay(c: int, q: int, k: int, doy: int) {
    && 0 <= c < 4 && 0 <= q < 25 && 0 <= k < 4 && 0 <= doy
    && doy < (if k == 3 && (q < 24 || c == 3) then 366 else 365)
  }

  function DayOfEra(c: int, q: int, k: int, doy: int): int { 36524 * c + 1461 * q + 365 * k + doy }

  lemma YearOfEraDay(c: int, q: int, k: int, doy: int)
    requires EraDay(c, q, k, doy)
    ensures YearOfEra(DayOfEra(c, q, k, doy)) == 100 * c + 4 * q + k
  {
    var doe := DayOfEra(c, q, k, doy);
    var last := if c == 3 && q == 24 && k == 3 && doy == 365 then 1 else 0;
    var rest := 24 * c + q + 365 * k + doy;
    var carry := if rest >= 1460 then 1 else 0;
    Quotient(doe, 1460, 25 * c + q + carry, rest - 1460 * carry);
    Quotient(doe, 36524, c + last, 1461 * q + 365 * k + doy - 36524 * last);
    Quotient(doe, 146096, last, doe - 146096 * last);
    Quotient(365 * (100 * c + 4 * q + k) + doy - carry, 365, 100 * c + 4 * q + k, doy - carry);
  }

  lemma YearStartOf(c: int, q: int, k: int)
    requires 0 <= c < 4 && 0 <= q < 25 && 0 <= k < 4
    ensures YearStart(100 * c + 4 * q + k) == 36524 * c + 1461 * q + 365 * k
  {
    var y := 100 * c + 4 * q + k;
    Quotient(y, 4, 25 * c + q, k);
    Quotient(y, 100, c, 4 * q + k);
  }

  /** Every day of an era lies in exactly one of its years. */
  lemma DecomposeEraDay(doe: int) returns (c: int, q: int, k: int, doy: int)
    requires 0 <= doe < 146097
    ensures EraDay(c, q, k, doy) && doe == DayOfEra(c, q, k, doy)
  {
    c := if doe < 36524 then 0 else if doe < 73048 then 1 else if doe < 109572 then 2 else 3;
    var r := doe - 36524 * c;
    q := r / 1461;
    var s := r - 1461 * q;
    k := if s < 365 then 0 else if s < 730 then 1 else if s < 1095 then 2 else 3;
    doy := s - 365 * k;
  }

  // ---------------------------------------------------------------------
  //  Months of a year that starts in March
  // ---------------------------------------------------------------------

  /** The March-based year y has a leap day at its end. */
  predicate LongYear(y: int) { Leap(y + 1) }

  lemma MonthOfDay(y: int, doy: int)
    requires 0 <= doy < (if LongYear(y) then 366 else 365)
    ensures var d := FromMarch(y, doy);
      && Valid(d)
      && MarchYear(d) == y && MarchDay(d) == doy
  {
  }

  // ---------------------------------------------------------------------
  //  The conversion is the calendar
  // ---------------------------------------------------------------------

  lemma LongYearOfEra(era: int, c: int, q: int, k: int)
    requires 0 <= c < 4 && 0 <= q < 25 && 0 <= k < 4
    ensures LongYear(100 * c + 4 * q + k + era * 400) <==> k == 3 && (q < 24 || c == 3)
  {
    var y := 100 * c + 4 * q + k + 1 + era * 400;
    Quotient(y, 4, 25 * c + q + 100 * era + (if k == 3 then 1 else 0), if k == 3 then 0 else k + 1);
    var full := if q == 24 && k == 3 then 1 else 0;
    Quotient(y, 100, c + 4 * era + full, 4 * q + k + 1 - 100 * full);
    var whole := if full == 1 && c == 3 then 1 else 0;
    Quotient(y, 400, era + whole, 100 * c + 4 * q + k + 1 - 400 * whole);
  }

  lemma CivilDateInEra(era: int, doe: int)
    requires 0 <= doe < 146097
    ensures CivilDate(era * 146097 + doe - 719468) == DateInEra(era, doe)
  {
    hide DateInEra;
    TruncDivOfShifted(era * 146097 + doe);
    Quotient(era * 146097 + doe, 146097, era, doe);
  }

  lemma DateOfEraDay(era: int, c: int, q: int, k: int, doy: int)
    requires EraDay(c, q, k, doy)
    ensures DateInEra(era, DayOfEra(c, q, k, doy)) == FromMarch(100 * c + 4 * q + k + era * 400, doy)
  {
    YearOfEraDay(c, q, k, doy);
    YearStartOf(c, q, k);
  }

  /** A day number splits into era, year and day of the year, and the date is read off them. */
  lemma CivilDateOf(era: int, c: int, q: int, k: int, doy: int)
    requires EraDay(c, q, k, doy)
    ensures CivilDate(era * 146097 + DayOfEra(c, q, k, doy) - 719468) == FromMarch(100 * c + 4 * q + k + era * 400, doy)
  {
    CivilDateInEra(era, DayOfEra(c, q, k, doy));
    DateOfEraDay(era, c, q, k, doy);
  }

  lemma DaysFromMarch(era: int, c: int, q: int, k: int, d: Date)
    requires 0 <= c < 4 && 0 <= q < 25 && 0 <= k < 4
    requires MarchYear(d) == 100 * c + 4 * q + k + era * 400
    ensures DaysFromCivil(d) == era * 146097 + DayOfEra(c, q, k, MarchDay(d)) - 719468
  {
    var y := 100 * c + 4 * q + k + era * 400;
    assert TruncDiv(if y >= 0 then y else y - 399, 400) == y / 400;
    Quotient(y, 400, era, 100 * c + 4 * q + k);
    YearStartOf(c, q, k);
  }

  function MarchYear(d: Date): int { if d.month <= 2 then d.year - 1 else d.year }

  function MarchDay(d: Date): int {
    (153 * ((if d.month <= 2 then d.month + 12 else d.month) - 3) + 2) / 5 + d.day - 1
  }

  /** Every day number, negative ones included, gives a valid date whose day number it is. */
  lemma CivilDateIsValid(days: int)
    ensures Valid(CivilDate(days)) && DaysFromCivil(CivilDate(days)) == days
  {
    hide CivilDate, FromMarch, DayOfEra, DaysFromCivil;
    var era, c, q, k, doy := DecomposeDay(days);
    var y := 100 * c + 4 * q + k + era * 400;
    CivilDateOf(era, c, q, k, doy);
    LongYearOfEra(era, c, q, k);
    MonthOfDay(y, doy);
    DaysFromMarch(era, c, q, k, FromMarch(y, doy));
  }

  lemma DecomposeDay(days: int) returns (era: int, c: int, q: int, k: int, doy: int)
    ensures EraDay(c, q, k, doy) && days == era * 146097 + DayOfEra(c, q, k, doy) - 719468
  {
    var z := days + 719468;
    era := z / 146097;
    c, q, k, doy := DecomposeEraDay(z - era * 146097);
  }

  lemma CivilDateOfNumber(days: int, d: Date, era: int, c: int, q: int, k: int)
    requires EraDay(c, q, k, MarchDay(d)) && MarchYear(d) == 100 * c + 4 * q + k + era * 400
    requires days == era * 146097 + DayOfEra(c, q, k, MarchDay(d)) - 719468
    requires FromMarch(MarchYear(d), MarchDay(d)) == d
    ensures CivilDate(days) == d
  {
    CivilDateOf(era, c, q, k, MarchDay(d));
  }

  lemma DecomposeYear(y: int) returns (era: int, c: int, q: int, k: int)
    ensures 0 <= c < 4 && 0 <= q < 25 && 0 <= k < 4 && y == 100 * c + 4 * q + k + era * 400
  {
    era := y / 400;
    var r := y - era * 400;
    c := r / 100;
    q := (r - 100 * c) / 4;
    k := r - 100 * c - 4 * q;
  }

  lemma DayOfMonth(d: Date)
    requires Valid(d)
    ensures 0 <= MarchDay(d) < (if LongYear(MarchYear(d)) then 366 else 365)
      && FromMarch(MarchYear(d), MarchDay(d)) == d
  {
  }

  /** Every valid date is the date of its day number: the two maps are inverse bijections. */
  lemma DaysFromCivilIsInverse(d: Date)
    requires Valid(d)
    ensures CivilDate(DaysFromCivil(d)) == d
  {
    var era, c, q, k := DecomposeYear(MarchYear(d));
    DayOfMonth(d);
    LongYearOfEra(era, c, q, k);
    DaysFromMarch(era, c, q, k, d);
    CivilDateOfNumber(DaysFromCivil(d), d, era, c, q, k);
  }

  /** The eras cancel out of the day number. */
  lemma ClosedForm(d: Date)
    ensures var y := MarchYear(d);
      DaysFromCivil(d) == 365 * y + y / 4 - y / 100 + y / 400 + MarchDay(d) - 719468
  {
    var y := MarchYear(d);
    var era := y / 400;
    assert TruncDiv(if y >= 0 then y else y - 399, 400) == era;
    Quotient(y - 400 * era, 4, y / 4 - 100 * era, y % 4);
    Quotient(y - 400 * era, 100, y / 100 - 4 * era, y % 100);
  }

  lemma YearStep(y: int)
    ensures y / 4 == (y - 1) / 4 + (if y % 4 == 0 then 1 else 0)
    ensures y / 100 == (y - 1) / 100 + (if y % 100 == 0 then 1 else 0)
    ensures y / 400 == (y - 1) / 400 + (if y % 400 == 0 then 1 else 0)
    ensures y % 400 == 0 ==> y % 100 == 0
    ensures y % 100 == 0 ==> y % 4 == 0
  {
  }

  /** The next day of the March-based year, or the first one of the next. */
  lemma MarchDayStep(d: Date)
    requires Valid(d)
    ensures Valid(NextDay(d))
    ensures if d.month == 2 && d.day == DaysInMonth(d.year, 2)
      then MarchYear(d) == d.year - 1 && MarchYear(NextDay(d)) == d.year && MarchDay(NextDay(d)) == 0
           && MarchDay(d) == (if Leap(d.year) then 365 else 364)
      else MarchYear(NextDay(d)) == MarchYear(d) && MarchDay(NextDay(d)) == MarchDay(d) + 1
  {
  }

  lemma NextDayIsNextNumber(d: Date)
    requires Valid(d)
    ensures Valid(NextDay(d)) && DaysFromCivil(NextDay(d)) == DaysFromCivil(d) + 1
  {
    MarchDayStep(d);
    ClosedForm(d);
    ClosedForm(NextDay(d));
    YearStep(d.year);
  }

  /** Consecutive day numbers are consecutive calendar days. */
  lemma CivilDateFollowsCalendar(days: int)
    ensures CivilDate(days + 1) == NextDay(CivilDate(days))
  {
    hide CivilDate, NextDay, DaysFromCivil, Valid;
    CivilDateIsValid(days);
    NextDayIsNextNumber(CivilDate(days));
    DaysFromCivilIsInverse(NextDay(CivilDate(days)));
  }

  lemma EpochDay()
    ensures CivilDate(0) == Date(1970, 1, 1)
  {
  }
}
