/** The 14-digit UTC timestamps of version ids (src/storage/version.rs, format_timestamp). */
module Timestamp {
  import opened Calendar
  import opened DecimalFormat

  const SECS_PER_DAY: nat := 86400

  /** The first second of the year 10000. */
  const YEAR_10000: nat := 253402300800

  ghost predicate DateLess(a: Date, b: Date) {
    a.year < b.year || (a.year == b.year && (a.month < b.month || (a.month == b.month && a.day < b.day)))
  }

  /** A numbering of days that starts at the epoch and follows the calendar. */
  ghost predicate CalendarNumbering(f: int -> Date) {
    && f(0) == Date(1970, 1, 1)
    && (forall k :: Valid(f(k)))
    && (forall k, l | l == k + 1 :: f(l) == NextDay(f(k)))
  }

  lemma CivilDateNumbersDays()
    ensures CalendarNumbering(CivilDate)
  {
    EpochDay();
    forall k
      ensures Valid(CivilDate(k))
    {
      CivilDateIsValid(k);
    }
    forall k, l | l == k + 1
      ensures CivilDate(l) == NextDay(CivilDate(k))
    {
      CivilDateFollowsCalendar(k);
    }
  }

  lemma {:induction false} DatesIncrease(f: int -> Date, m: int, n: int)
    requires CalendarNumbering(f) && m < n
    ensures DateLess(f(m), f(n))
    decreases n - m
  {
    assert f(n) == NextDay(f(n - 1));
    if m < n - 1 {
      DatesIncrease(f, m, n - 1);
    }
  }

  const LAST_DAY: nat := YEAR_10000 / SECS_PER_DAY

  lemma DateSinceEpoch(f: int -> Date, days: nat)
    requires CalendarNumbering(f)
    ensures f(days).year >= 1970
    ensures f(LAST_DAY) == Date(10000, 1, 1) ==> (f(days).year <= 9999 <==> days < LAST_DAY)
  {
    if days > 0 {
      DatesIncrease(f, 0, days);
    }
    if days < LAST_DAY {
      DatesIncrease(f, days, LAST_DAY);
    } else if days > LAST_DAY {
      DatesIncrease(f, LAST_DAY, days);
    }
  }

  predicate Printable(d: Date) { d.year >= 0 && d.month >= 0 && d.day >= 0 }

  function DatePart(d: Date): string
    requires Printable(d)
  {
    Padded(d.year, 4) + Padded(d.month, 2) + Padded(d.day, 2)
  }

  function TimePart(t: nat): string {
    Padded(t / 3600, 2) + Padded(t % 3600 / 60, 2) + Padded(t % 60, 2)
  }

  function Format(f: int -> Date, unixSecs: nat): string
    requires Printable(f(unixSecs / SECS_PER_DAY))
  {
    DatePart(f(unixSecs / SECS_PER_DAY)) + TimePart(unixSecs % SECS_PER_DAY)
  }

  function FormatTimestamp(unixSecs: nat): string {
    CivilDateNumbersDays();
    DateSinceEpoch(CivilDate, unixSecs / SECS_PER_DAY);
    Format(CivilDate, unixSecs)
  }

  // ---------------------------------------------------------------------
  //  Digits and length
  // ---------------------------------------------------------------------

  lemma TwoDigits(n: nat)
    requires n < 100
    ensures |Padded(n, 2)| == 2 && AllDigits(Padded(n, 2))
  {
    ParsedPadded(n, 2);
    assert Pow10(2) == 10 * Pow10(1);
    PaddedLength(n, 2);
  }

  lemma TimePartDigits(t: nat)
    requires t < SECS_PER_DAY
    ensures |TimePart(t)| == 6 && AllDigits(TimePart(t))
  {
    TwoDigits(t / 3600);
    TwoDigits(t % 3600 / 60);
    TwoDigits(t % 60);
  }

  lemma DatePartDigits(d: Date)
    requires Valid(d) && d.year >= 0
    ensures AllDigits(DatePart(d)) && |DatePart(d)| == |Padded(d.year, 4)| + 4
    ensures |DatePart(d)| == 8 <==> d.year <= 9999
  {
    ParsedPadded(d.year, 4);
    assert Pow10(4) == 10 * Pow10(3) && Pow10(3) == 10 * Pow10(2) && Pow10(2) == 10 * Pow10(1);
    PaddedLength(d.year, 4);
    TwoDigits(d.month);
    TwoDigits(d.day);
  }

  lemma LastDay()
    ensures CivilDate(LAST_DAY) == Date(10000, 1, 1)
    ensures CivilDate(LAST_DAY - 1) == Date(9999, 12, 31)
  {
    CivilDateOf(24, 3, 24, 3, 306);
    CivilDateOf(24, 3, 24, 3, 305);
    assert FromMarch(9999, 306) == Date(10000, 1, 1) && FromMarch(9999, 305) == Date(9999, 12, 31);
    assert 24 * 146097 + DayOfEra(3, 24, 3, 306) - 719468 == LAST_DAY;
  }

  /** A timestamp is all digits, and 14 of them exactly through the year 9999. */
  lemma FourteenDigits(unixSecs: nat)
    ensures AllDigits(FormatTimestamp(unixSecs))
    ensures |FormatTimestamp(unixSecs)| == 14 <==> unixSecs < YEAR_10000
  {
    CivilDateNumbersDays();
    LastDay();
    FormatDigits(CivilDate, unixSecs);
  }

  lemma FormatDigits(f: int -> Date, unixSecs: nat)
    requires CalendarNumbering(f) && f(LAST_DAY) == Date(10000, 1, 1)
    ensures Printable(f(unixSecs / SECS_PER_DAY)) && AllDigits(Format(f, unixSecs))
    ensures |Format(f, unixSecs)| == 14 <==> unixSecs < YEAR_10000
  {
    DateSinceEpoch(f, unixSecs / SECS_PER_DAY);
    DatePartDigits(f(unixSecs / SECS_PER_DAY));
    TimePartDigits(unixSecs % SECS_PER_DAY);
  }

  // ---------------------------------------------------------------------
  //  Reading a timestamp back
  // ---------------------------------------------------------------------

  lemma FieldsOf(y: string, o: string, d: string, h: string, m: string, s: string)
    requires |o| == |d| == |h| == |m| == |s| == 2
    ensures var all := (y + o + d) + (h + m + s);
      var n := |all|;
      && n == |y| + 10 && all[..n - 10] == y && all[n - 10..n - 8] == o && all[n - 8..n - 6] == d
      && all[n - 6..n - 4] == h && all[n - 4..n - 2] == m && all[n - 2..] == s
  {
  }

  lemma TimeFields(t: nat)
    requires t < SECS_PER_DAY
    ensures t / 3600 < 24 && t % 3600 / 60 < 60 && t % 60 < 60
    ensures t / 3600 * 3600 + t % 3600 / 60 * 60 + t % 60 == t
  {
  }

  lemma ReadsBack(f: int -> Date, unixSecs: nat)
    requires CalendarNumbering(f)
    ensures Printable(f(unixSecs / SECS_PER_DAY))
    ensures var s, d := Format(f, unixSecs), f(unixSecs / SECS_PER_DAY);
      var n := |s|;
      && n >= 14
      && d == Date(Parsed(s[..n - 10]), Parsed(s[n - 10..n - 8]), Parsed(s[n - 8..n - 6]))
      && var h, m, sec := Parsed(s[n - 6..n - 4]), Parsed(s[n - 4..n - 2]), Parsed(s[n - 2..]);
      && 0 <= h < 24 && 0 <= m < 60 && 0 <= sec < 60 && h * 3600 + m * 60 + sec == unixSecs % SECS_PER_DAY
  {
    hide Padded, Parsed;
    DateSinceEpoch(f, unixSecs / SECS_PER_DAY);
    var d, t := f(unixSecs / SECS_PER_DAY), unixSecs % SECS_PER_DAY;
    ParsedPadded(d.year, 4);
    TwoDigits(d.month);
    ParsedPadded(d.month, 2);
    TwoDigits(d.day);
    ParsedPadded(d.day, 2);
    TimeFields(t);
    TwoDigits(t / 3600);
    ParsedPadded(t / 3600, 2);
    TwoDigits(t % 3600 / 60);
    ParsedPadded(t % 3600 / 60, 2);
    TwoDigits(t % 60);
    ParsedPadded(t % 60, 2);
    FieldsOf(Padded(d.year, 4), Padded(d.month, 2), Padded(d.day, 2),
      Padded(t / 3600, 2), Padded(t % 3600 / 60, 2), Padded(t % 60, 2));
  }

  /**
   * A timestamp spells year, month, day, hour, minute and second, all but the year in two digits:
   * read back through the inverse calendar formula they give the second it was made of.
   */
  lemma TimestampReadsBack(unixSecs: nat)
    ensures var s := FormatTimestamp(unixSecs);
      var n := |s|;
      && n >= 14
      && var h, m, sec := Parsed(s[n - 6..n - 4]), Parsed(s[n - 4..n - 2]), Parsed(s[n - 2..]);
      && 0 <= h < 24 && 0 <= m < 60 && 0 <= sec < 60
      && var date := Date(Parsed(s[..n - 10]), Parsed(s[n - 10..n - 8]), Parsed(s[n - 8..n - 6]));
      && Valid(date)
      && DaysFromCivil(date) * 86400 + h * 3600 + m * 60 + sec == unixSecs
  {
    hide CivilDate, DaysFromCivil, Parsed, Format, CalendarNumbering, Valid;
    CivilDateNumbersDays();
    ReadsBack(CivilDate, unixSecs);
    CivilDateIsValid(unixSecs / SECS_PER_DAY);
  }

  // ---------------------------------------------------------------------
  //  Order and injectivity
  // ---------------------------------------------------------------------

  lemma TwoDigitOrder(n: nat, m: nat)
    requires n < m < 100
    ensures LexLess(Padded(n, 2), Padded(m, 2))
  {
    assert Pow10(2) == 10 * Pow10(1);
    PaddedOrder(n, m, 2);
  }

  lemma TimeFieldsOrder(t: nat, u: nat)
    requires t < u < SECS_PER_DAY
    ensures t / 3600 < 24 && u / 3600 < 24
    ensures t / 3600 <= u / 3600
    ensures t / 3600 == u / 3600 ==> t % 3600 / 60 <= u % 3600 / 60
    ensures t / 3600 == u / 3600 && t % 3600 / 60 == u % 3600 / 60 ==> t % 60 < u % 60
  {
  }

  lemma TimePartOrder(t: nat, u: nat)
    requires t < u < SECS_PER_DAY
    ensures LexLess(TimePart(t), TimePart(u))
  {
    hide Padded, LexLess;
    TimeFieldsOrder(t, u);
    var h, m, s := Padded(t / 3600, 2), Padded(t % 3600 / 60, 2), Padded(t % 60, 2);
    var h', m', s' := Padded(u / 3600, 2), Padded(u % 3600 / 60, 2), Padded(u % 60, 2);
    TimePartDigits(t);
    TimePartDigits(u);
    TwoDigits(t / 3600);
    TwoDigits(u / 3600);
    TwoDigits(t % 3600 / 60);
    TwoDigits(u % 3600 / 60);
    LexConcat(h + m, s, h' + m', s');
    LexConcat(h, m, h', m');
    if t / 3600 < u / 3600 {
      TwoDigitOrder(t / 3600, u / 3600);
    } else if t % 3600 / 60 < u % 3600 / 60 {
      TwoDigitOrder(t % 3600 / 60, u % 3600 / 60);
    } else {
      TwoDigitOrder(t % 60, u % 60);
    }
  }

  lemma DatePartOrder(d: Date, e: Date)
    requires Valid(d) && Valid(e) && 0 <= d.year <= 9999 && 0 <= e.year <= 9999 && DateLess(d, e)
    ensures LexLess(DatePart(d), DatePart(e))
  {
    DatePartDigits(d);
    DatePartDigits(e);
    TwoDigits(d.month);
    TwoDigits(e.month);
    LexConcat(Padded(d.year, 4) + Padded(d.month, 2), Padded(d.day, 2),
      Padded(e.year, 4) + Padded(e.month, 2), Padded(e.day, 2));
    LexConcat(Padded(d.year, 4), Padded(d.month, 2), Padded(e.year, 4), Padded(e.month, 2));
    if d.year < e.year {
      assert Pow10(4) == 10 * Pow10(3) && Pow10(3) == 10 * Pow10(2) && Pow10(2) == 10 * Pow10(1);
      PaddedOrder(d.year, e.year, 4);
    } else if d.month < e.month {
      TwoDigitOrder(d.month, e.month);
    } else {
      TwoDigitOrder(d.day, e.day);
    }
  }

  /** Through the year 9999 later seconds have lexicographically greater timestamps. */
  lemma TimestampsIncrease(s: nat, t: nat)
    requires s < t < YEAR_10000
    ensures LexLess(FormatTimestamp(s), FormatTimestamp(t))
  {
    CivilDateNumbersDays();
    LastDay();
    FormatOrder(CivilDate, s, t);
  }

  lemma FormatOrder(f: int -> Date, s: nat, t: nat)
    requires CalendarNumbering(f) && f(LAST_DAY) == Date(10000, 1, 1) && s < t < YEAR_10000
    ensures Printable(f(s / SECS_PER_DAY)) && Printable(f(t / SECS_PER_DAY)) && LexLess(Format(f, s), Format(f, t))
  {
    var a, b := s / SECS_PER_DAY, t / SECS_PER_DAY;
    DateSinceEpoch(f, a);
    DateSinceEpoch(f, b);
    if a < b {
      DatesIncrease(f, a, b);
    }
    PartsOrder(f(a), s % SECS_PER_DAY, f(b), t % SECS_PER_DAY);
  }

  lemma PartsOrder(d: Date, t: nat, e: Date, u: nat)
    requires Valid(d) && Valid(e) && 0 <= d.year <= 9999 && 0 <= e.year <= 9999 && t < SECS_PER_DAY && u < SECS_PER_DAY
    requires DateLess(d, e) || (d == e && t < u)
    ensures LexLess(DatePart(d) + TimePart(t), DatePart(e) + TimePart(u))
  {
    DatePartDigits(d);
    DatePartDigits(e);
    LexConcat(DatePart(d), TimePart(t), DatePart(e), TimePart(u));
    if DateLess(d, e) {
      DatePartOrder(d, e);
    } else {
      TimePartOrder(t, u);
    }
  }

  lemma BigYears()
    ensures Padded(9999, 4) == "9999" && Padded(10000, 4) == "10000"
  {
    assert Digits(9999) == Digits(999) + ['9'] && Digits(999) == Digits(99) + ['9'] && Digits(99) == Digits(9) + ['9'];
    assert Digits(10000) == Digits(1000) + ['0'] && Digits(1000) == Digits(100) + ['0']
      && Digits(100) == Digits(10) + ['0'];
    assert Digits(10) == Digits(1) + ['0'];
  }

  /** At the end of the year 9999 the order breaks: a fifth digit of the year sorts low. */
  lemma OrderEndsAtYear10000()
    ensures !LexLess(FormatTimestamp(YEAR_10000 - 1), FormatTimestamp(YEAR_10000))
  {
    CivilDateNumbersDays();
    LastDay();
    FormatAtYear10000(CivilDate);
  }

  lemma FormatAtYear10000(f: int -> Date)
    requires f(LAST_DAY) == Date(10000, 1, 1) && f(LAST_DAY - 1) == Date(9999, 12, 31)
    ensures !LexLess(Format(f, YEAR_10000 - 1), Format(f, YEAR_10000))
  {
    BigYears();
    assert Format(f, YEAR_10000 - 1)[0] == '9' && Format(f, YEAR_10000)[0] == '1';
  }

  lemma TwoDigitsInjective(n: nat, m: nat)
    requires n < 100 && m < 100 && Padded(n, 2) == Padded(m, 2)
    ensures n == m
  {
    ParsedPadded(n, 2);
    ParsedPadded(m, 2);
  }

  lemma SplitEqual(a: string, x: string, b: string, y: string)
    requires a + x == b + y && |x| == |y|
    ensures a == b && x == y
  {
    assert |a| == |b|;
    assert a == (a + x)[..|a|] && b == (b + y)[..|b|];
    assert x == (a + x)[|a|..] && y == (b + y)[|b|..];
  }

  lemma TimePartInjective(t: nat, u: nat)
    requires t < SECS_PER_DAY && u < SECS_PER_DAY && TimePart(t) == TimePart(u)
    ensures t == u
  {
    hide Padded;
    TwoDigits(t % 3600 / 60);
    TwoDigits(u % 3600 / 60);
    TwoDigits(t % 60);
    TwoDigits(u % 60);
    SplitEqual(Padded(t / 3600, 2) + Padded(t % 3600 / 60, 2), Padded(t % 60, 2),
      Padded(u / 3600, 2) + Padded(u % 3600 / 60, 2), Padded(u % 60, 2));
    SplitEqual(Padded(t / 3600, 2), Padded(t % 3600 / 60, 2), Padded(u / 3600, 2), Padded(u % 3600 / 60, 2));
    TwoDigitsInjective(t / 3600, u / 3600);
    TwoDigitsInjective(t % 3600 / 60, u % 3600 / 60);
    TwoDigitsInjective(t % 60, u % 60);
    if t < u {
      TimeFieldsOrder(t, u);
    } else if u < t {
      TimeFieldsOrder(u, t);
    }
  }

  lemma DatePartInjective(d: Date, e: Date)
    requires Valid(d) && Valid(e) && d.year >= 0 && e.year >= 0 && DatePart(d) == DatePart(e)
    ensures d == e
  {
    TwoDigits(d.month);
    TwoDigits(e.month);
    TwoDigits(d.day);
    TwoDigits(e.day);
    SplitEqual(Padded(d.year, 4) + Padded(d.month, 2), Padded(d.day, 2),
      Padded(e.year, 4) + Padded(e.month, 2), Padded(e.day, 2));
    SplitEqual(Padded(d.year, 4), Padded(d.month, 2), Padded(e.year, 4), Padded(e.month, 2));
    ParsedPadded(d.year, 4);
    ParsedPadded(e.year, 4);
    TwoDigitsInjective(d.month, e.month);
    TwoDigitsInjective(d.day, e.day);
  }

  /** No two seconds share a timestamp, at any distance from the epoch. */
  lemma TimestampsAreInjective(s: nat, t: nat)
    requires FormatTimestamp(s) == FormatTimestamp(t)
    ensures s == t
  {
    CivilDateNumbersDays();
    DateSinceEpoch(CivilDate, s / SECS_PER_DAY);
    DateSinceEpoch(CivilDate, t / SECS_PER_DAY);
    FormatInjective(CivilDate, s, t);
  }

  lemma FormatInjective(f: int -> Date, s: nat, t: nat)
    requires CalendarNumbering(f) && Printable(f(s / SECS_PER_DAY)) && Printable(f(t / SECS_PER_DAY))
    requires Format(f, s) == Format(f, t)
    ensures s == t
  {
    var a, b := s / SECS_PER_DAY, t / SECS_PER_DAY;
    TimePartDigits(s % SECS_PER_DAY);
    TimePartDigits(t % SECS_PER_DAY);
    SplitEqual(DatePart(f(a)), TimePart(s % SECS_PER_DAY), DatePart(f(b)), TimePart(t % SECS_PER_DAY));
    TimePartInjective(s % SECS_PER_DAY, t % SECS_PER_DAY);
    DatePartInjective(f(a), f(b));
    if a < b {
      DatesIncrease(f, a, b);
    } else if b < a {
      DatesIncrease(f, b, a);
    }
  }
}
