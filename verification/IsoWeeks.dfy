/** ISO 8601 week dates as date.h formats (%G, %V) and parses them. */
module IsoWeeks {
  import opened Calendar
  import opened Weekdays
  import opened Integers

  /** `local_days(y/December/Thursday[last]) + (Monday-Thursday)`. */
  function WeekStart(y: int): int {
    LastWeekdayToDays(y, 12, THURSDAY) + WeekdayMinus(MONDAY, THURSDAY)
  }

  /** The year %G prints for day ld; every year expression is stored in a short. */
  function FormatG(ld: int): int {
    var y := FromDays(ld + 3).year;
    var start := WeekStart(ToShort(y - 1));
    if ld < start then ToShort(y - 1) else y
  }

  /** The week number %V prints for day ld. */
  function FormatV(ld: int): int {
    var y := FromDays(ld + 3).year;
    var st := WeekStart(ToShort(y - 1));
    var st' := if ld < st then WeekStart(ToShort(ToShort(y - 1) - 1)) else st;
    TruncDiv(ld - st', 7) + 1
  }

  /** The date `from_stream` resolves from %G, %V and a weekday. */
  function ParseWeekDate(g: int, v: int, wd: nat): Date {
    FromDays(WeekStart(ToShort(g - 1)) + (v - 1) * 7 + WeekdayMinus(wd, MONDAY))
  }

  /** The number of weeks of an ISO year. */
  function Weeks(g: int): int {
    (WeekStart(g) - WeekStart(g - 1)) / 7
  }

  // The standard's own terms: a week belongs to the year of its Thursday, weeks start on Monday.
  function ThursdayOf(n: int): int {
    n - (n + 3) % 7 + 3
  }

  function IsoYear(n: int): int {
    Civil(ThursdayOf(n)).year
  }

  function NewYear(y: int): int {
    ToDays(Date(y, 1, 1))
  }

  predicate Near(n: int) {
    -20_000_000 < n < 20_000_000
  }

  lemma YearBounds(z: int, y: int)
    ensures Civil(z).year >= y <==> z >= NewYear(y)
  {
    hide ToDays, Civil;
    ToDaysOfCivil(z);
    OrderAgrees(Civil(z), Date(y, 1, 1));
  }

  lemma YearLength(y: int)
    ensures NewYear(y + 1) == LastOf(y, 12) + 1
    ensures 365 <= NewYear(y + 1) - NewYear(y) <= 366
  {
    YearEnd(y);
    WithinYear(y);
  }

  lemma YearEnd(y: int)
    ensures NewYear(y + 1) == LastOf(y, 12) + 1
  {
    hide ToDays;
    NextIsPlusOne(Date(y, 12, 31));
  }

  lemma WithinYear(y: int)
    ensures 364 <= LastOf(y, 12) - NewYear(y) <= 365
  {
    hide ToDays;
    MarchFirst(y);
    NextIsPlusOne(Date(y, 2, LastDay(y, 2)));
    SameMonth(y, 2, LastDay(y, 2));
    NextIsPlusOne(Date(y, 1, 31));
    SameMonth(y, 1, 31);
  }

  lemma MarchFirst(y: int)
    ensures LastOf(y, 12) == ToDays(Date(y, 3, 1)) + 305
  {
  }

  /** Week 1 of year y+1 starts on the Monday whose Thursday is the first one of that year. */
  lemma FirstThursday(y: int, m: int)
    requires -32768 <= y <= 32767 && m == WeekStart(y)
    ensures Near(m) && (m + 3) % 7 == 0
    ensures NewYear(y + 1) <= m + 3 < NewYear(y + 1) + 7
  {
    hide ToDays, LastOf, FirstOf, NewYear, WeekdayFromDays, LastWeekdayToDays;
    var thursday := LastWeekdayToDays(y, 12, THURSDAY);
    LastWeekday(y, 12, THURSDAY, thursday);
    YearEnd(y);
    LastOfDecember(y);
    WeekdayFormula(thursday);
    ThursdayRemainder(thursday);
  }

  lemma LastOfDecember(y: int)
    requires -32768 <= y <= 32767
    ensures Near(LastOf(y, 12))
  {
    hide ToDays;
    DayCountFits(Date(y, 12, 31));
  }

  lemma ThursdayRemainder(t: int)
    requires (t + 4) % 7 == THURSDAY
    ensures (t + 7) % 7 == 0
  {
    var q := (t + 4) / 7;
    DivUnique(t + 7, 7, q + 1, 0);
  }

  /** A day is on or after the start of week 1 exactly when the Thursday of its week is in that year or later. */
  lemma WeekStartDecides(y: int, n: int, m: int)
    requires -32768 <= y <= 32767 && m == WeekStart(y)
    ensures n >= m <==> IsoYear(n) >= y + 1
  {
    hide ToDays, Civil, WeekStart;
    FirstThursday(y, m);
    YearBounds(ThursdayOf(n), y + 1);
    MondayWeeks(n, m, NewYear(y + 1));
  }

  lemma MondayWeeks(n: int, m: int, start: int)
    requires (m + 3) % 7 == 0 && start <= m + 3 < start + 7
    ensures n >= m <==> ThursdayOf(n) >= start
    ensures n >= m ==> (n - m) / 7 == (ThursdayOf(n) - start) / 7 && (n - m) % 7 == (n + 3) % 7
  {
    var a, b := (m + 3) / 7, (n + 3) / 7;
    assert m == 7 * a - 3 && n == 7 * b - 3 + (n + 3) % 7 && ThursdayOf(n) == 7 * b;
    assert n - m == 7 * (b - a) + (n + 3) % 7;
    if n >= m {
      assert 7 * b - start == 7 * (b - a) + (7 * a - start);
    }
  }

  /** The Thursday of a week is at most three days away, so the year of day n+3 is its year or the next. */
  lemma CandidateYear(n: int)
    ensures IsoYear(n) <= Civil(n + 3).year <= IsoYear(n) + 1
  {
    hide ToDays, Civil;
    var t := ThursdayOf(n);
    YearBounds(n + 3, IsoYear(n));
    YearBounds(t, IsoYear(n));
    YearBounds(t, IsoYear(n) + 1);
    YearBounds(n + 3, IsoYear(n) + 2);
    YearLength(IsoYear(n) + 1);
  }

  /** ISO years of valid dates: the last valid day is a Sunday, the first a Saturday. */
  lemma IsoYearBounds(n: int)
    requires FIRST_DAY <= n <= LAST_DAY
    ensures IsoYear(n) <= MAX_YEAR
    ensures IsoYear(n) >= MIN_YEAR - 1
    ensures IsoYear(n) >= MIN_YEAR <==> n >= FIRST_DAY + 2
  {
    hide ToDays, Civil, ThursdayOf, NewYear, LastOf;
    var t := ThursdayOf(n);
    YearBounds(t, MAX_YEAR + 1);
    YearBounds(t, MIN_YEAR);
    YearBounds(t, MIN_YEAR - 1);
    ThursdayFits(n);
    FirstDayIs();
    FirstDayAfter();
    YearLength(MIN_YEAR - 1);
  }

  lemma ThursdayFits(n: int)
    requires FIRST_DAY <= n <= LAST_DAY
    ensures FIRST_DAY - 3 <= ThursdayOf(n) <= LAST_DAY
    ensures ThursdayOf(n) >= FIRST_DAY <==> n >= FIRST_DAY + 2
  {
    var q := (n + 3) / 7;
    assert ThursdayOf(n) == 7 * q;
  }

  /** What is left of a year stored in a short, and of the years before it. */
  lemma ShortYears(c: int)
    requires -32768 <= c <= 32768
    ensures ToShort(c) == if c <= 32767 then c else -32768
    ensures ToShort(ToShort(c) - 1) == if c > -32768 then c - 1 else 32767
    ensures c > -32767 ==> ToShort(c - 2) == c - 2
  {
  }

  /** %G is the year of the Thursday of the Monday-based week, on every valid date. */
  lemma FormatGIsIsoYear(n: int)
    requires FIRST_DAY <= n <= LAST_DAY
    ensures FormatG(n) == IsoYear(n)
  {
    hide ToDays, Civil, WeekStart, IsoYear, ToShort, NewYear;
    var c := Civil(n + 3).year;
    CandidateYear(n);
    IsoYearBounds(n);
    NotBeforeFirst(n);
    ShortYears(c);
    WeekStartDecides(c - 1, n, WeekStart(c - 1));
  }

  lemma NotBeforeFirst(n: int)
    requires n >= FIRST_DAY
    ensures Civil(n + 3).year >= MIN_YEAR
  {
    hide ToDays, Civil, NewYear;
    YearBounds(n + 3, MIN_YEAR);
    FirstDayIs();
  }

  lemma FirstDayIs()
    ensures NewYear(MIN_YEAR) == FIRST_DAY
  {
  }

  /** The start of week 1 of the year %G prints, as %V computes it. */
  lemma VStart(n: int)
    requires FIRST_DAY + 2 <= n <= LAST_DAY
    ensures FormatV(n) == TruncDiv(n - WeekStart(IsoYear(n) - 1), 7) + 1
    ensures n >= WeekStart(IsoYear(n) - 1)
  {
    hide ToDays, Civil, WeekStart, IsoYear, ToShort, TruncDiv, NewYear;
    var c := Civil(n + 3).year;
    CandidateYear(n);
    IsoYearBounds(n);
    NotBeforeFirst(n);
    ShortYears(c);
    WeekStartDecides(c - 1, n, WeekStart(c - 1));
    WeekStartDecides(IsoYear(n) - 1, n, WeekStart(IsoYear(n) - 1));
  }

  /** %V counts the Thursdays of the ISO year up to the one of this week. */
  lemma VCountsThursdays(n: int)
    requires FIRST_DAY + 2 <= n <= LAST_DAY
    ensures FormatV(n) == (ThursdayOf(n) - NewYear(IsoYear(n))) / 7 + 1
    ensures FormatV(n) == (n - WeekStart(IsoYear(n) - 1)) / 7 + 1
    ensures 1 <= FormatV(n) <= 53
  {
    hide ToDays, Civil, WeekStart, FormatV;
    var g := IsoYear(n);
    var m := WeekStart(g - 1);
    IsoYearBounds(n);
    VStart(n);
    FirstThursday(g - 1, m);
    MondayWeeks(n, m, NewYear(g));
    YearBounds(ThursdayOf(n), g + 1);
    YearLength(g);
  }

  /** The parser's formula leads from %G, %V and the weekday back to the date. */
  lemma WeekDateRoundTrip(n: int)
    requires FIRST_DAY + 2 <= n <= LAST_DAY
    ensures ParseWeekDate(FormatG(n), FormatV(n), WeekdayFromDays(n)) == FromDays(n)
  {
    hide ToDays, Civil, WeekStart, FormatG, FormatV, FromDays, IsoYear, ToShort, WeekdayFromDays, WeekdayMinus;
    var g, wd := IsoYear(n), WeekdayFromDays(n);
    var m := WeekStart(g - 1);
    IsoYearBounds(n);
    ShortYears(g);
    FormatGIsIsoYear(n);
    VCountsThursdays(n);
    FirstThursday(g - 1, m);
    WeekdayFormula(n);
    MondayOf(m);
    WeekdayAfter(m, wd, n - m);
    assert n - m == 7 * ((n - m) / 7) + (n - m) % 7;
  }

  lemma MondayOf(m: int)
    requires Near(m) && (m + 3) % 7 == 0
    ensures WeekdayFromDays(m) == MONDAY
  {
    hide WeekdayFromDays;
    WeekdayFormula(m);
    DivUnique(m + 4, 7, (m + 3) / 7, 1);
  }

  /** Over all valid dates the week date is right, in the range of section 4.1.4 of ISO 8601:2004 and
      readable by the parser, exactly when the day is not 1 or 2 January of year -32767: those belong to
      ISO year -32768, whose predecessor no short holds. */
  lemma WeekDateExact(d: Date, n: int)
    requires Ok(d) && n == ToDays(d)
    ensures FormatG(n) == IsoYear(n)
    ensures 1 <= FormatV(n) <= 53 && ParseWeekDate(FormatG(n), FormatV(n), WeekdayFromDays(n)) == d
            <==> n != FIRST_DAY && n != FIRST_DAY + 1
  {
    hide ToDays, FromDays, FormatG, FormatV, ParseWeekDate;
    DateRoundTrip(d, n);
    FormatGIsIsoYear(n);
    if n >= FIRST_DAY + 2 {
      VCountsThursdays(n);
      WeekDateRoundTrip(n);
    } else {
      FirstWeekend(n);
    }
  }

  /** An ISO year has 52 or 53 whole weeks. */
  lemma WholeWeeks(g: int)
    requires -32767 <= g <= 32767
    ensures 52 <= Weeks(g) <= 53 && WeekStart(g) == WeekStart(g - 1) + 7 * Weeks(g)
  {
    hide ToDays, WeekStart, LastOf;
    FirstThursday(g - 1, WeekStart(g - 1));
    FirstThursday(g, WeekStart(g));
    YearLength(g);
    WeeksBetween(WeekStart(g - 1), WeekStart(g));
  }

  lemma WeeksBetween(m: int, m': int)
    requires (m + 3) % 7 == 0 == (m' + 3) % 7 && 358 < m' - m < 373
    ensures 52 <= (m' - m) / 7 <= 53 && m' == m + 7 * ((m' - m) / 7)
  {
    var a, b := (m + 3) / 7, (m' + 3) / 7;
    assert m == 7 * a - 3 && m' == 7 * b - 3;
    DivUnique(m' - m, 7, b - a, 0);
  }

  /** The weeks of valid ISO years cover the valid days from the first Monday on. */
  lemma WeeksAreValid(g: int, n: int)
    requires MIN_YEAR <= g <= MAX_YEAR && WeekStart(g - 1) <= n < WeekStart(g)
    ensures FIRST_DAY + 2 <= n <= LAST_DAY && IsoYear(n) == g
  {
    hide ToDays, WeekStart, Civil;
    WeekStartDecides(g - 1, n, WeekStart(g - 1));
    WeekStartDecides(g, n, WeekStart(g));
    FirstThursday(g - 1, WeekStart(g - 1));
    FirstThursday(g, WeekStart(g));
    FirstDayIs();
    FirstDayAfter();
    NewYearsGrow(MIN_YEAR, g);
    NewYearsGrow(g + 1, MAX_YEAR + 1);
  }

  lemma NewYearsGrow(y: int, y': int)
    requires y <= y'
    ensures NewYear(y) <= NewYear(y')
  {
    hide ToDays;
    OrderAgrees(Date(y, 1, 1), Date(y', 1, 1));
  }

  /** The other way round: what is parsed from a year, a week number and a weekday is a valid date that formats to
      them exactly when the year has that week. */
  lemma ParsedWeekDateExact(g: int, v: int, wd: nat, d: Date)
    requires MIN_YEAR <= g <= MAX_YEAR && wd <= 6 && d == ParseWeekDate(g, v, wd)
    ensures Ok(d) && FormatG(ToDays(d)) == g && FormatV(ToDays(d)) == v && WeekdayFromDays(ToDays(d)) == wd
            <==> 1 <= v <= Weeks(g)
  {
    hide ToDays, FromDays, WeekStart, FormatG, FormatV, Civil, Weeks, ParseWeekDate, WeekdayFromDays;
    if 1 <= v <= Weeks(g) {
      HasWeek(g, v, wd, d);
    }
    if Ok(d) && FormatG(ToDays(d)) == g && FormatV(ToDays(d)) == v {
      DateRoundTrip(d, ToDays(d));
      WeekFormatted(g, v, ToDays(d));
    }
  }

  lemma HasWeek(g: int, v: int, wd: nat, d: Date)
    requires MIN_YEAR <= g <= MAX_YEAR && wd <= 6 && d == ParseWeekDate(g, v, wd) && 1 <= v <= Weeks(g)
    ensures Ok(d) && FormatG(ToDays(d)) == g && FormatV(ToDays(d)) == v && WeekdayFromDays(ToDays(d)) == wd
  {
    hide ToDays, FromDays, WeekStart, FormatG, FormatV, Civil, Weeks, WeekdayFromDays, IsoYear;
    var m, k := WeekStart(g - 1), WeekdayMinus(wd, MONDAY);
    var n := m + (v - 1) * 7 + k;
    WholeWeeks(g);
    WeekdayArithmetic(wd, MONDAY, k);
    WeeksAreValid(g, n);
    DayRoundTrip(n, d);
    FormatGIsIsoYear(n);
    VCountsThursdays(n);
    DivUnique(n - m, 7, v - 1, k);
    FirstThursday(g - 1, m);
    MondayOf(m);
    WeekdayAfter(m, wd, n - m);
  }

  lemma WeekFormatted(g: int, v: int, n: int)
    requires MIN_YEAR <= g <= MAX_YEAR && FIRST_DAY <= n <= LAST_DAY && FormatG(n) == g && FormatV(n) == v
    ensures 1 <= v <= Weeks(g)
  {
    hide ToDays, WeekStart, FormatG, FormatV, Civil, Weeks, IsoYear;
    FormatGIsIsoYear(n);
    IsoYearBounds(n);
    VCountsThursdays(n);
    WeekStartDecides(g, n, WeekStart(g));
    WholeWeeks(g);
    assert (n - WeekStart(g - 1)) / 7 < Weeks(g);
  }

  lemma FirstWeekend(n: int)
    requires FIRST_DAY <= n <= FIRST_DAY + 1
    ensures FormatV(n) < 1
  {
    hide ToDays, WeekStart, Civil;
    IsoYearBounds(n);
    CandidateYear(n);
    FirstDayIs();
    YearBounds(n + 3, MIN_YEAR);
    WeekStartDecides(MIN_YEAR - 1, n, WeekStart(MIN_YEAR - 1));
    FirstThursday(MAX_YEAR, WeekStart(MAX_YEAR));
    FirstDayAfter();
  }

  lemma FirstDayAfter()
    ensures NewYear(MAX_YEAR + 1) == LAST_DAY + 1
  {
  }
}
