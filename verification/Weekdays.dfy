/** Weekdays, and dates named by the n-th or last weekday of a month (date.h). */
module Weekdays {
  import opened Calendar
  import opened Bytes
  import opened Integers

  predicate IsInt32(z: int) {
    -0x8000_0000 <= z < 0x8000_0000
  }

  /** `weekday_from_days`: the sum wraps around in 32-bit unsigned arithmetic. */
  function WeekdayFromDays(z: int): int {
    var u := if z >= 0 then z else z + TWO32;
    if z >= -4 then ((u + 4) % TWO32) % 7 else u % 7
  }

  /** For every 32-bit day count the wraparound formula is the plain remainder: 1970-01-01 is a Thursday. */
  lemma WeekdayFormula(z: int)
    requires IsInt32(z)
    ensures WeekdayFromDays(z) == (z + 4) % 7
  {
    if z < -4 {
      SameRemainder(z + TWO32, z + 4, 7, 613566756);
    } else {
      var u := if z >= 0 then z else z + TWO32;
      DivUnique(u + 4, TWO32, if z >= 0 then 0 else 1, z + 4);
    }
  }

  /** `operator-` on weekdays: the days from y forward to x. */
  function WeekdayMinus(x: nat, y: nat): int {
    var wdu := x - y;
    var wk := TruncDiv(if wdu >= 0 then wdu else wdu - 6, 7);
    wdu - wk * 7
  }

  /** `operator+` on a weekday and a number of days. */
  function WeekdayPlus(x: nat, days: int): int {
    var wdu := x + days;
    var wk := TruncDiv(if wdu >= 0 then wdu else wdu - 6, 7);
    wdu - wk * 7
  }

  /** Adding the difference leads back, and the difference is the only one below a week. */
  lemma WeekdayArithmetic(x: nat, y: nat, n: int)
    requires x <= 6 && y <= 6
    ensures WeekdayPlus(y, WeekdayMinus(x, y)) == x
    ensures WeekdayMinus(x, y) == if x >= y then x - y else x - y + 7
    ensures WeekdayPlus(y, n) == x <==> n % 7 == WeekdayMinus(x, y)
  {
    PlusIsRemainder(y, WeekdayMinus(x, y));
    PlusIsRemainder(y, n);
    var q, r := n / 7, n % 7;
    if y + r < 7 {
      DivUnique(y + n, 7, q, y + r);
    } else {
      DivUnique(y + n, 7, q + 1, y + r - 7);
    }
    hide WeekdayPlus;
  }

  lemma PlusIsRemainder(x: nat, days: int)
    ensures WeekdayPlus(x, days) == (x + days) % 7
  {
    var wdu := x + days;
    if wdu < 0 {
      DivUnique(6 - wdu, 7, -(wdu / 7), 6 - wdu % 7);
    }
  }

  const MONDAY: nat := 1
  const THURSDAY: nat := 4

  datatype MonthWeekday = MonthWeekday(year: int, month: nat, weekday: nat, index: nat)

  function FirstOf(y: int, m: nat): int {
    ToDays(Date(y, m, 1))
  }

  function LastOf(y: int, m: nat): int {
    ToDays(Date(y, m, LastDay(y, m)))
  }

  /** `year_month_weekday::ok`. */
  predicate NthOk(w: MonthWeekday) {
    if !(MIN_YEAR <= w.year <= MAX_YEAR) || !(1 <= w.month <= 12) || w.weekday > 6 || w.index < 1 then false
    else if w.index <= 4 then true
    else
      WeekdayMinus(w.weekday, WeekdayFromDays(FirstOf(w.year, w.month))) + (w.index - 1) * 7 + 1
      <= LastDay(w.year, w.month)
  }

  function NthToDays(w: MonthWeekday): int {
    var d := FirstOf(w.year, w.month);
    d + WeekdayMinus(w.weekday, WeekdayFromDays(d)) + (w.index - 1) * 7
  }

  function NthFromDays(d: int): MonthWeekday {
    var ymd := FromDays(d);
    MonthWeekday(ymd.year, ymd.month, WeekdayFromDays(d), (ymd.day - 1) / 7 + 1)
  }

  /** `year_month_weekday_last::to_days`. */
  function LastWeekdayToDays(y: int, m: nat, wd: nat): int {
    var d := LastOf(y, m);
    d - WeekdayMinus(WeekdayFromDays(d), wd)
  }

  /** Days of one month are consecutive. */
  lemma WithinMonth(d: Date)
    requires FieldsOk(d)
    ensures ToDays(d) == FirstOf(d.year, d.month) + d.day - 1
    ensures LastOf(d.year, d.month) == FirstOf(d.year, d.month) + LastDay(d.year, d.month) - 1
  {
    SameMonth(d.year, d.month, d.day);
    SameMonth(d.year, d.month, LastDay(d.year, d.month));
  }

  lemma SameMonth(y: int, m: nat, d: nat)
    ensures ToDays(Date(y, m, d)) == ToDays(Date(y, m, 1)) + d - 1
  {
  }

  /** Every date a `short` year can hold has a day count far inside 32 bits. */
  lemma DayCountFits(d: Date)
    requires FieldsOk(d) && -32768 <= d.year <= 32767
    ensures -20_000_000 < ToDays(d) < 20_000_000
  {
    var low, high := Date(-32768, 1, 1), Date(32767, 12, 31);
    OrderAgrees(d, low);
    OrderAgrees(d, high);
    assert ToDays(low) > -20_000_000 && ToDays(high) < 20_000_000;
  }

  /** Days whose distance is a weekday difference plus whole weeks have those weekdays. */
  lemma WeekdayAfter(d: int, wd: nat, k: int)
    requires IsInt32(d) && IsInt32(d + k) && wd <= 6
    ensures WeekdayFromDays(d + k) == wd <==> k % 7 == WeekdayMinus(wd, WeekdayFromDays(d))
  {
    WeekdayFormula(d);
    WeekdayFormula(d + k);
    var q, s := (d + 4) / 7, (d + 4) % 7;
    var j, r := k / 7, k % 7;
    if s + r < 7 {
      DivUnique(d + k + 4, 7, q + j, s + r);
    } else {
      DivUnique(d + k + 4, 7, q + j + 1, s + r - 7);
    }
    hide WeekdayMinus, WeekdayFromDays;
    WeekdayArithmetic(wd, s, k);
  }

  /** The day an index and a weekday name: the only day of its seven with that weekday. */
  lemma NthDay(first: int, wd: nat, index: nat)
    requires -20_000_000 < first < 20_000_000 && wd <= 6 && 1 <= index <= 15
    ensures var n := first + WeekdayMinus(wd, WeekdayFromDays(first)) + (index - 1) * 7;
            WeekdayFromDays(n) == wd && (n - first) / 7 + 1 == index
  {
    WeekdayFormula(first);
    var k := WeekdayMinus(wd, WeekdayFromDays(first));
    WeekdayArithmetic(wd, WeekdayFromDays(first), k);
    DivUnique(k + (index - 1) * 7, 7, index - 1, k);
    hide WeekdayMinus, WeekdayFromDays;
    WeekdayAfter(first, wd, k + (index - 1) * 7);
  }

  /** `ok` holds exactly when the fields are valid, the index positive and the day inside the month. */
  lemma NthOkMeansInMonth(w: MonthWeekday)
    requires w.index <= 15
    ensures NthOk(w) <==>
            MIN_YEAR <= w.year <= MAX_YEAR && 1 <= w.month <= 12 && w.weekday <= 6 && w.index >= 1
            && FirstOf(w.year, w.month) <= NthToDays(w) <= LastOf(w.year, w.month)
  {
    if MIN_YEAR <= w.year <= MAX_YEAR && 1 <= w.month <= 12 && w.weekday <= 6 && w.index >= 1 {
      var first := Date(w.year, w.month, 1);
      WithinMonth(first);
      DayCountFits(first);
      NthDay(ToDays(first), w.weekday, w.index);
    }
  }

  /** An n-th weekday date names its day by weekday and index, and comes back from that day's count. */
  lemma NthRoundTrip(w: MonthWeekday, n: int)
    requires NthOk(w) && w.index <= 15 && n == NthToDays(w)
    ensures WeekdayFromDays(n) == w.weekday && NthFromDays(n) == w
  {
    hide ToDays;
    NthOkMeansInMonth(w);
    var first := FirstOf(w.year, w.month);
    var d := Date(w.year, w.month, n - first + 1);
    WithinMonth(d);
    DayCountFits(Date(w.year, w.month, 1));
    NthDay(first, w.weekday, w.index);
    DateRoundTrip(d, n);
  }

  /** Turning a day into weekday-and-index form and back is the identity, and the form is ok,
      exactly on the days whose year is a valid year. */
  lemma DaysNthRoundTrip(n: int, w: MonthWeekday)
    requires IsInt32(n) && w == NthFromDays(n)
    ensures NthOk(w) && NthToDays(w) == n <==> FIRST_DAY <= n <= LAST_DAY
  {
    if FIRST_DAY <= n <= LAST_DAY {
      ValidDayNth(n, w);
    } else if NthOk(w) && NthToDays(w) == n {
      NthDate(w, n);
    }
  }

  lemma ValidDayNth(n: int, w: MonthWeekday)
    requires FIRST_DAY <= n <= LAST_DAY && w == NthFromDays(n)
    ensures NthOk(w) && NthToDays(w) == n
  {
    hide ToDays;
    var d := FromDays(n);
    DayRoundTrip(n, d);
    WithinMonth(d);
    WeekdayFormula(n);
    SameNth(FirstOf(d.year, d.month), n);
    NthOkMeansInMonth(w);
  }

  lemma NthDate(w: MonthWeekday, n: int)
    requires NthOk(w) && n == NthToDays(w)
    ensures FIRST_DAY <= n <= LAST_DAY
  {
    hide ToDays;
    NthOkIndex(w);
    NthOkMeansInMonth(w);
    WithinMonth(Date(w.year, w.month, 1));
    var d := Date(w.year, w.month, n - FirstOf(w.year, w.month) + 1);
    WithinMonth(d);
    DateRoundTrip(d, n);
  }

  lemma NthOkIndex(w: MonthWeekday)
    requires NthOk(w)
    ensures w.index <= 5
  {
    if w.index > 4 {
      DayCountFits(Date(w.year, w.month, 1));
      WeekdayFormula(FirstOf(w.year, w.month));
      WeekdayArithmetic(w.weekday, WeekdayFromDays(FirstOf(w.year, w.month)), 0);
    }
  }

  lemma SameNth(first: int, n: int)
    requires IsInt32(first) && IsInt32(n) && first <= n <= first + 30
    ensures first + WeekdayMinus(WeekdayFromDays(n), WeekdayFromDays(first)) + (n - first) / 7 * 7 == n
  {
    WeekdayFormula(n);
    WeekdayAfter(first, WeekdayFromDays(n), n - first);
  }

  /** The last given weekday of a month lies in the month, has that weekday, and none follows it there. */
  lemma LastWeekday(y: int, m: nat, wd: nat, n: int)
    requires -32768 <= y <= 32767 && 1 <= m <= 12 && wd <= 6
    ensures n == LastWeekdayToDays(y, m, wd)
            <==> FirstOf(y, m) <= n <= LastOf(y, m) < n + 7 && WeekdayFromDays(n) == wd
  {
    var last := Date(y, m, LastDay(y, m));
    WithinMonth(last);
    DayCountFits(last);
    BackToWeekday(LastOf(y, m), wd, n);
  }

  lemma BackToWeekday(last: int, wd: nat, n: int)
    requires -20_000_000 < last < 20_000_000 && wd <= 6
    ensures n == last - WeekdayMinus(WeekdayFromDays(last), wd)
            <==> n <= last < n + 7 && WeekdayFromDays(n) == wd
  {
    WeekdayFormula(last);
    WeekdayArithmetic(WeekdayFromDays(last), wd, 0);
    var m := WeekdayMinus(WeekdayFromDays(last), wd);
    StepBack(last, m, wd);
    WeekdayFormula(last - m);
    if n <= last < n + 7 && WeekdayFromDays(n) == wd {
      WeekdayFormula(n);
      OnePerWeek(last - m, n);
    }
  }

  lemma StepBack(last: int, m: nat, wd: nat)
    requires wd <= 6 && m == if (last + 4) % 7 >= wd then (last + 4) % 7 - wd else (last + 4) % 7 - wd + 7
    ensures (last - m + 4) % 7 == wd
  {
    assert last - m + 4 == 7 * ((last + 4) / 7 - if (last + 4) % 7 >= wd then 0 else 1) + wd;
  }

  lemma OnePerWeek(a: int, b: int)
    requires -7 < a - b < 7 && (a + 4) % 7 == (b + 4) % 7
    ensures a == b
  {
  }
}
