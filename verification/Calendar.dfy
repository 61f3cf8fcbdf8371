/** Civil dates and day counts: the closed-form conversions of date.h against a
    calendar that only knows how to step to the next day. */
module Calendar {
  import opened Integers

  // The years a C++ `short` year holds without being the "not ok" value.
  const MIN_YEAR: int := -32767
  const MAX_YEAR: int := 32767

  datatype Date = Date(year: int, month: nat, day: nat)

  /** C++ integer division by a positive divisor: truncation toward zero. */
  function TruncDiv(a: int, b: int): int
    requires b > 0
  {
    if a >= 0 then a / b else -((-a) / b)
  }

  /** The value left when an int is stored in a C++ `short`. */
  function ToShort(y: int): int {
    if -32768 <= y <= 32767 then y else (y + 32768) % 65536 - 32768
  }

  /** A stored year differs from the year by a multiple of 2^16. */
  lemma ShortWraps(y: int)
    ensures -32768 <= ToShort(y) <= 32767 && (y - ToShort(y)) % 65536 == 0
  {
    var q := (y + 32768) / 65536;
    if -32768 <= y <= 32767 {
    } else {
      assert y - ToShort(y) == 65536 * q;
      DivUnique(y - ToShort(y), 65536, q, 0);
    }
  }

  predicate IsLeap(y: int) {
    y % 4 == 0 && (y % 100 != 0 || y % 400 == 0)
  }

  /** `year_month_day_last::day`; a month that is not ok gives 29, as the source does. */
  function LastDay(y: int, m: nat): nat {
    if (m != 2 || !IsLeap(y)) && 1 <= m <= 12
    then [31, 28, 31, 30, 31, 30, 31, 31, 30, 31, 30, 31][m - 1]
    else 29
  }

  /** Valid month and day; the year may be any integer. */
  predicate FieldsOk(d: Date) {
    1 <= d.month <= 12 && 1 <= d.day <= LastDay(d.year, d.month)
  }

  predicate Ok(d: Date) {
    MIN_YEAR <= d.year <= MAX_YEAR && FieldsOk(d)
  }

  /** The lexicographic `operator<` on dates. */
  predicate Less(a: Date, b: Date) {
    a.year < b.year
    || (a.year == b.year && (a.month < b.month || (a.month == b.month && a.day < b.day)))
  }

  /** The naive calendar: one day later. */
  function Next(d: Date): Date {
    if d.day < LastDay(d.year, d.month) then Date(d.year, d.month, d.day + 1)
    else if d.month < 12 then Date(d.year, d.month + 1, 1)
    else Date(d.year + 1, 1, 1)
  }

  function NextN(d: Date, n: nat): Date {
    if n == 0 then d else Next(NextN(d, n - 1))
  }

  const EPOCH := Date(1970, 1, 1)

  // The intermediate values of `to_days`: years and months start in March.
  function ShiftedYear(d: Date): int {
    d.year - (if d.month <= 2 then 1 else 0)
  }

  function YearEra(y: int): int {
    TruncDiv(if y >= 0 then y else y - 399, 400)
  }

  function MarchDoy(m: nat, d: nat): int {
    (153 * (if m > 2 then m - 3 else m + 9) + 2) / 5 + d - 1
  }

  /** Days before year yoe of the 400-year era. */
  function YearStart(yoe: int): int {
    365 * yoe + yoe / 4 - yoe / 100
  }

  function ToDays(date: Date): int {
    var y := ShiftedYear(date);
    var era := YearEra(y);
    var yoe := y - era * 400;
    var doe := YearStart(yoe) + MarchDoy(date.month, date.day);
    era * 146097 + doe - 719468
  }

  // The intermediate values of `from_days`.
  function EraOf(dp: int): int {
    var z := dp + 719468;
    TruncDiv(if z >= 0 then z else z - 146096, 146097)
  }

  function DoeOf(dp: int): int {
    dp + 719468 - EraOf(dp) * 146097
  }

  function YoeOf(doe: int): int {
    (doe - doe / 1460 + doe / 36524 - doe / 146096) / 365
  }

  function DoyOf(doe: int): int {
    doe - YearStart(YoeOf(doe))
  }

  function MpOf(doy: int): int {
    (5 * doy + 2) / 153
  }

  /** The calendar month of a month counted from March. */
  function MonthOf(mp: int): int {
    if mp < 10 then mp + 3 else mp - 9
  }

  function DayOf(doy: int): int {
    doy - (153 * MpOf(doy) + 2) / 5 + 1
  }

  /** The comments of `from_days` on the ranges of its intermediate values. */
  lemma IntermediateRanges(dp: int)
    ensures 0 <= DoeOf(dp) <= 146096
    ensures 0 <= YoeOf(DoeOf(dp)) <= 399
    ensures 0 <= DoyOf(DoeOf(dp)) <= 365
    ensures 0 <= MpOf(DoyOf(DoeOf(dp))) <= 11
    ensures 1 <= MonthOf(MpOf(DoyOf(DoeOf(dp)))) <= 12
    ensures 1 <= DayOf(DoyOf(DoeOf(dp))) <= 31
  {
    var yoe, doy := SplitEra(DoeOf(dp));
    YearOfEra(yoe, doy);
    MonthOfYear(doy);
  }

  /** `from_days` before the year is stored in a short. */
  function Civil(dp: int): Date {
    IntermediateRanges(dp);
    var doe := DoeOf(dp);
    var y := YoeOf(doe) + EraOf(dp) * 400;
    var doy := DoyOf(doe);
    var mp := MpOf(doy);
    var m := MonthOf(mp);
    Date(y + (if m <= 2 then 1 else 0), m, DayOf(doy))
  }

  function Stored(c: Date): Date {
    c.(year := ToShort(c.year))
  }

  function FromDays(dp: int): Date {
    Stored(Civil(dp))
  }

  /** Whether that March-based year has 366 days. */
  predicate LongYear(yoe: int) {
    IsLeap(yoe + 1)
  }

  predicate DoyOk(yoe: int, doy: int) {
    0 <= yoe <= 399 && 0 <= doy && (if LongYear(yoe) then doy <= 365 else doy <= 364)
  }

  /** The closed form finds the year of the era. */
  lemma YearOfEra(yoe: int, doy: int)
    requires DoyOk(yoe, doy)
    ensures YoeOf(YearStart(yoe) + doy) == yoe
    ensures 0 <= YearStart(yoe) + doy <= 146096
  {
    var c, q, r := yoe / 100, yoe % 100 / 4, yoe % 4;
    assert yoe == 100 * c + 4 * q + r;
    CenturySplit(c, q, r, doy);
  }

  /** The same year written as century, olympiad and remainder. */
  lemma CenturySplit(c: int, q: int, r: int, doy: int)
    requires 0 <= c <= 3 && 0 <= q <= 24 && 0 <= r <= 3
    requires DoyOk(100 * c + 4 * q + r, doy)
    ensures YoeOf(YearStart(100 * c + 4 * q + r) + doy) == 100 * c + 4 * q + r
    ensures 0 <= YearStart(100 * c + 4 * q + r) + doy <= 146096
  {
    YearParts(c, q, r);
    hide YearStart, LongYear;
    var yoe := 100 * c + 4 * q + r;
    var doe, e := YearStart(yoe) + doy, 24 * c + q + 365 * r + doy;
    var carry := if e >= 1460 then 1 else 0;
    Quotients(doe, c, 1461 * q + 365 * r + doy, 25 * c + q + carry, e - 1460 * carry);
    DivUnique(doe - (25 * c + q + carry) + c, 365, yoe, doy - carry);
  }

  lemma YearParts(c: int, q: int, r: int)
    requires 0 <= c <= 3 && 0 <= q <= 24 && 0 <= r <= 3
    ensures YearStart(100 * c + 4 * q + r) == 36524 * c + 1461 * q + 365 * r
    ensures LongYear(100 * c + 4 * q + r) <==> r == 3 && (q < 24 || c == 3)
  {
    var yoe := 100 * c + 4 * q + r;
    DivUnique(yoe, 4, 25 * c + q, r);
    DivUnique(yoe, 100, c, 4 * q + r);
    if r < 3 {
      DivUnique(yoe + 1, 4, 25 * c + q, r + 1);
    } else if q < 24 {
      DivUnique(yoe + 1, 4, 25 * c + q + 1, 0);
      DivUnique(yoe + 1, 100, c, 4 * q + 4);
    } else {
      DivUnique(yoe + 1, 100, c + 1, 0);
      DivUnique(yoe + 1, 4, 25 * c + 25, 0);
      assert c == 3 || (yoe + 1) % 400 == yoe + 1;
    }
  }

  lemma Quotients(doe: int, c: int, century: int, olympiads: int, rest: int)
    requires doe == 36524 * c + century == 1460 * olympiads + rest
    requires 0 <= c <= 3 && 0 <= rest < 1460
    requires 0 <= century < 36524 || (century == 36524 && c == 3)
    ensures doe / 1460 == olympiads
    ensures doe / 36524 - doe / 146096 == c
  {
    DivUnique(doe, 1460, olympiads, rest);
    if century < 36524 {
      DivUnique(doe, 36524, c, century);
      DivUnique(doe, 146096, 0, doe);
    }
  }

  lemma NextYearStart(yoe: int)
    requires 0 <= yoe <= 399
    ensures YearStart(yoe + 1) - YearStart(yoe)
            == 365 + (if LongYear(yoe) && yoe != 399 then 1 else 0)
  {
    StepDiv(yoe, 4);
    StepDiv(yoe, 100);
    StepDiv(yoe, 400);
    if yoe % 100 == 99 {
      assert yoe == 100 * (yoe / 100) + 99;
      DivUnique(yoe, 4, 25 * (yoe / 100) + 24, 3);
    }
    DivUnique(yoe, 400, 0, yoe);
  }

  /** Every day of an era lies in exactly one of its years. */
  lemma SplitEra(doe: int) returns (yoe: int, doy: int)
    requires 0 <= doe <= 146096
    ensures DoyOk(yoe, doy) && doe == YearStart(yoe) + doy
  {
    yoe := 0;
    while yoe < 399 && YearStart(yoe + 1) <= doe
      invariant 0 <= yoe <= 399
      invariant YearStart(yoe) <= doe
    {
      yoe := yoe + 1;
    }
    doy := doe - YearStart(yoe);
    NextYearStart(yoe);
  }

  lemma MonthOfYear(doy: int)
    requires 0 <= doy <= 365
    ensures 0 <= MpOf(doy) <= 11
    ensures (153 * MpOf(doy) + 2) / 5 <= doy
    ensures DayOf(doy) <= if MpOf(doy) == 11 then 29
                         else (153 * (MpOf(doy) + 1) + 2) / 5 - (153 * MpOf(doy) + 2) / 5
  {
  }

  // A date as the algorithms see it: era, year of era and day of the March-based year.
  datatype Parts = Parts(era: int, yoe: int, doy: int)

  predicate PartsOk(p: Parts) {
    DoyOk(p.yoe, p.doy)
  }

  function PartsDays(p: Parts): int {
    p.era * 146097 + YearStart(p.yoe) + p.doy - 719468
  }

  function PartsDate(p: Parts): Date
    requires PartsOk(p)
  {
    MonthOfYear(p.doy);
    var m := MonthOf(MpOf(p.doy));
    Date(p.yoe + p.era * 400 + (if m <= 2 then 1 else 0), m, DayOf(p.doy))
  }

  function DateParts(d: Date): Parts {
    var y := ShiftedYear(d);
    Parts(y / 400, y % 400, MarchDoy(d.month, d.day))
  }

  lemma LeapShift(era: int, yoe: int)
    ensures LongYear(yoe) <==> IsLeap(era * 400 + yoe + 1)
  {
    var n, k := era * 400 + yoe + 1, yoe + 1;
    SameRemainder(n, k, 4, 100 * era);
    SameRemainder(n, k, 100, 4 * era);
    SameRemainder(n, k, 400, era);
  }

  lemma YearEraFloor(y: int)
    ensures YearEra(y) == y / 400 && y - YearEra(y) * 400 == y % 400
  {
    if y < 0 {
      var q, r := y / 400, y % 400;
      DivUnique(399 - y, 400, -q, 399 - r);
    }
  }

  lemma ToDaysOfParts(d: Date)
    ensures ToDays(d) == PartsDays(DateParts(d))
  {
    hide YearEra, YearStart, MarchDoy, ShiftedYear;
    YearEraFloor(ShiftedYear(d));
  }

  /** The comments of `to_days` on the ranges of its intermediate values. */
  lemma ToDaysRanges(d: Date)
    requires FieldsOk(d)
    ensures var yoe := ShiftedYear(d) - YearEra(ShiftedYear(d)) * 400;
            && 0 <= yoe <= 399 && 0 <= MarchDoy(d.month, d.day) <= 365
            && 0 <= YearStart(yoe) + MarchDoy(d.month, d.day) <= 146096
  {
    hide FieldsOk, YearEra, YearStart, MarchDoy, ShiftedYear, PartsDate, LongYear, YoeOf;
    YearEraFloor(ShiftedYear(d));
    DatePartsOk(d);
    YearOfEra(DateParts(d).yoe, DateParts(d).doy);
  }

  lemma EraFloor(dp: int, era: int, doe: int)
    requires dp + 719468 == era * 146097 + doe && 0 <= doe <= 146096
    ensures EraOf(dp) == era && DoeOf(dp) == doe
  {
    var z := dp + 719468;
    if z >= 0 {
      DivUnique(z, 146097, era, doe);
    } else {
      DivUnique(146096 - z, 146097, -era, 146096 - doe);
    }
  }

  lemma CivilOfParts(p: Parts)
    requires PartsOk(p)
    ensures Civil(PartsDays(p)) == PartsDate(p)
  {
    hide EraOf, DoeOf, YoeOf, YearStart, MpOf, MonthOf, DayOf, LongYear;
    YearOfEra(p.yoe, p.doy);
    EraFloor(PartsDays(p), p.era, YearStart(p.yoe) + p.doy);
  }

  lemma DatePartsOk(d: Date)
    requires FieldsOk(d)
    ensures PartsOk(DateParts(d)) && PartsDate(DateParts(d)) == d
  {
    var y := ShiftedYear(d);
    LeapShift(y / 400, y % 400);
    MonthOffsets(d.month, d.day);
    hide IsLeap, LongYear, MpOf, DayOf, MarchDoy;
    LastDays(d.year, d.month);
  }

  lemma LastDays(y: int, m: nat)
    requires 1 <= m <= 12
    ensures LastDay(y, m) == (if m != 2 then LastDay(1, m) else if IsLeap(y) then 29 else 28)
  {
  }

  lemma MonthOffsets(m: nat, d: nat)
    requires 1 <= m <= 12 && 1 <= d <= (if m == 2 then 29 else LastDay(1, m))
    ensures var doy := MarchDoy(m, d);
            MonthOf(MpOf(doy)) == m && DayOf(doy) == d && 0 <= doy <= 365 && (doy == 365 <==> m == 2 && d == 29)
  {
  }

  lemma PartsDateOk(p: Parts)
    requires PartsOk(p)
    ensures FieldsOk(PartsDate(p)) && DateParts(PartsDate(p)) == p
  {
    LeapShift(p.era, p.yoe);
    MonthAndDay(p.doy);
    DivUnique(p.yoe + p.era * 400, 400, p.era, p.yoe);
    hide IsLeap, LongYear, MpOf, DayOf, MarchDoy, MonthOf;
    var d := PartsDate(p);
    LastDays(d.year, d.month);
  }

  lemma MonthAndDay(doy: int)
    requires 0 <= doy <= 365
    ensures var m, d := MonthOf(MpOf(doy)), DayOf(doy);
            && 1 <= m <= 12 && 1 <= d <= (if m == 2 then 29 else LastDay(1, m)) && MarchDoy(m, d) == doy
            && (m == 2 && d == 29 <==> doy == 365)
  {
    MonthOfYear(doy);
  }

  /** `from_days` undoes `to_days` on every valid date. */
  lemma CivilOfToDays(d: Date)
    requires FieldsOk(d)
    ensures Civil(ToDays(d)) == d
  {
    hide ToDays, Civil, FieldsOk, PartsDays, PartsDate, DateParts;
    ToDaysOfParts(d);
    DatePartsOk(d);
    CivilOfParts(DateParts(d));
  }

  /** Every day count splits into parts. */
  lemma PartsOfDays(z: int) returns (p: Parts)
    ensures PartsOk(p) && PartsDays(p) == z
  {
    hide YearStart, DoyOk;
    var era, doe := (z + 719468) / 146097, (z + 719468) % 146097;
    var yoe, doy := SplitEra(doe);
    p := Parts(era, yoe, doy);
  }

  /** `to_days` undoes `from_days` on every day count. */
  lemma ToDaysOfCivil(z: int)
    ensures FieldsOk(Civil(z)) && ToDays(Civil(z)) == z
  {
    hide ToDays, Civil, FieldsOk, PartsDays, PartsDate, DateParts, PartsOk;
    var p := PartsOfDays(z);
    CivilOfParts(p);
    PartsDateOk(p);
    ToDaysOfParts(Civil(z));
  }

  lemma NextParts(d: Date)
    requires FieldsOk(d)
    ensures var p := DateParts(d);
            FieldsOk(Next(d)) && Less(d, Next(d))
            && DateParts(Next(d)) == if d.month == 2 && d.day == LastDay(d.year, 2)
                                     then (if p.yoe == 399 then Parts(p.era + 1, 0, 0) else Parts(p.era, p.yoe + 1, 0))
                                     else p.(doy := p.doy + 1)
  {
    StepDiv(ShiftedYear(d), 400);
    MonthEnd(d.year, d.month);
    DayStep(d.month, d.day);
    LastDayPositive(Next(d).year, Next(d).month);
    hide MarchDoy, LastDay;
  }

  lemma DayStep(m: nat, d: nat)
    ensures MarchDoy(m, d + 1) == MarchDoy(m, d) + 1
  {
  }

  lemma LastDayPositive(y: int, m: nat)
    ensures LastDay(y, m) >= 28
  {
  }

  /** The months follow each other without a gap, and March is the first. */
  lemma MonthEnd(y: int, m: nat)
    requires 1 <= m <= 12
    ensures MarchDoy(3, 1) == 0
    ensures m != 2 ==> MarchDoy(if m == 12 then 1 else m + 1, 1) == MarchDoy(m, LastDay(y, m)) + 1
  {
    hide IsLeap;
  }

  /** One step of the naive calendar is one day of the closed form. */
  lemma NextIsPlusOne(d: Date)
    requires FieldsOk(d)
    ensures FieldsOk(Next(d)) && Less(d, Next(d)) && ToDays(Next(d)) == ToDays(d) + 1
  {
    var p := DateParts(d);
    NextParts(d);
    ToDaysOfParts(d);
    ToDaysOfParts(Next(d));
    if d.month == 2 && d.day == LastDay(d.year, 2) {
      EndOfMarchYear(d);
    }
    NextYearStart(p.yoe);
    hide ToDays, Next, DateParts, YearStart, FieldsOk, Less, LongYear;
    assert YearStart(0) == 0 && YearStart(399) == 145731 by {
      EraEnds();
    }
  }

  lemma EraEnds()
    ensures YearStart(0) == 0 && YearStart(399) == 145731 && LongYear(399)
  {
  }

  /** On the last day of February the March-based year is used up. */
  lemma EndOfMarchYear(d: Date)
    requires FieldsOk(d) && d.month == 2 && d.day == LastDay(d.year, 2)
    ensures var p := DateParts(d); p.doy == if LongYear(p.yoe) then 365 else 364
  {
    var y := ShiftedYear(d);
    LeapShift(y / 400, y % 400);
    hide IsLeap, LongYear;
  }

  lemma CivilStep(z: int)
    ensures Civil(z + 1) == Next(Civil(z)) && Less(Civil(z), Civil(z + 1))
  {
    hide ToDays, Civil, FieldsOk, Next, Less;
    ToDaysOfCivil(z);
    NextIsPlusOne(Civil(z));
    CivilOfToDays(Next(Civil(z)));
  }

  /** A map from days to dates that grows at each step grows over any distance. */
  lemma {:induction false} Increasing(f: int -> Date, z: int, n: nat)
    requires forall k :: Less(f(k), f(k + 1))
    ensures Less(f(z), f(z + 1 + n))
  {
    if n == 0 {
    } else {
      Increasing(f, z, n - 1);
      assert Less(f(z + n), f(z + n + 1));
    }
  }

  lemma OrderFromSteps(f: int -> Date, x: int, y: int)
    requires forall k :: Less(f(k), f(k + 1))
    ensures Less(f(x), f(y)) <==> x < y
    ensures f(x) == f(y) <==> x == y
  {
    if x < y {
      Increasing(f, x, y - x - 1);
    } else if y < x {
      Increasing(f, y, x - y - 1);
    }
  }

  /** `to_days` orders dates exactly as `operator<` does. */
  lemma OrderAgrees(a: Date, b: Date)
    requires FieldsOk(a) && FieldsOk(b)
    ensures Less(a, b) <==> ToDays(a) < ToDays(b)
    ensures a == b <==> ToDays(a) == ToDays(b)
  {
    hide ToDays, Civil, FieldsOk, Less;
    var f := z => Civil(z);
    forall k ensures Less(f(k), f(k + 1)) {
      CivilStep(k);
    }
    CivilOfToDays(a);
    CivilOfToDays(b);
    OrderFromSteps(f, ToDays(a), ToDays(b));
  }

  /** `to_days` counts the steps of the naive calendar. */
  lemma {:induction false} NaiveCount(d: Date, n: nat)
    requires FieldsOk(d)
    ensures FieldsOk(NextN(d, n)) && ToDays(NextN(d, n)) == ToDays(d) + n
  {
    hide ToDays, FieldsOk, Next;
    if n == 0 {
    } else {
      NaiveCount(d, n - 1);
      NextIsPlusOne(NextN(d, n - 1));
    }
  }

  lemma EpochIsZero()
    ensures ToDays(EPOCH) == 0
  {
  }

  /** The day count of a date is its distance from 1970-01-01 in the naive calendar. */
  lemma CountsFromEpoch(d: Date, z: int)
    requires FieldsOk(d)
    ensures z == ToDays(d) <==> if z >= 0 then NextN(EPOCH, z) == d else NextN(d, -z) == EPOCH
  {
    EpochIsZero();
    hide ToDays, NextN;
    if z >= 0 {
      NaiveCount(EPOCH, z);
      OrderAgrees(NextN(EPOCH, z), d);
    } else {
      NaiveCount(d, -z);
      OrderAgrees(NextN(d, -z), EPOCH);
    }
  }

  // The day counts of the first and last valid dates.
  const FIRST_DAY: int := -12687428
  const LAST_DAY: int := 11248737

  lemma DayBounds(d: Date)
    requires FieldsOk(d)
    ensures MIN_YEAR <= d.year <= MAX_YEAR <==> FIRST_DAY <= ToDays(d) <= LAST_DAY
  {
    var first, last := Date(MIN_YEAR, 1, 1), Date(MAX_YEAR, 12, 31);
    OrderAgrees(d, first);
    OrderAgrees(d, last);
    ExtremeDays();
    hide ToDays;
  }

  lemma ExtremeDays()
    ensures ToDays(Date(MIN_YEAR, 1, 1)) == FIRST_DAY && ToDays(Date(MAX_YEAR, 12, 31)) == LAST_DAY
  {
    ExtremeParts();
    hide YearEra, YearStart, MarchDoy;
  }

  lemma ExtremeParts()
    ensures YearEra(-32768) == -82 && YearStart(32) == 11688 && MarchDoy(1, 1) == 306
    ensures YearEra(32767) == 81 && YearStart(367) == 134043 && MarchDoy(12, 31) == 305
  {
  }

  /** Every valid date survives the round trip through its day count. */
  lemma DateRoundTrip(d: Date, z: int)
    requires Ok(d) && z == ToDays(d)
    ensures FromDays(z) == d && FIRST_DAY <= z <= LAST_DAY
  {
    hide ToDays, Civil;
    CivilOfToDays(d);
    DayBounds(d);
  }

  /** A day count survives the round trip through a valid date exactly when a short holds its year. */
  lemma DayRoundTrip(z: int, d: Date)
    requires d == FromDays(z)
    ensures Ok(d) && ToDays(d) == z <==> FIRST_DAY <= z <= LAST_DAY
  {
    hide ToDays, Civil, FieldsOk;
    var c := Civil(z);
    ToDaysOfCivil(z);
    DayBounds(c);
    if FIRST_DAY <= z <= LAST_DAY {
      assert Stored(c) == c;
    } else if Ok(d) && ToDays(d) == z {
      DateRoundTrip(d, z);
    }
  }
}
