/** The proleptic Gregorian calendar as a reference, and the civil-from-days conversion of the build
    scripts, in the widths the scripts use. */
module Calendar {

  newtype i64 = x: int | -0x8000_0000_0000_0000 <= x < 0x8000_0000_0000_0000
  newtype u64 = x: int | 0 <= x < 0x1_0000_0000_0000_0000
  newtype i32 = x: int | -0x8000_0000 <= x < 0x8000_0000
  newtype u32 = x: int | 0 <= x < 0x1_0000_0000

  datatype Date = Date(year: int, month: int, day: int)

  // ---------------------------------------------------------------------------------------------
  // The reference calendar
  // ---------------------------------------------------------------------------------------------

  predicate IsLeap(y: int) {
    y % 4 == 0 && (y % 100 != 0 || y % 400 == 0)
  }

  function DaysInMonth(y: int, m: int): int {
    if m == 2 then (if IsLeap(y) then 29 else 28)
    else if m == 4 || m == 6 || m == 9 || m == 11 then 30
    else 31
  }

  predicate ValidDate(t: Date) {
    1 <= t.month <= 12 && 1 <= t.day <= DaysInMonth(t.year, t.month)
  }

  /** The calendar date that follows. */
  function Next(t: Date): Date {
    if t.day < DaysInMonth(t.year, t.month) then t.(day := t.day + 1)
    else if t.month < 12 then Date(t.year, t.month + 1, 1)
    else Date(t.year + 1, 1, 1)
  }

  const EPOCH := Date(1970, 1, 1)

  function DaysBeforeMonth(y: int, m: int): int
    requires 1 <= m <= 12
  {
    if m == 1 then 0 else DaysBeforeMonth(y, m - 1) + DaysInMonth(y, m - 1)
  }

  /** Days from 1 January of year 1 to 1 January of year `y`. */
  function DaysBeforeYear(y: int): int {
    365 * (y - 1) + (y - 1) / 4 - (y - 1) / 100 + (y - 1) / 400
  }

  /** Days from 1970-01-01 to a date. */
  function DayNumber(t: Date): int
    requires 1 <= t.month <= 12
  {
    DaysBeforeYear(t.year) - DaysBeforeYear(1970) + DaysBeforeMonth(t.year, t.month) + t.day - 1
  }

  /** A quotient is fixed by its bounds. */
  lemma Quotient(n: int, k: int, q: int)
    requires k > 0 && k * q <= n < k * q + k
    ensures n / k == q && n % k == n - k * q
  {
    var d := n / k - q;
    assert n == k * (n / k) + n % k;
    assert k * (n / k) - k * q == k * d;
    assert d >= 1 ==> k * d >= k;
    assert d <= -1 ==> k * d <= -k;
  }

  lemma StepQuotient(y: int, k: int)
    requires k > 1
    ensures y / k == (y - 1) / k + if y % k == 0 then 1 else 0
  {
    if y % k == 0 {
      assert k * (y / k - 1) == k * (y / k) - k;
      Quotient(y - 1, k, y / k - 1);
    } else {
      Quotient(y - 1, k, y / k);
    }
  }

  lemma CenturyIsFourth(y: int)
    ensures y % 400 == 0 ==> y % 100 == 0
    ensures y % 100 == 0 ==> y % 4 == 0
  {
    if y % 400 == 0 {
      Quotient(y, 100, 4 * (y / 400));
    }
    if y % 100 == 0 {
      Quotient(y, 4, 25 * (y / 100));
    }
  }

  lemma YearLength(y: int)
    ensures DaysBeforeYear(y + 1) == DaysBeforeYear(y) + if IsLeap(y) then 366 else 365
  {
    StepQuotient(y, 4);
    StepQuotient(y, 100);
    StepQuotient(y, 400);
    CenturyIsFourth(y);
  }

  /** Days of a March-based year before its `mp`-th month. */
  function MarchMonthStart(mp: int): int {
    if mp <= 0 then 0 else if mp == 1 then 31 else if mp == 2 then 61 else if mp == 3 then 92
    else if mp == 4 then 122 else if mp == 5 then 153 else if mp == 6 then 184 else if mp == 7 then 214
    else if mp == 8 then 245 else if mp == 9 then 275 else if mp == 10 then 306 else 337
  }

  lemma MonthTable(y: int, m: int)
    requires 1 <= m <= 12
    ensures DaysBeforeMonth(y, m) == if m <= 2 then MarchMonthStart(m + 9) - 306
                                     else MarchMonthStart(m - 3) + if IsLeap(y) then 60 else 59
  {
    if m > 1 {
      MonthTable(y, m - 1);
    }
  }

  lemma MonthsGrow(y: int, m: int, k: int)
    requires 1 <= m < k <= 12
    ensures DaysBeforeMonth(y, m) + DaysInMonth(y, m) <= DaysBeforeMonth(y, k)
  {
    if m + 1 < k {
      MonthsGrow(y, m, k - 1);
    }
  }

  lemma MonthsFitYear(y: int, m: int)
    requires 1 <= m <= 12
    ensures 0 <= DaysBeforeMonth(y, m)
    ensures DaysBeforeMonth(y, m) + DaysInMonth(y, m) <= if IsLeap(y) then 366 else 365
  {
    MonthTable(y, m);
  }

  /** Counting days follows the calendar: the epoch is day 0 and the next date has the next number. */
  lemma DayNumberCounts(t: Date)
    requires ValidDate(t)
    ensures DayNumber(EPOCH) == 0
    ensures ValidDate(Next(t)) && DayNumber(Next(t)) == DayNumber(t) + 1
  {
    if t.day == DaysInMonth(t.year, t.month) && t.month == 12 {
      MonthTable(t.year, 12);
      YearLength(t.year);
    }
  }

  // ---------------------------------------------------------------------------------------------
  // The conversion
  // ---------------------------------------------------------------------------------------------

  /** Division that truncates toward zero, as on the scripts' signed integers. */
  function TruncDiv(a: i64, b: i64): i64
    requires b > 1
  {
    if a >= 0 then a / b else (-((-(a as int)) / b as int)) as i64
  }

  /** `as i32`: keep the low 32 bits, in two's complement. */
  function AsI32(x: i64): i32 {
    var low := x as int % 0x1_0000_0000;
    (if low < 0x8000_0000 then low else low - 0x1_0000_0000) as i32
  }

  /** Truncating division of the adjusted numerator is division rounded down. */
  function Era(z: i64): (era: i64)
    requires z >= -0x8000_0000_0000_0000 + 719_468
    ensures era as int * 146_097 <= z as int < era as int * 146_097 + 146_097
  {
    TruncDiv(if z >= 0 then z else z - 146_096, 146_097)
  }

  function YearOfEra(doe: u64): u64
    requires doe <= 146_096
  {
    (doe - doe / 1460 + doe / 36524 - doe / 146_096) / 365
  }

  /** Days of the era before year `yoe` of it; years here begin on 1 March. */
  function YearStart(yoe: int): int {
    365 * yoe + yoe / 4 - yoe / 100
  }

  /** Year `yoe` of an era ends with 29 February. */
  predicate EndsLeap(yoe: int) {
    yoe % 4 == 3 && (yoe % 100 != 99 || yoe == 399)
  }

  /** A day of the era is `a` whole centuries, `b` whole four-year cycles, `c` whole years and `doy` days. */
  predicate EraParts(n: int, a: int, b: int, c: int, doy: int) {
    && n == 36524 * a + 1461 * b + 365 * c + doy
    && 0 <= a <= 3 && 0 <= b <= 24 && 0 <= c <= 3
    && (0 <= doy <= 364 || (doy == 365 && c == 3 && (b < 24 || a == 3)))
  }

  lemma EraQuotients(n: int, a: int, b: int, c: int, doy: int)
    requires EraParts(n, a, b, c, doy)
    ensures n / 1460 == 25 * a + b + if 24 * a + b + 365 * c + doy < 1460 then 0 else 1
    ensures n / 36524 == a + n / 146_096
  {
    Quotient(n, 1460, 25 * a + b + if 24 * a + b + 365 * c + doy < 1460 then 0 else 1);
    Quotient(n, 36524, if n == 146_096 then 4 else a);
    Quotient(n, 146_096, if n == 146_096 then 1 else 0);
  }

  lemma YearStartParts(a: int, b: int, c: int)
    requires 0 <= a <= 3 && 0 <= b <= 24 && 0 <= c <= 3
    ensures YearStart(100 * a + 4 * b + c) == 36524 * a + 1461 * b + 365 * c
    ensures EndsLeap(100 * a + 4 * b + c) <==> c == 3 && (b < 24 || a == 3)
  {
    Quotient(100 * a + 4 * b + c, 4, 25 * a + b);
    Quotient(100 * a + 4 * b + c, 100, a);
  }

  lemma YearOfEraParts(doe: u64, a: int, b: int, c: int, doy: int)
    requires doe <= 146_096 && EraParts(doe as int, a, b, c, doy)
    ensures YearOfEra(doe) as int == 100 * a + 4 * b + c
  {
    var n := doe as int;
    EraQuotients(n, a, b, c, doy);
    Quotient(n - n / 1460 + n / 36524 - n / 146_096, 365, 100 * a + 4 * b + c);
  }

  /** Day `n` of an era falls in its year `yoe`. */
  predicate InYear(n: int, yoe: int) {
    YearStart(yoe) <= n <= YearStart(yoe) + if EndsLeap(yoe) then 365 else 364
  }

  /** The closed formula finds a year of the era that the day falls in. */
  lemma YearOfEraCorrect(doe: u64)
    requires doe <= 146_096
    ensures 0 <= YearOfEra(doe) as int <= 399 && InYear(doe as int, YearOfEra(doe) as int)
  {
    var n := doe as int;
    var a := if n / 36524 > 3 then 3 else n / 36524;
    var r := n - 36524 * a;
    var b := if r / 1461 > 24 then 24 else r / 1461;
    var s := r - 1461 * b;
    var c := if s / 365 > 3 then 3 else s / 365;
    YearOfEraParts(doe, a, b, c, s - 365 * c);
    YearStartParts(a, b, c);
  }

  lemma YearOfEraUnique(doe: u64, yoe: int)
    requires doe <= 146_096 && 0 <= yoe <= 399 && InYear(doe as int, yoe)
    ensures YearOfEra(doe) as int == yoe
  {
    var a, b, c := yoe / 100, yoe % 100 / 4, yoe % 4;
    assert yoe == 100 * a + 4 * b + c;
    YearStartParts(a, b, c);
    YearOfEraParts(doe, a, b, c, doe as int - YearStart(yoe));
  }

  /** The closed formula gives the one year of the era that the day falls in. */
  lemma YearOfEraExactly(doe: u64, yoe: int)
    requires doe <= 146_096 && 0 <= yoe <= 399
    ensures YearOfEra(doe) as int == yoe <==> InYear(doe as int, yoe)
  {
    YearOfEraCorrect(doe);
    if InYear(doe as int, yoe) {
      YearOfEraUnique(doe, yoe);
    }
  }

  /** Month and day of a day of a March-based year. */
  function MonthDay(doy: u64): (u32, u32)
    requires doy <= 365
  {
    var mp := (5 * doy + 2) / 153;
    var d := doy - (153 * mp + 2) / 5 + 1;
    var m := if mp < 10 then mp + 3 else mp - 9;
    (m as u32, d as u32)
  }

  /** The date of day `doe` of an era. Every subtraction is on the scripts' unsigned type, so its
      definition being accepted says that none underflows. */
  function FromEra(era: i64, doe: u64): (i64, u32, u32)
    requires -0x1_0000_0000_0000 <= era <= 0x1_0000_0000_0000 && doe <= 146_096
  {
    YearOfEraCorrect(doe);
    var yoe := YearOfEra(doe);
    var y := yoe as i64 + era * 400;
    var doy := doe - (365 * yoe + yoe / 4 - yoe / 100);
    var (m, d) := MonthDay(doy);
    (if m <= 2 then y + 1 else y, m, d)
  }

  /** `days_to_ymd` before its year is narrowed. */
  function CivilFromDays(days: i64): (i64, u32, u32)
    requires days <= 0x7FFF_FFFF_FFFF_FFFF - 719_468
  {
    var z := days + 719_468;
    var era := Era(z);
    FromEra(era, (z - era * 146_097) as u64)
  }

  /** `days_to_ymd`. */
  function DaysToYmd(days: i64): (i32, u32, u32)
    requires days <= 0x7FFF_FFFF_FFFF_FFFF - 719_468
  {
    var (year, m, d) := CivilFromDays(days);
    (AsI32(year), m, d)
  }

  function DateOf(t: (i64, u32, u32)): Date {
    Date(t.0 as int, t.1 as int, t.2 as int)
  }

  // ---------------------------------------------------------------------------------------------
  // The conversion against the calendar
  // ---------------------------------------------------------------------------------------------

  /** The calendar year in which year `yoe` of an era ends: how many days lie before it, and whether it
      has a leap day. */
  lemma MarchFirst(era: int, yoe: int)
    requires 0 <= yoe <= 399
    ensures DaysBeforeYear(400 * era + yoe + 1) == 146_097 * era + YearStart(yoe)
    ensures IsLeap(400 * era + yoe + 1) <==> EndsLeap(yoe)
  {
    var y := 400 * era + yoe;
    Quotient(y, 4, 100 * era + yoe / 4);
    Quotient(y, 100, 4 * era + yoe / 100);
    Quotient(y, 400, era);
    StepQuotient(y + 1, 4);
    StepQuotient(y + 1, 100);
    StepQuotient(y + 1, 400);
    CenturyIsFourth(y + 1);
    Quotient(y + 1, 4, 100 * era + (yoe + 1) / 4);
    Quotient(y + 1, 100, 4 * era + (yoe + 1) / 100);
    Quotient(y + 1, 400, era + (yoe + 1) / 400);
  }

  lemma MonthDayTable(doy: u64) returns (mp: int)
    requires doy <= 365
    ensures 0 <= mp <= 11 && MonthDay(doy).0 as int == (if mp < 10 then mp + 3 else mp - 9)
    ensures MonthDay(doy).1 as int == doy as int - MarchMonthStart(mp) + 1
    ensures MarchMonthStart(mp) <= doy as int && (mp < 11 ==> doy as int < MarchMonthStart(mp + 1))
  {
    mp := (5 * doy as int + 2) / 153;
    assert 153 * mp <= 5 * doy as int + 2 < 153 * mp + 153;
    assert (153 * mp + 2) / 5 == MarchMonthStart(mp);
  }

  /** The date `doy` days into the March-based year `y`. */
  function MarchDate(y: int, doy: u64): Date
    requires doy <= 365
  {
    var (m, d) := MonthDay(doy);
    Date(if m <= 2 then y + 1 else y, m as int, d as int)
  }

  lemma MarchDateNumber(y: int, doy: u64)
    requires doy <= 364 || (doy == 365 && IsLeap(y + 1))
    ensures ValidDate(MarchDate(y, doy))
    ensures DayNumber(MarchDate(y, doy)) == DaysBeforeYear(y + 1) - 719_468 + doy as int
  {
    var mp := MonthDayTable(doy);
    var m := if mp < 10 then mp + 3 else mp - 9;
    if m > 2 {
      YearLength(y);
      MonthTable(y, m);
    } else {
      MonthTable(y + 1, m);
    }
  }

  lemma EraDate(era: i64, doe: u64) returns (yoe: int, doy: u64)
    requires -0x1_0000_0000_0000 <= era <= 0x1_0000_0000_0000 && doe <= 146_096
    ensures doe as int == YearStart(yoe) + doy as int
    ensures 0 <= yoe <= 399 && (doy <= 364 || (doy == 365 && EndsLeap(yoe)))
    ensures DateOf(FromEra(era, doe)) == MarchDate(400 * era as int + yoe, doy)
  {
    YearOfEraCorrect(doe);
    var y := YearOfEra(doe);
    yoe := y as int;
    doy := doe - (365 * y + y / 4 - y / 100);
  }

  /** The conversion splits a day number into era, year of era and day of year. */
  lemma CivilParts(days: i64) returns (era: int, yoe: int, doy: u64)
    requires days <= 0x7FFF_FFFF_FFFF_FFFF - 719_468
    ensures days as int + 719_468 == 146_097 * era + YearStart(yoe) + doy as int
    ensures 0 <= yoe <= 399 && (doy <= 364 || (doy == 365 && EndsLeap(yoe)))
    ensures DateOf(CivilFromDays(days)) == MarchDate(400 * era + yoe, doy)
  {
    var z := days + 719_468;
    var e := Era(z);
    era := e as int;
    yoe, doy := EraDate(e, (z - e * 146_097) as u64);
  }

  lemma PartsNumber(era: int, yoe: int, doy: u64)
    requires 0 <= yoe <= 399 && (doy <= 364 || (doy == 365 && EndsLeap(yoe)))
    ensures ValidDate(MarchDate(400 * era + yoe, doy))
    ensures DayNumber(MarchDate(400 * era + yoe, doy)) == 146_097 * era + YearStart(yoe) + doy as int - 719_468
  {
    MarchFirst(era, yoe);
    MarchDateNumber(400 * era + yoe, doy);
  }

  /** Every day number converts to a valid date with exactly that day number. */
  lemma CivilIsExact(days: i64)
    requires days <= 0x7FFF_FFFF_FFFF_FFFF - 719_468
    ensures ValidDate(DateOf(CivilFromDays(days)))
    ensures DayNumber(DateOf(CivilFromDays(days))) == days as int
  {
    var era, yoe, doy := CivilParts(days);
    PartsNumber(era, yoe, doy);
  }

  /** Calendar order. */
  predicate Before(s: Date, t: Date) {
    s.year < t.year || (s.year == t.year && (s.month < t.month || (s.month == t.month && s.day < t.day)))
  }

  lemma {:induction false} YearsGrow(y: int, k: nat)
    ensures DaysBeforeYear(y + k) >= DaysBeforeYear(y) + 365 * k
  {
    if k > 0 {
      YearsGrow(y, k - 1);
      YearLength(y + k - 1);
    }
  }

  lemma DayNumberMonotone(s: Date, t: Date)
    requires ValidDate(s) && ValidDate(t)
    ensures Before(s, t) <==> DayNumber(s) < DayNumber(t)
  {
    if Before(s, t) {
      DayNumberGrows(s, t);
    } else if s != t {
      DayNumberGrows(t, s);
    }
  }

  lemma DayNumberGrows(s: Date, t: Date)
    requires ValidDate(s) && ValidDate(t) && Before(s, t)
    ensures DayNumber(s) < DayNumber(t)
  {
    if s.year < t.year {
      MonthsFitYear(s.year, s.month);
      MonthsFitYear(t.year, t.month);
      YearLength(s.year);
      YearsGrow(s.year + 1, t.year - s.year - 1);
    } else if s.month < t.month {
      MonthsGrow(s.year, s.month, t.month);
    }
  }

  /** The conversion is onto: each valid date is the conversion of its own day number. */
  lemma CivilInverts(t: Date, days: i64)
    requires ValidDate(t) && DayNumber(t) == days as int <= 0x7FFF_FFFF_FFFF_FFFF - 719_468
    ensures DateOf(CivilFromDays(days)) == t
  {
    CivilIsExact(days);
    DayNumberMonotone(t, DateOf(CivilFromDays(days)));
    DayNumberMonotone(DateOf(CivilFromDays(days)), t);
  }

  /** The next day number converts to the next calendar date, and day 0 to the epoch. */
  lemma CivilSteps(days: i64)
    requires days < 0x7FFF_FFFF_FFFF_FFFF - 719_468
    ensures DateOf(CivilFromDays(days + 1)) == Next(DateOf(CivilFromDays(days)))
    ensures DateOf(CivilFromDays(0)) == EPOCH
  {
    CivilIsExact(days);
    DayNumberCounts(DateOf(CivilFromDays(days)));
    CivilInverts(Next(DateOf(CivilFromDays(days))), days + 1);
    CivilInverts(EPOCH, 0);
  }

  /** 1 January of the least 32-bit year and 31 December of the greatest, as day numbers. */
  const MIN_DAY: int := -784_353_015_833
  const MAX_DAY: int := 784_351_576_776

  lemma YearRange(t: Date)
    requires ValidDate(t)
    ensures MIN_DAY <= DayNumber(t) <= MAX_DAY <==> -0x8000_0000 <= t.year <= 0x7FFF_FFFF
  {
    var first, last := Date(-0x8000_0000, 1, 1), Date(0x7FFF_FFFF, 12, 31);
    assert DayNumber(first) == MIN_DAY;
    MonthTable(last.year, 12);
    assert DayNumber(last) == MAX_DAY;
    DayNumberMonotone(t, first);
    DayNumberMonotone(last, t);
  }

  /** Narrowing keeps the value modulo 2^32, and the value itself exactly in the 32-bit range. */
  lemma AsI32Exactly(x: i64)
    ensures exists k: int :: AsI32(x) as int == x as int + k * 0x1_0000_0000
    ensures AsI32(x) as int == x as int <==> -0x8000_0000 <= x as int <= 0x7FFF_FFFF
  {
    var n := x as int;
    var q := n / 0x1_0000_0000;
    assert AsI32(x) as int == n + (-q) * 0x1_0000_0000 || AsI32(x) as int == n + (-q - 1) * 0x1_0000_0000;
    if -0x8000_0000 <= n < 0 {
      Quotient(n, 0x1_0000_0000, -1);
    } else if 0 <= n <= 0x7FFF_FFFF {
      Quotient(n, 0x1_0000_0000, 0);
    }
  }

  /** The returned triple is the calendar date with the given day number exactly when the day number
      lies in the range of 32-bit years; outside it the year has wrapped. */
  lemma YmdExactly(days: i64)
    requires days <= 0x7FFF_FFFF_FFFF_FFFF - 719_468
    ensures var (y, m, d) := DaysToYmd(days);
            var t := Date(y as int, m as int, d as int);
            ValidDate(t) && DayNumber(t) == days as int <==> MIN_DAY <= days as int <= MAX_DAY
  {
    var (y, m, d) := DaysToYmd(days);
    var t := Date(y as int, m as int, d as int);
    var exact := DateOf(CivilFromDays(days));
    CivilIsExact(days);
    YearRange(exact);
    AsI32Exactly(CivilFromDays(days).0);
    if MIN_DAY <= days as int <= MAX_DAY {
      assert t == exact;
    } else if ValidDate(t) {
      YearRange(t);
    }
  }
}
