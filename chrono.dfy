/**
 * The calendar arithmetic of the kernel's copy of the C++20 `<chrono>`
 * header (util/cxx_chrono.hpp): `day`, `month`, `year` and `weekday`
 * values, `year_month` and `year_month_day`, the conversion between a
 * civil date and a count of days since 1970-01-01, and the 12/24-hour
 * helpers.
 *
 * Fixed-width integers are Dafny integers with every wrap-around the C++
 * conversions perform written out: `U32`, `U64`, `I32`, `I16` and the
 * `% 256` of an `unsigned char` field. Duration counts (`days`,
 * `months`, `years`, `hours`) are signed 64-bit, as in libstdc++.
 */
module Chrono {
  import opened Util

  const P16: int := 0x1_0000
  const P32: int := 0x1_0000_0000
  const P64: int := 0x1_0000_0000_0000_0000

  /** The count of a `days`, `months`, `years` or `hours` duration. */
  type Count = x: int | -0x8000_0000_0000_0000 <= x < 0x8000_0000_0000_0000

  /** An `unsigned char` field. */
  type Byte = x: int | 0 <= x < 256

  /** Conversion to `uint32_t`. */
  function U32(x: int): (r: nat)
    ensures r < P32
  {
    x % P32
  }

  /** Conversion to `uint64_t`. */
  function U64(x: int): (r: nat)
    ensures r < P64
  {
    x % P64
  }

  lemma U32Id(v: int)
    requires 0 <= v < P32
    ensures U32(v) == v
  {
    DivModUniqueInt(v, P32, 0, v);
  }

  lemma U32Neg(v: int)
    requires -P32 <= v < 0
    ensures U32(v) == v + P32
  {
    DivModUniqueInt(v, P32, -1, v + P32);
  }

  lemma U64Id(v: int)
    requires 0 <= v < P64
    ensures U64(v) == v
  {
    DivModUniqueInt(v, P64, 0, v);
  }

  lemma U64Neg(v: int)
    requires -P64 <= v < 0
    ensures U64(v) == v + P64
  {
    DivModUniqueInt(v, P64, -1, v + P64);
  }

  /** Adding a multiple of `m` does not change the remainder. */
  lemma ModAddMultiple(v: int, k: int, m: nat)
    requires m > 0
    ensures (v + m * k) % m == v % m
  {
    DivModUniqueInt(v + m * k, m, v / m + k, v % m);
  }

  /** The remainder of a sum depends only on the remainder of its first term. */
  lemma ModAddLeft(a: int, n: int, m: nat)
    requires m > 0
    ensures (a + n) % m == (a % m + n) % m
  {
    ModAddMultiple(a % m + n, a / m, m);
    assert a % m + n + m * (a / m) == a + n;
  }

  /** Conversion of a 32-bit unsigned value to `int32_t`. */
  function I32(x: nat): (r: int)
    requires x < P32
    ensures -0x8000_0000 <= r < 0x8000_0000
  {
    if x < 0x8000_0000 then x else x - P32
  }

  /** Conversion to `short`. */
  function I16(x: int): (r: int)
    ensures -0x8000 <= r < 0x8000
  {
    (x + 0x8000) % P16 - 0x8000
  }

  /** The two moduli the calendar code reduces by: days of a week, months of a year. */
  predicate CalendarModulus(d: nat)
  {
    d == 7 || d == 12
  }

  // ---------------------------------------------------------------------
  // __add_modulo and __sub_modulo
  // ---------------------------------------------------------------------

  /**
   * `__modulo_offset<d>`: a multiple of `d`, less than 2^64 by at least
   * 255 + d - 1, written as 2^64 minus it, so that subtracting the offset
   * from a wrapped negative count shifts it by that multiple.
   */
  function ModuloOffset(d: nat): int
    requires 1 <= d <= 255
  {
    var a := (P64 - 1) - (255 + d - 2);
    var b := d * (a / d) - 1;
    (P64 - 1) - b
  }

  /** The offset is 2^64 less a multiple of `d` that leaves room for `x + y`. */
  lemma ModuloOffsetFacts(d: nat) returns (k: nat)
    requires CalendarModulus(d)
    ensures ModuloOffset(d) == P64 - d * k
    ensures P64 - 253 - 2 * d <= d * k <= P64 - 253 - d
  {
    if d == 7 {
      k := 2635249153387078765;
    } else {
      k := 1537228672809129279;
    }
  }

  /** `__add_modulo<d>(x, y)`: `(x + y) mod d` computed in unsigned 64-bit arithmetic. */
  function AddModulo(d: nat, x: nat, y: Count): (r: nat)
    requires 1 <= d <= 255
    ensures r < d
  {
    var offset := if y >= 0 then 0 else ModuloOffset(d);
    U64(x + U64(y) - offset) % d
  }

  /** `__sub_modulo<d>(x, y)`: `(x - y) mod d` computed in unsigned 64-bit arithmetic. */
  function SubModulo(d: nat, x: nat, y: Count): (r: nat)
    requires 1 <= d <= 255
    ensures r < d
  {
    var offset := if y <= 0 then 0 else ModuloOffset(d);
    U64(x - U64(y) - offset) % d
  }

  /** For `x` up to 255 + d - 1, `__add_modulo` is the Euclidean remainder of `x + y`: nothing overflows. */
  lemma AddModuloIsMod(d: nat, x: nat, y: Count)
    requires CalendarModulus(d) && x <= 255 + d - 1
    ensures AddModulo(d, x, y) == (x + y) % d
  {
    if y < 0 {
      var k := ModuloOffsetFacts(d);
      U64Neg(y);
      assert x + U64(y) - ModuloOffset(d) == x + y + d * k;
      U64Id(x + y + d * k);
      ModAddMultiple(x + y, k, d);
    } else {
      U64Id(y);
      U64Id(x + y);
    }
  }

  /** For `x` up to 255 + d - 1, `__sub_modulo` is the Euclidean remainder of `x - y`. */
  lemma SubModuloIsMod(d: nat, x: nat, y: Count)
    requires CalendarModulus(d) && x <= 255 + d - 1
    ensures SubModulo(d, x, y) == (x - y) % d
  {
    if y < 0 {
      U64Neg(y);
      U64Neg(x - U64(y));
    } else if y > 0 {
      var k := ModuloOffsetFacts(d);
      U64Id(y);
      assert x - U64(y) - ModuloOffset(d) == x - y - P64 + d * k;
      U64Neg(x - y - P64 + d * k);
      ModAddMultiple(x - y, k, d);
    } else {
      U64Id(y);
      U64Id(x);
    }
  }

  // ---------------------------------------------------------------------
  // day
  // ---------------------------------------------------------------------

  /** `day`: a day of the month, stored in an `unsigned char`. */
  datatype Day = Day(d: Byte)
  {
    predicate Ok() { 1 <= d <= 31 }
  }

  /** `day + days`: the sum stored back into the `unsigned char`. */
  function DayPlus(x: Day, n: Count): (r: Day)
    ensures 0 <= x.d + n < 256 ==> r.d == x.d + n
  {
    Day((x.d + n) % 256)
  }

  /** `day - day`: the difference as a `days` count. */
  function DayDiff(x: Day, y: Day): (n: Count)
    ensures DayPlus(y, n) == x
  {
    x.d - y.d
  }

  // ---------------------------------------------------------------------
  // month
  // ---------------------------------------------------------------------

  /** `month`: a month of the year, 1 for January, stored in an `unsigned char`. */
  datatype Month = Month(m: Byte)
  {
    predicate Ok() { 1 <= m <= 12 }
  }

  /** `month + months`: the month `n` months later, always a valid month. */
  function MonthPlus(x: Month, n: Count): (r: Month)
    ensures r.Ok()
    ensures r.m - 1 == (x.m - 1 + n) % 12
  {
    AddModuloIsMod(12, x.m + 11, n);
    Month(1 + AddModulo(12, x.m + 11, n))
  }

  /** `month - months`: the month `n` months earlier, always a valid month. */
  function MonthMinus(x: Month, n: Count): (r: Month)
    ensures r.Ok()
    ensures r.m - 1 == (x.m - 1 - n) % 12
  {
    SubModuloIsMod(12, x.m + 11, n);
    Month(1 + SubModulo(12, x.m + 11, n))
  }

  /** `month - month`: how many months on from `y` lies `x`, 0 to 11 for valid months. */
  function MonthDiff(x: Month, y: Month): (n: Count)
    ensures x.Ok() && y.Ok() ==> 0 <= n < 12 && MonthPlus(y, n) == x
  {
    var dm := x.m - y.m;
    var n := if dm < 0 then 12 + dm else dm;
    if x.Ok() && y.Ok() then MonthDiffReaches(x, y, dm, n); n else n
  }

  /** Stepping forward by the month difference lands on the later month. */
  lemma MonthDiffReaches(x: Month, y: Month, dm: int, n: int)
    requires x.Ok() && y.Ok() && dm == x.m - y.m
    requires n == if dm < 0 then 12 + dm else dm
    ensures 0 <= n < 12 && MonthPlus(y, n).m == x.m
  {
    var q := if dm < 0 then 1 else 0;
    assert y.m - 1 + n == q * 12 + (x.m - 1);
    DivModUniqueInt(y.m - 1 + n, 12, q, x.m - 1);
  }

  /** Going `n` months forward and then back returns to the month, for a valid month. */
  lemma MonthPlusMinus(x: Month, n: Count)
    requires x.Ok()
    ensures MonthMinus(MonthPlus(x, n), n) == x
  {
    var t := x.m - 1 + n;
    var y := MonthPlus(x, n);
    var q := t / 12;
    assert y.m - 1 == t - 12 * q;
    assert y.m - 1 - n == (-q) * 12 + (x.m - 1);
    DivModUniqueInt(y.m - 1 - n, 12, -q, x.m - 1);
    assert MonthMinus(y, n).m == x.m;
  }

  // ---------------------------------------------------------------------
  // weekday
  // ---------------------------------------------------------------------

  /** `weekday`: 0 for Sunday to 6 for Saturday, stored in an `unsigned char`. */
  datatype Weekday = Weekday(wd: Byte)
  {
    predicate Ok() { wd <= 6 }

    function CEncoding(): nat { wd }

    /** `iso_encoding`: Monday is 1 and Sunday is 7. */
    function IsoEncoding(): (r: nat)
      ensures Ok() ==> 1 <= r <= 7 && r % 7 == wd
    {
      if wd == 0 then 7 else wd
    }
  }

  /** `weekday(unsigned)`: 7 is accepted for Sunday. */
  function MakeWeekday(wd: nat): (r: Weekday)
    requires wd < P32
    ensures wd <= 6 ==> r.wd == wd
  {
    Weekday((if wd == 7 then 0 else wd) % 256)
  }

  /** `weekday{7}` is Sunday, `weekday{0}`, and its ISO encoding is 7. */
  lemma SevenIsSunday()
    ensures MakeWeekday(7) == MakeWeekday(0)
    ensures MakeWeekday(0).IsoEncoding() == 7
  {
  }

  /** `weekday(sys_days)`: 1970-01-01 was a Thursday. */
  function WeekdayOfDays(n: Count): (r: Weekday)
    ensures r.Ok() && r.wd == (4 + n) % 7
  {
    AddModuloIsMod(7, 4, n);
    Weekday(AddModulo(7, 4, n))
  }

  /** `weekday + days`. */
  function WeekdayPlus(x: Weekday, n: Count): (r: Weekday)
    ensures r.Ok() && r.wd == (x.wd + n) % 7
  {
    AddModuloIsMod(7, x.wd, n);
    Weekday(AddModulo(7, x.wd, n))
  }

  /** `weekday - days`. */
  function WeekdayMinus(x: Weekday, n: Count): (r: Weekday)
    ensures r.Ok() && r.wd == (x.wd - n) % 7
  {
    SubModuloIsMod(7, x.wd, n);
    Weekday(SubModulo(7, x.wd, n))
  }

  /**
   * `weekday - weekday`: the difference of the encodings in `unsigned`
   * arithmetic, with 7 added when it wraps below zero. For valid weekdays
   * it is the number of days from `y` on to `x`.
   */
  function WeekdayDiff(x: Weekday, y: Weekday): (n: Count)
    ensures x.Ok() && y.Ok() ==> 0 <= n <= 6 && WeekdayPlus(y, n) == x
  {
    var diff := U32(x.CEncoding() - y.CEncoding());
    var n := if I32(diff) >= 0 then diff else U32(diff + 7);
    if x.Ok() && y.Ok() then
      WeekdayDiffFacts(x, y, diff, n);
      n
    else
      n
  }

  lemma WeekdayDiffFacts(x: Weekday, y: Weekday, diff: nat, n: int)
    requires x.Ok() && y.Ok() && diff == U32(x.wd - y.wd)
    requires n == if I32(diff) >= 0 then diff else U32(diff + 7)
    ensures 0 <= n <= 6 && WeekdayPlus(y, n) == x
  {
    if x.wd >= y.wd {
      U32Id(x.wd - y.wd);
      assert I32(diff) == diff == n == x.wd - y.wd;
      DivModUniqueInt(y.wd + n, 7, 0, x.wd);
    } else {
      U32Neg(x.wd - y.wd);
      assert diff == x.wd - y.wd + P32 && I32(diff) < 0;
      DivModUniqueInt(diff + 7, P32, 1, x.wd - y.wd + 7);
      assert n == x.wd - y.wd + 7;
      DivModUniqueInt(y.wd + n, 7, 1, x.wd);
    }
    assert WeekdayPlus(y, n).wd == x.wd;
  }

  /** The weekday of a day `n` days after another is that weekday `n` days on. */
  lemma WeekdayOfDaysShift(d: Count, n: Count)
    requires -0x8000_0000_0000_0000 <= d + n < 0x8000_0000_0000_0000
    ensures WeekdayOfDays(d + n) == WeekdayPlus(WeekdayOfDays(d), n)
  {
    ModAddLeft(4 + d, n, 7);
  }

  // ---------------------------------------------------------------------
  // year
  // ---------------------------------------------------------------------

  /** `year`: a year of the proleptic Gregorian calendar, stored in a `short`. */
  datatype Year = Year(y: int)
  {
    /** `ok`: -32767 to 32767. */
    predicate Ok() { -32767 <= y <= 32767 }

    /**
     * `is_leap`: `y & (y % 25 == 0 ? 15 : 3)` is zero. A zero C++
     * remainder is a zero Euclidean one, and the low bits of a two's
     * complement integer are its Euclidean remainder by 16 or by 4.
     */
    predicate IsLeap()
    {
      y % (if y % 25 == 0 then 16 else 4) == 0
    }
  }

  /** The Gregorian rule: every fourth year, except centuries not divisible by 400. */
  predicate GregorianLeap(y: int)
  {
    y % 4 == 0 && (y % 100 != 0 || y % 400 == 0)
  }

  /** `is_leap` is the Gregorian rule. */
  lemma IsLeapIsGregorian(x: Year)
    ensures x.IsLeap() <==> GregorianLeap(x.y)
  {
    Div4And25(x.y);
    Div16And25(x.y);
  }

  /** A multiple of 4 and of 25 is one of 100. */
  lemma Div4And25(y: int)
    ensures (y % 4 == 0 && y % 25 == 0) <==> y % 100 == 0
  {
    if y % 4 == 0 && y % 25 == 0 {
      Multiple100(y);
    }
    if y % 100 == 0 {
      var c := y / 100;
      assert y == 4 * (25 * c) && y == 25 * (4 * c);
    }
  }

  /** 4 * 19 is 1 more than a multiple of 25, so `y` is 100 times `19 * (y / 25) - 3 * (y / 4)`. */
  lemma Multiple100(y: int)
    requires y % 4 == 0 && y % 25 == 0
    ensures y % 100 == 0
  {
    var a, b := y / 4, y / 25;
    assert y == 4 * a && y == 25 * b;
    var c := 19 * b - 3 * a;
    assert y == 100 * c;
  }

  /** A multiple of 16 and of 25 is one of 400. */
  lemma Div16And25(y: int)
    ensures (y % 16 == 0 && y % 25 == 0) <==> y % 400 == 0
  {
    if y % 16 == 0 && y % 25 == 0 {
      MultipleOf16And25(y);
    }
    if y % 400 == 0 {
      var c := y / 400;
      assert y == 400 * c;
      DivModUniqueInt(y, 16, 25 * c, 0);
      DivModUniqueInt(y, 25, 16 * c, 0);
    }
  }

  lemma MultipleOf16And25(y: int)
    requires y % 16 == 0 && y % 25 == 0
    ensures y % 400 == 0
  {
    // 176 * 25 and 175 * 16 differ by one.
    var a, b := y / 16, y / 25;
    assert y == 16 * a;
    assert y == 25 * b;
    var c := 11 * b - 7 * a;
    assert 400 * c == 176 * (25 * b) - 175 * (16 * a);
    DivModUniqueInt(y, 400, c, 0);
  }

  /** `year(int)`: the value truncated to a `short`. */
  function MakeYear(y: int): (r: Year)
    ensures -0x8000 <= y < 0x8000 ==> r.y == y
  {
    Year(I16(y))
  }

  /** `year + years`: the count cast to `int`, the sum to `short`. */
  function YearPlus(x: Year, n: Count): (r: Year)
    ensures -0x8000_0000 <= n < 0x8000_0000 && -0x8000 <= x.y + n < 0x8000 ==> r.y == x.y + n
  {
    MakeYear(x.y + I32(U32(n)))
  }

  // ---------------------------------------------------------------------
  // year_month
  // ---------------------------------------------------------------------

  datatype YearMonth = YearMonth(year: Year, month: Month)
  {
    predicate Ok() { year.Ok() && month.Ok() }
  }

  /** C++ integer division, which truncates toward zero. */
  function TruncDiv(a: int, b: nat): int
    requires b > 0
  {
    if a >= 0 then a / b else -((-a) / b)
  }

  /** Truncating `(i - 11) / 12` of a negative `i` is the floor of `i / 12`. */
  lemma TruncDivIsFloor(i: int)
    requires i < 0
    ensures TruncDiv(i - 11, 12) == i / 12
  {
    var q, r := i / 12, i % 12;
    assert i == 12 * q + r;
    assert -(i - 11) == -q * 12 + (11 - r);
    DivModUnique(-(i - 11), 12, -q, 11 - r);
  }

  /** The precondition under which `year_month + months` neither overflows nor wraps the year. */
  predicate PlusMonthsInRange(ym: YearMonth, n: Count)
  {
    -0x8000_0000_0000_0000 + 11 <= ym.month.m - 1 + n < 0x8000_0000_0000_0000
  }

  /**
   * `year_month + months`: the month moves by `n` modulo 12 and the year
   * by the number of whole years crossed.
   */
  function YearMonthPlus(ym: YearMonth, n: Count): (r: YearMonth)
    requires PlusMonthsInRange(ym, n)
    ensures r.month.Ok()
  {
    var m := MonthPlus(ym.month, n);
    var i := ym.month.m - 1 + n;
    var dy := if i < 0 then TruncDiv(i - 11, 12) else i / 12;
    YearMonth(YearPlus(ym.year, dy), m)
  }

  /**
   * For a valid year and month, and a result year that fits, the months
   * counted from year 0 grow by exactly `n`.
   */
  lemma YearMonthPlusCountsMonths(ym: YearMonth, n: Count)
    requires ym.month.Ok() && PlusMonthsInRange(ym, n) && -0x8000 <= ym.year.y < 0x8000
    requires -0x8000 <= ym.year.y + (ym.month.m - 1 + n) / 12 < 0x8000
    ensures var r := YearMonthPlus(ym, n);
      12 * r.year.y + (r.month.m - 1) == 12 * ym.year.y + (ym.month.m - 1) + n
  {
    var i := ym.month.m - 1 + n;
    YearMonthPlusParts(ym, n, i);
    assert i == 12 * (i / 12) + i % 12;
  }

  /** The year of `year_month + months` moves by the floor of the months over 12. */
  lemma YearMonthPlusParts(ym: YearMonth, n: Count, i: int)
    requires PlusMonthsInRange(ym, n) && -0x8000 <= ym.year.y < 0x8000
    requires i == ym.month.m - 1 + n && -0x8000 <= ym.year.y + i / 12 < 0x8000
    ensures YearMonthPlus(ym, n).year.y == ym.year.y + i / 12
    ensures YearMonthPlus(ym, n).month.m - 1 == i % 12
  {
    if i < 0 {
      TruncDivIsFloor(i);
    }
    var dy := i / 12;
    assert -0x1_0000 <= dy <= 0x1_0000;
    I32OfU32(dy);
  }

  // ---------------------------------------------------------------------
  // year_month_day and year_month_day_last
  // ---------------------------------------------------------------------

  /** `__days_per_month`: the longest length of each month. */
  const DaysPerMonth: seq<nat> := [31, 29, 31, 30, 31, 30, 31, 31, 30, 31, 30, 31]

  /**
   * `year_month_day_last::day`: 28 or 29 for February, otherwise 30 or
   * 31 computed as `(m ^ (m >> 3)) | 30` on the month number.
   */
  function LastDay(year: Year, month: Month): Day
  {
    var m := month.m as bv8;
    if month.m != 2 then Day(((m ^ (m >> 3)) | 30) as int)
    else if year.IsLeap() then Day(29)
    else Day(28)
  }

  /** The last day is the table's length of the month; February has 29 days exactly in leap years. */
  lemma LastDayMatchesTable(year: Year, month: Month)
    requires month.Ok()
    ensures month.m != 2 ==> LastDay(year, month).d == DaysPerMonth[month.m - 1]
    ensures month.m == 2 ==> LastDay(year, month).d == if GregorianLeap(year.y) then 29 else 28
  {
    IsLeapIsGregorian(year);
  }

  datatype YearMonthDay = YearMonthDay(year: Year, month: Month, day: Day)
  {
    /** `ok`: a valid year and month, and a day from 1 to the month's last. */
    predicate Ok()
    {
      year.Ok() && month.Ok() && 1 <= day.d <= LastDay(year, month).d
    }
  }

  /** `year_month_day(year_month_day_last)`: the last day of the year and month. */
  function LastOfMonth(year: Year, month: Month): (r: YearMonthDay)
    ensures year.Ok() && month.Ok() ==> r.Ok()
    ensures r.year == year && r.month == month
  {
    YearMonthDay(year, month, LastDay(year, month))
  }

  /** `year_month_day + months`: the year and month moved, the day kept. */
  function YearMonthDayPlusMonths(date: YearMonthDay, n: Count): (r: YearMonthDay)
    requires PlusMonthsInRange(YearMonth(date.year, date.month), n)
    ensures r.day == date.day && r.month.Ok()
    ensures date.month.Ok() && -0x8000 <= date.year.y < 0x8000 && -0x8000 <= date.year.y + (date.month.m - 1 + n) / 12 < 0x8000 ==>
      12 * r.year.y + (r.month.m - 1) == 12 * date.year.y + (date.month.m - 1) + n
  {
    var ym := YearMonthPlus(YearMonth(date.year, date.month), n);
    if date.month.Ok() && -0x8000 <= date.year.y < 0x8000 && -0x8000 <= date.year.y + (date.month.m - 1 + n) / 12 < 0x8000 then
      YearMonthPlusCountsMonths(YearMonth(date.year, date.month), n);
      YearMonthDay(ym.year, ym.month, date.day)
    else
      YearMonthDay(ym.year, ym.month, date.day)
  }

  /** `year_month_day + years`: the year moved, the month and day kept. */
  function YearMonthDayPlusYears(date: YearMonthDay, n: Count): (r: YearMonthDay)
    ensures r.month == date.month && r.day == date.day
    ensures -0x8000_0000 <= n < 0x8000_0000 && -0x8000 <= date.year.y + n < 0x8000 ==> r.year.y == date.year.y + n
  {
    YearMonthDay(YearPlus(date.year, n), date.month, date.day)
  }

  // ---------------------------------------------------------------------
  // Days since 1970-01-01 (Neri and Schneider)
  // ---------------------------------------------------------------------

  /** `__z2`: years are shifted by 1468000, a multiple of 400, to make them positive. */
  const Z2: int := 0xFFE9_99A0
  /** `__r2_e3`: the day count of 1970-01-01 in the shifted calendar. */
  const R2E3: int := 536895458

  /**
   * `_M_days_since_epoch`: the days from 1970-01-01 to a date, counted in
   * a calendar whose years start on 1 March and are shifted by 1468000.
   */
  function DaysSinceEpoch(date: YearMonthDay): Count
  {
    var y1 := U32(U32(date.year.y) - Z2);
    var j := if date.month.m < 3 then 1 else 0;
    var y0 := U32(y1 - j);
    var m0 := if j == 1 then date.month.m + 12 else date.month.m;
    var d0 := U32(date.day.d - 1);
    DaysOfShifted(y0, m0, d0)
  }

  /** The day count of day `d0` of shifted month `m0` of shifted year `y0`, summed in `uint32_t`. */
  function DaysOfShifted(y0: nat, m0: int, d0: nat): Count
  {
    I32(U32(YearCount(y0) + MonthCount(m0) + d0 - R2E3))
  }

  /** The year term of `_M_days_since_epoch`: `1461 * y0 / 4 - q1 + q1 / 4` in `uint32_t`. */
  function YearCount(y0: nat): nat
  {
    var q1 := y0 / 100;
    U32(U32(1461 * y0) / 4 - q1 + q1 / 4)
  }

  /** The month term of `_M_days_since_epoch`: `(979 * m0 - 2919) / 32` in `uint32_t`. */
  function MonthCount(m0: int): nat
  {
    U32(979 * m0 - 2919) / 32
  }

  /**
   * `_S_from_days`: the date `n` days after 1970-01-01, computed by
   * splitting the shifted day count into a century, a year of the
   * century, a month and a day.
   */
  function FromDays(n: Count): YearMonthDay
  {
    var r0 := U32(U32(n) + R2E3);
    var century := CenturySplit(r0);
    var year := YearSplit(century.1);
    var month := MonthSplit(year.1);
    CivilOfSplit(century.0, year.0, year.1, month)
  }

  /**
   * The last lines of `_S_from_days`: century `c`, year `e` of the
   * century, day `r2` of the year and the month and day within it,
   * moved back to a civil date.
   */
  function CivilOfSplit(c: nat, e: nat, r2: nat, month: (nat, nat)): YearMonthDay
  {
    var y0 := U32(100 * c + e);
    var j := if r2 >= 306 then 1 else 0;
    var y1 := U32(y0 + j);
    var m1 := if j == 1 then U32(month.0 - 12) else month.0;
    var d1 := U32(month.1 + 1);
    YearMonthDay(MakeYear(I32(U32(y1 + Z2))), Month(m1 % 256), Day(d1 % 256))
  }

  /** The days before 1 March of shifted year `y0`. */
  function YearStart(y0: nat): int
  {
    1461 * y0 / 4 - y0 / 100 + y0 / 400
  }

  /** The length of shifted year `y0`, which ends with the February of civil year `y0 + 1`. */
  function YearLength(y0: nat): nat
  {
    if GregorianLeap(y0 + 1) then 366 else 365
  }

  /** The days of a shifted year before month `m0`: 3 for March to 14 for February. */
  function MonthStart(m0: int): int
  {
    (979 * m0 - 2919) / 32
  }

  /** The length of month `m0` of a shifted year, 29 for a February that may be one day shorter. */
  function MonthLength(m0: int): int
  {
    if m0 == 14 then 29 else MonthStart(m0 + 1) - MonthStart(m0)
  }

  /** The first lines of `_S_from_days`: the century of the day count and the day of the century. */
  function CenturySplit(r0: nat): (qr: (nat, nat))
    requires r0 < P32
    ensures r0 < 0x4000_0000 ==>
      r0 == 36524 * qr.0 + qr.0 / 4 + qr.1 && qr.1 <= 36524 && (qr.1 == 36524 ==> qr.0 % 4 == 3)
  {
    var n1 := U32(4 * r0 + 3);
    var q1 := n1 / 146097;
    var r1 := n1 % 146097 / 4;
    if r0 < 0x4000_0000 then
      CenturySplitFacts(r0, n1, q1, r1);
      (q1, r1)
    else
      (q1, r1)
  }

  lemma CenturySplitFacts(r0: nat, n1: nat, q1: nat, r1: nat)
    requires n1 == 4 * r0 + 3 && q1 == n1 / 146097 && r1 == n1 % 146097 / 4
    ensures r0 == 36524 * q1 + q1 / 4 + r1 && r1 <= 36524 && (r1 == 36524 ==> q1 % 4 == 3)
  {
    var rem := n1 % 146097;
    assert n1 == 146097 * q1 + rem;
    assert rem == 4 * r1 + rem % 4;
    var a, b := q1 / 4, q1 % 4;
    assert q1 == 4 * a + b;
    assert 4 * r0 + 3 == 4 * (146097 * a + 36524 * b + r1) + b + rem % 4;
  }

  /**
   * The middle lines of `_S_from_days`: the year of the century and the
   * day of the year. `2939745 * n2 / 2^32` is `n2 / 1461` for every
   * `n2` a century produces.
   */
  function YearSplit(r1: nat): (qr: (nat, nat))
    requires r1 < P32
    ensures r1 <= 36524 ==>
      r1 == 365 * qr.0 + qr.0 / 4 + qr.1 && qr.0 <= 99 && qr.1 <= 365 && (qr.1 == 365 ==> qr.0 % 4 == 3)
  {
    var n2 := U32(4 * r1 + 3);
    var u2 := U64(2939745 * n2);
    var q2 := u2 / P32;
    var r2 := u2 % P32 / 2939745 / 4;
    if r1 <= 36524 then
      FastDivide1461(n2);
      YearSplitFacts(r1, n2, n2 / 1461, r2);
      (q2, r2)
    else
      (q2, r2)
  }

  /** Multiplying by 2939745 and dividing by 2^32 divides by 1461, for up to 100 years of days. */
  lemma FastDivide1461(n2: nat)
    requires n2 < 146100
    ensures U64(2939745 * n2) / P32 == n2 / 1461
    ensures U64(2939745 * n2) % P32 / 2939745 == n2 % 1461
  {
    var q, r := n2 / 1461, n2 % 1461;
    assert n2 == 1461 * q + r;
    // 2939745 * 1461 == 2^32 + 149
    assert 2939745 * n2 == P32 * q + (149 * q + 2939745 * r);
    assert 0 <= 149 * q + 2939745 * r < P32;
    DivModUnique(2939745 * n2, P32, q, 149 * q + 2939745 * r);
    DivModUnique(149 * q + 2939745 * r, 2939745, r, 149 * q);
  }

  lemma YearSplitFacts(r1: nat, n2: nat, q2: nat, r2: nat)
    requires r1 <= 36524 && n2 == 4 * r1 + 3 && q2 == n2 / 1461 && r2 == n2 % 1461 / 4
    ensures r1 == 365 * q2 + q2 / 4 + r2 && q2 <= 99 && r2 <= 365 && (r2 == 365 ==> q2 % 4 == 3)
  {
    var rem := n2 % 1461;
    assert n2 == 1461 * q2 + rem;
    assert rem == 4 * r2 + rem % 4;
    var a, b := q2 / 4, q2 % 4;
    assert q2 == 4 * a + b;
    assert 4 * r1 + 3 == 4 * (1461 * a + 365 * b + r2) + b + rem % 4;
  }

  /** The last lines of `_S_from_days`: the month of the shifted year and the day of the month. */
  function MonthSplit(r2: nat): (md: (nat, nat))
    requires r2 < P32
    ensures r2 <= 365 ==> 3 <= md.0 <= 14 && r2 == MonthStart(md.0) + md.1 && md.1 < MonthLength(md.0)
  {
    var n3 := U32(2141 * r2 + 197913);
    var m := n3 / P16;
    var d := n3 % P16 / 2141;
    if r2 <= 365 then
      MonthSplitFacts(r2, n3, m, d);
      (m, d)
    else
      (m, d)
  }

  lemma MonthSplitFacts(r2: nat, n3: nat, m: nat, d: nat)
    requires r2 <= 365 && n3 == 2141 * r2 + 197913 && m == n3 / P16 && d == n3 % P16 / 2141
    ensures 3 <= m <= 14 && r2 == MonthStart(m) + d && d < MonthLength(m)
  {
    if r2 < 31 { assert m == 3; }
    else if r2 < 61 { assert m == 4; }
    else if r2 < 92 { assert m == 5; }
    else if r2 < 122 { assert m == 6; }
    else if r2 < 153 { assert m == 7; }
    else if r2 < 184 { assert m == 8; }
    else if r2 < 214 { assert m == 9; }
    else if r2 < 245 { assert m == 10; }
    else if r2 < 275 { assert m == 11; }
    else if r2 < 306 { assert m == 12; }
    else if r2 < 337 { assert m == 13; }
    else { assert m == 14; }
  }

  /** The shifted year of a date: years begin on 1 March and are moved by 1468000. */
  function ShiftedYear(date: YearMonthDay): int
  {
    date.year.y + 1468000 - (if date.month.m < 3 then 1 else 0)
  }

  /** The month of a date counted from March as 3, so that January is 13 and February 14. */
  function ShiftedMonth(date: YearMonthDay): int
  {
    if date.month.m < 3 then date.month.m + 12 else date.month.m
  }

  /** The day of the shifted year, 0 for 1 March. */
  function DayOfShiftedYear(date: YearMonthDay): int
  {
    MonthStart(ShiftedMonth(date)) + date.day.d - 1
  }

  /** The shifted year start splits into whole centuries and the years of the century. */
  lemma YearStartSplit(y0: nat)
    ensures YearStart(y0) == 36524 * (y0 / 100) + (y0 / 100) / 4 + 365 * (y0 % 100) + (y0 % 100) / 4
  {
    var c, e := y0 / 100, y0 % 100;
    assert y0 == 100 * c + e;
    assert 1461 * y0 == 4 * (36525 * c + 365 * e) + e;
    assert 1461 * y0 / 4 == 36525 * c + 365 * e + e / 4;
    assert y0 / 400 == c / 4;
  }

  /** Consecutive shifted years start a year's length apart. */
  lemma YearStartStep(y0: nat)
    ensures YearStart(y0 + 1) == YearStart(y0) + YearLength(y0)
  {
    var y := y0 + 1;
    QuarterSplit(y);
    QuarterSplit(y0);
    DivStep(y0, 4);
    DivStep(y0, 100);
    DivStep(y0, 400);
    LeapIndicator(y);
  }

  /** A year ends in a leap day exactly by the count of 4, 100 and 400 dividing it. */
  lemma LeapIndicator(y: int)
    ensures (if y % 4 == 0 then 1 else 0) - (if y % 100 == 0 then 1 else 0)
            + (if y % 400 == 0 then 1 else 0) == (if GregorianLeap(y) then 1 else 0)
  {
    Div4And25(y);
    if y % 400 == 0 {
      var c := y / 400;
      DivModUniqueInt(y, 100, 4 * c, 0);
    }
  }

  /** `1461 * y / 4` is 365 days a year and a day every fourth year. */
  lemma QuarterSplit(y: nat)
    ensures 1461 * y / 4 == 365 * y + y / 4
  {
    DivModUniqueInt(1461 * y, 4, 365 * y + y / 4, y % 4);
  }

  /** One more lifts the quotient by `d` exactly when it reaches a multiple of `d`. */
  lemma DivStep(y0: nat, d: nat)
    requires d > 0
    ensures (y0 + 1) / d == y0 / d + (if (y0 + 1) % d == 0 then 1 else 0)
  {
    var q, r := y0 / d, y0 % d;
    if r + 1 == d {
      DivModUniqueInt(y0 + 1, d, q + 1, 0);
    } else {
      DivModUniqueInt(y0 + 1, d, q, r + 1);
    }
  }

  /** Later shifted years start later. */
  lemma {:induction false} YearStartMonotone(a: nat, b: nat)
    requires a <= b
    ensures YearStart(a) <= YearStart(b)
    decreases b - a
  {
    if a < b {
      YearStartStep(a);
      YearStartMonotone(a + 1, b);
    }
  }

  /** A century and a day of the century, with February 29 only in a century divisible by 4, come back from `CenturySplit`. */
  lemma CenturyUnique(r0: nat, q: nat, r: nat)
    requires r0 < 0x4000_0000 && r0 == 36524 * q + q / 4 + r && r <= 36524 && (r == 36524 ==> q % 4 == 3)
    ensures CenturySplit(r0) == (q, r)
  {
    var c := CenturySplit(r0);
    if c.0 != q {
      assert false;
    }
  }

  /** A year of the century and a day of the year, the day 365 only in a leap year, come back from `YearSplit`. */
  lemma YearUnique(r1: nat, q: nat, r: nat)
    requires r1 <= 36524 && r1 == 365 * q + q / 4 + r && r <= 365 && (r == 365 ==> q % 4 == 3)
    ensures YearSplit(r1) == (q, r)
  {
    var c := YearSplit(r1);
    if c.0 != q {
      assert false;
    }
  }

  /** A month and a day within it come back from `MonthSplit`. */
  lemma MonthJoin(m: int, d: int)
    requires 3 <= m <= 14 && 0 <= d < MonthLength(m)
    ensures MonthSplit(MonthStart(m) + d) == (m, d)
  {
    var md := MonthSplit(MonthStart(m) + d);
    assert MonthStart(md.0) + md.1 == MonthStart(m) + d;
    if md.0 != m {
      assert false;
    }
  }

  /** `GregorianLeap` does not change over 1468000 years. */
  lemma LeapShift(y: int)
    ensures GregorianLeap(y + 1468000) == GregorianLeap(y)
  {
    var k, r := y / 400, y % 400;
    assert y == 400 * k + r;
    assert r == 4 * (r / 4) + r % 4 && r == 100 * (r / 100) + r % 100;
    DivModUniqueInt(y, 4, 100 * k + r / 4, r % 4);
    DivModUniqueInt(y + 1468000, 4, 100 * (k + 3670) + r / 4, r % 4);
    DivModUniqueInt(y, 100, 4 * k + r / 100, r % 100);
    DivModUniqueInt(y + 1468000, 100, 4 * (k + 3670) + r / 100, r % 100);
    DivModUniqueInt(y + 1468000, 400, k + 3670, r);
  }

  /** A valid date's day lies within its shifted month, and its shifted year holds it. */
  lemma CivilFits(date: YearMonthDay)
    requires date.Ok()
    ensures 3 <= ShiftedMonth(date) <= 14 && 0 <= date.day.d - 1 < MonthLength(ShiftedMonth(date))
    ensures ShiftedMonth(date) == 14 && date.day.d == 29 ==> GregorianLeap(ShiftedYear(date) + 1)
  {
    LastDayMatchesTable(date.year, date.month);
    LeapShift(date.year.y);
  }

  /** In a valid date, `_M_days_since_epoch` wraps nothing: it is the shifted year start plus the day of the year. */
  lemma DaysSinceEpochIs(date: YearMonthDay)
    requires date.year.Ok() && date.month.Ok() && 1 <= date.day.d <= 31
    ensures DaysSinceEpoch(date) == YearStart(ShiftedYear(date)) + DayOfShiftedYear(date) - R2E3
  {
    DaysSinceEpochUnfolds(date);
    DaysOfShiftedIs(ShiftedYear(date), ShiftedMonth(date), date.day.d - 1);
  }

  /** For a valid year the shift to 1 March wraps nothing. */
  lemma DaysSinceEpochUnfolds(date: YearMonthDay)
    requires date.year.Ok() && date.month.Ok() && 1 <= date.day.d <= 31
    ensures DaysSinceEpoch(date) == DaysOfShifted(ShiftedYear(date), ShiftedMonth(date), date.day.d - 1)
  {
    var j := if date.month.m < 3 then 1 else 0;
    YearShiftWraps(date.year.y);
    U32Id(date.year.y + 1468000 - j);
    U32Id(date.day.d - 1);
  }

  /** `uint32_t(y) - 0xFFE999A0` in `uint32_t` is `y + 1468000` for every valid year. */
  lemma YearShiftWraps(y: int)
    requires -32767 <= y <= 32767
    ensures U32(U32(y) - Z2) == y + 1468000
  {
    if y >= 0 {
      U32Id(y);
      U32Neg(y - Z2);
    } else {
      U32Neg(y);
      U32Id(y + P32 - Z2);
    }
  }

  /** Over the shifted years and months of valid dates the sum wraps nothing. */
  lemma DaysOfShiftedIs(y0: nat, m0: int, d0: nat)
    requires 1435231 <= y0 <= 1500767 && 3 <= m0 <= 14 && d0 <= 30
    ensures DaysOfShifted(y0, m0, d0) == YearStart(y0) + MonthStart(m0) + d0 - R2E3
  {
    YearCountIs(y0);
    MonthCountIs(m0);
    var total := YearStart(y0) + MonthStart(m0) + d0 - R2E3;
    assert -0x8000_0000 <= total < 0x8000_0000;
    I32OfU32(total);
  }

  /** A value in the `int32_t` range survives conversion to `uint32_t` and back. */
  lemma I32OfU32(v: int)
    requires -0x8000_0000 <= v < 0x8000_0000
    ensures I32(U32(v)) == v
  {
    if v >= 0 {
      U32Id(v);
    } else {
      U32Neg(v);
    }
  }

  /** Over the shifted years of valid dates the year term wraps nothing. */
  lemma YearCountIs(y0: nat)
    requires 1435231 <= y0 <= 1500767
    ensures YearCount(y0) == YearStart(y0)
    ensures YearStart(1435231) <= YearStart(y0) <= YearStart(1500767)
  {
    U32Id(1461 * y0);
    YearStartMonotone(y0, 1500767);
    YearStartMonotone(1435231, y0);
    assert y0 / 400 == (y0 / 100) / 4;
    U32Id(YearStart(y0));
  }

  /** Over the shifted months the month term wraps nothing. */
  lemma MonthCountIs(m0: int)
    requires 3 <= m0 <= 14
    ensures MonthCount(m0) == MonthStart(m0)
    ensures 0 <= MonthStart(m0) <= 337
  {
    U32Id(979 * m0 - 2919);
    DivModUniqueInt(979 * m0 - 2919, 32, MonthStart(m0), (979 * m0 - 2919) % 32);
  }
  // ---------------------------------------------------------------------
  // The two conversions are inverse over the valid dates
  // ---------------------------------------------------------------------

  /** The day counts of -32767-01-01 and 32767-12-31, the first and the last valid date. */
  const MinDays: int := -12687428
  const MaxDays: int := 11248737

  /** `MinDays` is the count of -32767-01-01, the first valid date. */
  lemma MinDaysIsFirstDate()
    ensures DaysSinceEpoch(YearMonthDay(Year(-32767), Month(1), Day(1))) == MinDays
  {
    var first := YearMonthDay(Year(-32767), Month(1), Day(1));
    DaysSinceEpochIs(first);
    assert ShiftedYear(first) == 1435232 && MonthStart(13) == 306;
    DivModUnique(1461 * 1435232, 4, 524218488, 0);
    DivModUnique(1435232, 100, 14352, 32);
    DivModUnique(1435232, 400, 3588, 32);
  }

  /** `MaxDays` is the count of 32767-12-31, the last valid date. */
  lemma MaxDaysIsLastDate()
    ensures DaysSinceEpoch(YearMonthDay(Year(32767), Month(12), Day(31))) == MaxDays
  {
    var last := YearMonthDay(Year(32767), Month(12), Day(31));
    DaysSinceEpochIs(last);
    assert ShiftedYear(last) == 1500767 && MonthStart(12) == 275;
    DivModUnique(1461 * 1500767, 4, 548155146, 3);
    DivModUnique(1500767, 100, 15007, 67);
    DivModUnique(1500767, 400, 3751, 367);
  }

  /** The date on day `d0` of shifted month `m0` of shifted year `y0`. */
  function CivilOfShifted(y0: int, m0: int, d0: int): YearMonthDay
    requires 3 <= m0 <= 14 && 0 <= d0 < 31
  {
    var j := if m0 >= 13 then 1 else 0;
    YearMonthDay(Year(y0 + j - 1468000), Month(m0 - 12 * j), Day(d0 + 1))
  }

  /** The days of a shifted year: January starts at day 306, and only 29 February reaches day 365. */
  lemma DayOfYearFacts(m0: int, d0: int)
    requires 3 <= m0 <= 14 && 0 <= d0 < MonthLength(m0)
    ensures 0 <= MonthStart(m0) + d0 <= 365 && d0 <= 30
    ensures MonthStart(m0) + d0 >= 306 <==> m0 >= 13
    ensures MonthStart(m0) + d0 == 365 ==> m0 == 14 && d0 == 28
  {
    if m0 == 3 {
    } else if m0 == 4 {
    } else if m0 == 5 {
    } else if m0 == 6 {
    } else if m0 == 7 {
    } else if m0 == 8 {
    } else if m0 == 9 {
    } else if m0 == 10 {
    } else if m0 == 11 {
    } else if m0 == 12 {
    } else if m0 == 13 {
    } else {
    }
  }

  /** Shifting a date and shifting it back are inverse; a shifted day within its month gives a day within the civil month. */
  lemma CivilOfShiftedFacts(y0: int, m0: int, d0: int)
    requires 3 <= m0 <= 14 && 0 <= d0 < MonthLength(m0)
    ensures var date := CivilOfShifted(y0, m0, d0);
      ShiftedYear(date) == y0 && ShiftedMonth(date) == m0 && DayOfShiftedYear(date) == MonthStart(m0) + d0
      && date.month.Ok() && 1 <= date.day.d <= 31
      && (date.month.m != 2 ==> date.day.d <= DaysPerMonth[date.month.m - 1])
      && (date.month.m == 2 ==> date.day.d <= 29)
  {
    if m0 == 3 {
    } else if m0 == 4 {
    } else if m0 == 5 {
    } else if m0 == 6 {
    } else if m0 == 7 {
    } else if m0 == 8 {
    } else if m0 == 9 {
    } else if m0 == 10 {
    } else if m0 == 11 {
    } else if m0 == 12 {
    } else if m0 == 13 {
    } else {
    }
  }

  /** A leap year ending shifted year `y0` ends a fourth year of its century, and a fourth century when it ends one. */
  lemma SplitLeap(y0: nat)
    requires GregorianLeap(y0 + 1)
    ensures (y0 % 100) % 4 == 3 && (y0 % 100 == 99 ==> (y0 / 100) % 4 == 3)
  {
    var c, e := y0 / 100, y0 % 100;
    var a := (y0 + 1) / 4;
    DivModUnique(y0 + 1, 4, a, 0);
    assert e + 1 == 4 * (a - 25 * c);
    DivModUnique(e, 4, a - 25 * c - 1, 3);
    if e == 99 {
      DivModUnique(y0 + 1, 100, c + 1, 0);
      var k := (y0 + 1) / 400;
      DivModUnique(y0 + 1, 400, k, 0);
      assert c + 1 == 4 * k;
      DivModUnique(c, 4, k - 1, 3);
    }
  }

  /** The converse: the year after the third of four years, or after the last year of the fourth of four centuries, is leap. */
  lemma LeapOfSplit(c: nat, e: nat)
    requires e <= 99 && e % 4 == 3 && (e == 99 ==> c % 4 == 3)
    ensures GregorianLeap(100 * c + e + 1)
  {
    var y := 100 * c + e + 1;
    var a := e / 4;
    DivModUnique(e, 4, a, 3);
    DivModUnique(y, 4, 25 * c + a + 1, 0);
    if e < 99 {
      DivModUnique(y, 100, c, e + 1);
    } else {
      var b := c / 4;
      DivModUnique(c, 4, b, 3);
      DivModUnique(y, 400, b + 1, 0);
    }
  }

  /** `uint32_t(n) + 536895458` wraps nothing for the counts of valid dates. */
  lemma ShiftBackWraps(n: int)
    requires -R2E3 <= n < 0x4000_0000 - R2E3
    ensures U32(U32(n) + R2E3) == n + R2E3
  {
    if n >= 0 {
      U32Id(n);
      U32Id(n + R2E3);
    } else {
      U32Neg(n);
      DivModUniqueInt(n + P32 + R2E3, P32, 1, n + R2E3);
    }
  }

  /** Adding 0xFFE999A0 back to a shifted year and casting to `int` and `short` gives the civil year. */
  lemma YearUnshiftWraps(y: int)
    requires -0x8000 <= y < 0x8000
    ensures MakeYear(I32(U32(y + 1468000 + Z2))) == Year(y)
  {
    if y >= 0 {
      DivModUniqueInt(y + P32, P32, 1, y);
    } else {
      U32Id(y + P32);
    }
  }

  /**
   * `_S_from_days` of the count `YearStart(y0) + MonthStart(m0) + d0`
   * (less the shift) is day `d0` of shifted month `m0` of shifted year
   * `y0`.
   */
  lemma FromDaysShifted(n: Count, y0: nat, m0: int, d0: int)
    requires 1435231 <= y0 <= 1500767 && 3 <= m0 <= 14 && 0 <= d0 < MonthLength(m0)
    requires MonthStart(m0) + d0 == 365 ==> GregorianLeap(y0 + 1)
    requires -0x8000 <= y0 + (if m0 >= 13 then 1 else 0) - 1468000 < 0x8000
    requires n == YearStart(y0) + MonthStart(m0) + d0 - R2E3
    ensures FromDays(n) == CivilOfShifted(y0, m0, d0)
  {
    var r2 := MonthStart(m0) + d0;
    DayOfYearFacts(m0, d0);
    YearCountIs(y0);
    ShiftBackWraps(n);
    var r1 := YearSplitsOfShifted(y0, r2);
    MonthJoin(m0, d0);
    FromDaysChain(n, YearStart(y0) + r2, y0 / 100, r1, y0 % 100, r2, (m0, d0));
    FromDaysFinish(y0, r2, m0, d0);
  }

  /** `_S_from_days` is its splits, taken one after the other. */
  lemma FromDaysChain(n: Count, r0: int, c: nat, r1: nat, e: nat, r2: nat, month: (nat, nat))
    requires U32(U32(n) + R2E3) == r0 && CenturySplit(r0) == (c, r1)
    requires YearSplit(r1) == (e, r2) && MonthSplit(r2) == month
    ensures FromDays(n) == CivilOfSplit(c, e, r2, month)
  {
  }

  /** The century and year splits of `_S_from_days` find shifted year `y0` and day `r2` of it again. */
  lemma YearSplitsOfShifted(y0: nat, r2: nat) returns (r1: nat)
    requires 1435231 <= y0 <= 1500767 && r2 <= 365 && (r2 == 365 ==> GregorianLeap(y0 + 1))
    ensures YearStart(y0) + r2 < 0x4000_0000
    ensures CenturySplit(YearStart(y0) + r2) == (y0 / 100, r1) && YearSplit(r1) == (y0 % 100, r2)
  {
    var c, e := y0 / 100, y0 % 100;
    if r2 == 365 {
      SplitLeap(y0);
    }
    YearCountIs(y0);
    YearStartSplit(y0);
    r1 := 365 * e + e / 4 + r2;
    CenturyDayFacts(e, r2);
    CenturyUnique(YearStart(y0) + r2, c, r1);
    YearUnique(r1, e, r2);
  }

  /** A day of a year of a century lies within the century; only 29 February of its last year is day 36524. */
  lemma CenturyDayFacts(e: nat, r2: nat)
    requires e <= 99 && r2 <= 365
    ensures 365 * e + e / 4 + r2 <= 36524
    ensures 365 * e + e / 4 + r2 == 36524 ==> e == 99 && r2 == 365
  {
  }

  /** The last lines of `_S_from_days` move a shifted year, month and day back to the civil date. */
  lemma FromDaysFinish(y0: nat, r2: nat, m0: nat, d0: nat)
    requires 1435231 <= y0 <= 1500767 && 3 <= m0 <= 14 && d0 <= 30 && (r2 >= 306 <==> m0 >= 13)
    requires -0x8000 <= y0 + (if m0 >= 13 then 1 else 0) - 1468000 < 0x8000
    ensures CivilOfSplit(y0 / 100, y0 % 100, r2, (m0, d0)) == CivilOfShifted(y0, m0, d0)
  {
    var j := if m0 >= 13 then 1 else 0;
    U32Id(y0);
    U32Id(y0 + j);
    if j == 1 {
      U32Id(m0 - 12);
    }
    U32Id(d0 + 1);
    YearUnshiftWraps(y0 + j - 1468000);
  }

  /** `_S_from_days` undoes `_M_days_since_epoch` on every valid date. */
  lemma FromDaysOfDaysSinceEpoch(date: YearMonthDay)
    requires date.Ok()
    ensures FromDays(DaysSinceEpoch(date)) == date
  {
    var y0, m0, d0 := ShiftedYear(date), ShiftedMonth(date), date.day.d - 1;
    CivilFits(date);
    DaysSinceEpochIs(date);
    DayOfYearFacts(m0, d0);
    FromDaysShifted(DaysSinceEpoch(date), y0, m0, d0);
  }

  /**
   * `_M_days_since_epoch` undoes `_S_from_days` on every count from
   * `MinDays` to `MaxDays`, and every such count gives a valid date.
   */
  lemma DaysSinceEpochOfFromDays(n: Count)
    requires MinDays <= n <= MaxDays
    ensures FromDays(n).Ok() && DaysSinceEpoch(FromDays(n)) == n
  {
    var y0, m0, d0 := ShiftedOfDays(n);
    FromDaysShifted(n, y0, m0, d0);
    CivilDateOk(y0, m0, d0);
    CivilOfShiftedFacts(y0, m0, d0);
    DaysSinceEpochIs(CivilOfShifted(y0, m0, d0));
  }

  /** Every count from `MinDays` to `MaxDays` is a day of a shifted month of a shifted year in the valid range. */
  lemma ShiftedOfDays(n: Count) returns (y0: nat, m0: int, d0: int)
    requires MinDays <= n <= MaxDays
    ensures 1435232 <= y0 <= 1500767 && 3 <= m0 <= 14 && 0 <= d0 < MonthLength(m0)
    ensures y0 == 1435232 ==> m0 >= 13
    ensures y0 == 1500767 ==> m0 <= 12
    ensures MonthStart(m0) + d0 == 365 ==> GregorianLeap(y0 + 1)
    ensures m0 == 14 && d0 == 28 ==> GregorianLeap(y0 + 1)
    ensures n == YearStart(y0) + MonthStart(m0) + d0 - R2E3
  {
    var r0 := n + R2E3;
    var cs := CenturySplit(r0);
    var ys := YearSplit(cs.1);
    var ms := MonthSplit(ys.1);
    var r2 := ys.1;
    y0, m0, d0 := 100 * cs.0 + ys.0, ms.0, ms.1;
    DivModUnique(y0, 100, cs.0, ys.0);
    YearStartSplit(y0);
    if r2 == 365 {
      LeapOfSplit(cs.0, ys.0);
    }
    DayOfYearFacts(m0, d0);
    ShiftedYearInRange(y0, r2, r0);
  }

  /** A day of a shifted year between the first and the last valid date lies in a shifted year of the valid range. */
  lemma ShiftedYearInRange(y0: nat, r2: nat, r0: int)
    requires r2 <= 365 && r0 == YearStart(y0) + r2 && MinDays + R2E3 <= r0 <= MaxDays + R2E3
    ensures 1435232 <= y0 <= 1500767
    ensures y0 == 1435232 ==> r2 >= 306
    ensures y0 == 1500767 ==> r2 <= 305
  {
  }

  /** The date on a day of a shifted year within the valid range is valid. */
  lemma CivilDateOk(y0: nat, m0: int, d0: int)
    requires 1435232 <= y0 <= 1500767 && 3 <= m0 <= 14 && 0 <= d0 < MonthLength(m0)
    requires y0 == 1435232 ==> m0 >= 13
    requires y0 == 1500767 ==> m0 <= 12
    requires m0 == 14 && d0 == 28 ==> GregorianLeap(y0 + 1)
    ensures CivilOfShifted(y0, m0, d0).Ok()
  {
    var date := CivilOfShifted(y0, m0, d0);
    CivilOfShiftedFacts(y0, m0, d0);
    LastDayMatchesTable(date.year, date.month);
    LeapShift(date.year.y);
  }

  // ---------------------------------------------------------------------
  // 12- and 24-hour clocks
  // ---------------------------------------------------------------------

  /** `is_am`: hours 0 to 11. */
  predicate IsAm(h: int)
  {
    0 <= h <= 11
  }

  /** `is_pm`: hours 12 to 23. */
  predicate IsPm(h: int)
  {
    12 <= h <= 23
  }

  /** `make12`: the hour on a 12-hour clock, 12 for midnight and noon. */
  function Make12(h: Count): (r: Count)
    ensures 0 <= h <= 23 ==> 1 <= r <= 12 && (r - h) % 12 == 0
  {
    if h == 0 then 12
    else if h > 12 then h - 12
    else h
  }

  /** `make24`: the hour on a 24-hour clock of hour `h` of the morning or the afternoon. */
  function Make24(h: Count, isPm: bool): (r: Count)
    requires isPm ==> h < 0x8000_0000_0000_0000 - 12
    ensures 1 <= h <= 12 ==> (if isPm then IsPm(r) else IsAm(r)) && (r - h) % 12 == 0
  {
    if !isPm then
      if h == 12 then 0 else h
    else
      if h == 12 then h else h + 12
  }

  /** An hour of the day is not both morning and afternoon, and is one of them. */
  lemma AmPmPartition(h: Count)
    ensures IsAm(h) ==> !IsPm(h)
    ensures 0 <= h <= 23 ==> IsAm(h) || IsPm(h)
  {
  }

  /** `make24` undoes `make12` given which half of the day the hour is in. */
  lemma Make24OfMake12(h: Count)
    requires 0 <= h <= 23
    ensures Make24(Make12(h), IsPm(h)) == h
  {
  }

  /** `make12` undoes `make24`, and the hour lands in the half of the day asked for. */
  lemma Make12OfMake24(h: Count, isPm: bool)
    requires 1 <= h <= 12
    ensures Make12(Make24(h, isPm)) == h && IsPm(Make24(h, isPm)) == isPm
  {
  }

  // ---------------------------------------------------------------------
  // __pow10
  // ---------------------------------------------------------------------

  /** Ten to the power `n`. */
  function Power10(n: nat): (r: nat)
    ensures r >= 1
  {
    if n == 0 then 1 else 10 * Power10(n - 1)
  }

  /** Powers of ten multiply by adding exponents. */
  lemma {:induction false} Power10Add(a: nat, b: nat)
    ensures Power10(a + b) == Power10(a) * Power10(b)
    decreases a
  {
    if a > 0 {
      Power10Add(a - 1, b);
      assert Power10(a + b) == 10 * Power10(a - 1 + b);
    }
  }

  /** Up to `10^18` the powers of ten are `long long` values. */
  lemma Power10Fits(n: nat)
    requires n <= 18
    ensures Power10(n) <= 1_000_000_000_000_000_000 < 0x8000_0000_0000_0000
  {
    Power10Monotone(n, 18);
    Power10Add(3, 3);
    Power10Add(6, 3);
    Power10Add(9, 9);
  }

  /** Larger exponents give larger powers. */
  lemma {:induction false} Power10Monotone(a: nat, b: nat)
    requires a <= b
    ensures Power10(a) <= Power10(b)
    decreases b - a
  {
    if a < b {
      Power10Monotone(a + 1, b);
    }
  }

  /**
   * `__pow10`: `r` multiplied by 10, `n` times, in `long long`; the
   * counts the `hh_mm_ss` precision uses never overflow it.
   */
  method Pow10(n: nat) returns (r: Count)
    requires n <= 18
    ensures r == Power10(n)
  {
    r := 1;
    var k: nat := n;
    while k > 0
      invariant k <= n && r == Power10(n - k)
      decreases k
    {
      Power10Fits(n - k + 1);
      k := k - 1;
      r := r * 10;
    }
  }
}
