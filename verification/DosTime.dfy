/**
 Conversion between Unix time and packed DOS date and time, with the caches of the last
 conversion. Both calendars take every fourth year as a leap year.
 */
module DosTime {
  import opened CInt
  import opened Wrappers

  const DAY := 24 * 60 * 60
  const DAYS_TO_1980 := 8 * 365 + 2 * 366
  const SECONDS_TO_1980 := DAYS_TO_1980 * DAY

  // ----- the calendar

  function YearDays(year: nat): (n: nat)
    ensures 365 <= n <= 366
  {
    if year % 4 == 0 then 366 else 365
  }

  function MonthDays(leap: bool, month: nat): (n: nat)
    requires month < 12
    ensures 28 <= n <= 31
  {
    if month == 1 then (if leap then 29 else 28)
    else if month == 3 || month == 5 || month == 8 || month == 10 then 30
    else 31
  }

  /** The days of the first n years from a year on. */
  function YearSum(year: nat, n: nat): nat {
    if n == 0 then 0 else YearSum(year, n - 1) + YearDays(year + n - 1)
  }

  /** The days of the first n months. */
  function MonthSum(leap: bool, n: nat): nat
    requires n <= 12
  {
    if n == 0 then 0 else MonthSum(leap, n - 1) + MonthDays(leap, n - 1)
  }

  /** A date: the year, the month from 0 and the day from 0. */
  datatype Date = Date(year: nat, month: nat, day: nat)
  {
    predicate Valid() {
      month < 12 && day < MonthDays(year % 4 == 0, month)
    }

    /** Days since the start of 1970. */
    function Days(): nat
      requires Valid() && year >= 1970
    {
      YearSum(1970, year - 1970) + MonthSum(year % 4 == 0, month) + day
    }
  }

  lemma {:induction false} MonthSumGrows(leap: bool, m: nat, n: nat)
    requires m <= n <= 12
    ensures MonthSum(leap, m) <= MonthSum(leap, n)
  {
    if m == n {
    } else {
      MonthSumGrows(leap, m, n - 1);
    }
  }

  lemma {:induction false} YearSumGrows(year: nat, m: nat, n: nat)
    requires m <= n
    ensures YearSum(year, m) + 365 * (n - m) <= YearSum(year, n) <= YearSum(year, m) + 366 * (n - m)
  {
    if m == n {
    } else {
      YearSumGrows(year, m, n - 1);
    }
  }

  lemma MonthsOfYear(leap: bool)
    ensures MonthSum(leap, 12) == if leap then 366 else 365
  {
    var feb := if leap then 29 else 28;
    assert MonthSum(leap, 1) == 31;
    assert MonthSum(leap, 2) == 31 + feb;
    assert MonthSum(leap, 3) == 62 + feb;
    assert MonthSum(leap, 4) == 92 + feb;
    assert MonthSum(leap, 5) == 123 + feb;
    assert MonthSum(leap, 6) == 153 + feb;
    assert MonthSum(leap, 7) == 184 + feb;
    assert MonthSum(leap, 8) == 215 + feb;
    assert MonthSum(leap, 9) == 245 + feb;
    assert MonthSum(leap, 10) == 276 + feb;
    assert MonthSum(leap, 11) == 306 + feb;
  }

  /** No two dates have the same day number. */
  lemma DaysInjective(a: Date, b: Date)
    requires a.Valid() && b.Valid() && a.year >= 1970 && b.year >= 1970 && a.Days() == b.Days()
    ensures a == b
  {
    if a.year < b.year {
      LaterYear(a, b);
    } else if b.year < a.year {
      LaterYear(b, a);
    } else if a.month < b.month {
      LaterMonth(a.year % 4 == 0, a.month, b.month, a.day);
    } else if b.month < a.month {
      LaterMonth(a.year % 4 == 0, b.month, a.month, b.day);
    }
  }

  lemma LaterMonth(leap: bool, m: nat, n: nat, day: nat)
    requires m < n <= 12 && day < MonthDays(leap, m)
    ensures MonthSum(leap, m) + day < MonthSum(leap, n)
  {
    hide MonthDays;
    MonthSumGrows(leap, m + 1, n);
  }

  lemma LaterYear(a: Date, b: Date)
    requires a.Valid() && b.Valid() && 1970 <= a.year < b.year
    ensures a.Days() < b.Days()
  {
    LaterMonth(a.year % 4 == 0, a.month, 12, a.day);
    MonthsOfYear(a.year % 4 == 0);
    YearSumGrows(1970, a.year - 1970 + 1, b.year - 1970);
  }

  // ----- the packed fields

  function PackDate(d: Date): u16
    requires d.Valid()
  {
    U16(d.day + 1 + (d.month + 1) * 0x20 + if d.year > 1980 then (d.year - 1980) * 0x200 else 0)
  }

  /** The time of day, from the even second below t. */
  function PackTime(t: nat): (dt: nat)
    ensures dt < 0x1_0000
  {
    t / 2 % 30 + t / 60 % 60 * 0x20 + t / 3600 % 24 * 0x800
  }

  function DayField(dd: nat): nat { dd % 0x20 }
  function MonthField(dd: nat): nat { dd / 0x20 % 0x10 }
  function YearField(dd: nat): nat { dd / 0x200 % 0x80 }

  /** Packed fields never overlap: each is read back as it was put in. */
  lemma DateFields(d: Date)
    requires d.Valid() && 1980 <= d.year <= 2107
    ensures DayField(PackDate(d)) == d.day + 1
    ensures MonthField(PackDate(d)) == d.month + 1
    ensures YearField(PackDate(d)) == d.year - 1980
  {
    var y, m, dd := d.year - 1980, d.month + 1, d.day + 1;
    var x := dd + m * 0x20 + y * 0x200;
    assert x < 0x1_0000;
    DivModUnique(x, 0x20, m + y * 0x10, dd);
    DivModUnique(m + y * 0x10, 0x10, y, m);
    DivModUnique(x, 0x200, y, dd + m * 0x20);
  }

  function TimeSeconds(dt: nat): nat {
    dt % 0x20 * 2 + dt / 0x20 % 0x40 * 60 + dt / 0x800 % 0x20 * 3600
  }

  function DayOf(t: nat): nat { t / DAY }

  function SecondOf(t: nat): (s: nat)
    ensures s < DAY
  {
    t % DAY
  }

  function Odd(t: nat): (r: nat)
    ensures r < 2
  {
    t % 2
  }

  lemma TimeRoundTrip(t: nat)
    ensures TimeSeconds(PackTime(t)) == SecondOf(t) - Odd(t) && Odd(t) <= SecondOf(t)
    ensures t == DayOf(t) * DAY + SecondOf(t)
  {
    var d, s := t / DAY, t % DAY;
    var h, s1 := s / 3600, s % 3600;
    var m, s2 := s1 / 60, s1 % 60;
    var q, r := s2 / 2, s2 % 2;
    assert t == DAY * d + 3600 * h + 60 * m + 2 * q + r;
    DivModUnique(t, 2, 43200 * d + 1800 * h + 30 * m + q, r);
    DivModUnique(t / 2, 30, 1440 * d + 60 * h + m, q);
    DivModUnique(t, 60, 1440 * d + 60 * h + m, 2 * q + r);
    DivModUnique(t / 60, 60, 24 * d + h, m);
    DivModUnique(t, 3600, 24 * d + h, 60 * m + 2 * q + r);
    DivModUnique(t / 3600, 24, d, h);
    TimeFields(q, m, h);
  }

  lemma TimeFields(q: nat, m: nat, h: nat)
    requires q < 30 && m < 60 && h < 24
    ensures TimeSeconds(q + m * 0x20 + h * 0x800) == 2 * q + 60 * m + 3600 * h
  {
    var x := q + m * 0x20 + h * 0x800;
    DivModUnique(x, 0x20, m + h * 0x40, q);
    DivModUnique(m + h * 0x40, 0x40, h, m);
    DivModUnique(x, 0x800, h, q + m * 0x20);
  }

  // ----- the two directions without caches

  /** The date of a day number, by the year loop and the month loop. */
  function YearLoop(days: nat, year: nat): (nat, nat)
    decreases days
  {
    if days < YearDays(year) then (year, days) else YearLoop(days - YearDays(year), year + 1)
  }

  function MonthLoop(days: nat, leap: bool, month: nat): (nat, nat)
    requires month <= 12
    decreases 12 - month
  {
    if month == 12 || days < MonthDays(leap, month) then (month, days)
    else MonthLoop(days - MonthDays(leap, month), leap, month + 1)
  }

  lemma {:induction false} YearLoopSum(days: nat, year: nat)
    requires year >= 1970
    ensures
      var (y, rest) := YearLoop(days, year);
      y >= year && rest < YearDays(y) && YearSum(1970, year - 1970) + days == YearSum(1970, y - 1970) + rest
    decreases days
  {
    if days < YearDays(year) {
    } else {
      YearLoopSum(days - YearDays(year), year + 1);
    }
  }

  lemma {:induction false} MonthLoopSum(days: nat, leap: bool, month: nat)
    requires month <= 12 && MonthSum(leap, month) + days < MonthSum(leap, 12)
    ensures
      var (m, rest) := MonthLoop(days, leap, month);
      m < 12 && rest < MonthDays(leap, m) && MonthSum(leap, month) + days == MonthSum(leap, m) + rest
    decreases 12 - month
  {
    hide MonthDays;
    if days < MonthDays(leap, month) {
    } else {
      MonthLoopSum(days - MonthDays(leap, month), leap, month + 1);
    }
  }

  function DateOf(days: nat): (d: Date)
    ensures d.Valid() && d.year >= 1970 && d.Days() == days
  {
    var (year, rest) := YearLoop(days, 1970);
    YearLoopSum(days, 1970);
    MonthsOfYear(year % 4 == 0);
    MonthLoopSum(rest, year % 4 == 0, 0);
    var (month, day) := MonthLoop(rest, year % 4 == 0, 0);
    Date(year, month, day)
  }

  /** Whole months before the month field; 0 counts as January. */
  function MonthsBefore(dd: nat): (n: nat)
    ensures n <= 12
  {
    Min(Max(MonthField(dd), 1) - 1, 12)
  }

  /** Seconds since 1970 of a packed date, in 32 bits. */
  function DateSeconds(dd: nat): u32 {
    SecondsFrom(YearField(dd), MonthsBefore(dd), DayField(dd))
  }

  /** The same from the years since 1980, the whole months and the day from 1. */
  function SecondsFrom(year: nat, months: nat, day: nat): u32
    requires months <= 12
  {
    U32((YearSum(0, year) + MonthSum(year % 4 == 0, months) + day - 1) * DAY + SECONDS_TO_1980)
  }

  /** The seconds of a packed time and of its hundredths. */
  function FieldSeconds(dt: nat, dh: nat): nat { TimeSeconds(dt) + dh / 100 }

  function ToUnix(dd: nat, dt: nat, dh: nat): u32 {
    U32(FieldSeconds(dt, dh) + DateSeconds(dd))
  }

  lemma {:induction false} YearsSince1980(n: nat)
    ensures YearSum(1970, n + 10) == DAYS_TO_1980 + YearSum(0, n)
  {
    if n == 0 {
      assert YearSum(1970, 2) == 730 && YearSum(1970, 4) == 1461;
      assert YearSum(1970, 6) == 2191 && YearSum(1970, 8) == 2922;
      assert YearSum(1970, 10) == 3652;
    } else {
      YearsSince1980(n - 1);
      SameLeap(n - 1);
    }
  }

  lemma SameLeap(n: nat)
    ensures (1980 + n) % 4 == n % 4
  {
  }

  lemma DateSecondsOf(d: Date)
    requires d.Valid() && 1980 <= d.year <= 2107
    ensures DateSeconds(PackDate(d)) == U32(d.Days() * DAY)
  {
    hide PackDate, SecondsFrom, U32, DayField, MonthField, YearField;
    DateFields(d);
    SecondsFromIs(d);
  }

  lemma SecondsFromIs(d: Date)
    requires d.Valid() && d.year >= 1980
    ensures SecondsFrom(d.year - 1980, d.month, d.day + 1) == U32(d.Days() * DAY)
  {
    hide U32, YearSum, MonthSum, MonthDays;
    YearsSince1980(d.year - 1980);
    SameLeap(d.year - 1980);
  }

  lemma YearsInRange(t: nat)
    requires SECONDS_TO_1980 <= t < 0x1_0000_0000
    ensures 1980 <= DateOf(DayOf(t)).year <= 2107
  {
    var d, e := DateOf(DayOf(t)), Date(1980, 0, 0);
    assert e.Valid() && e.Days() == DAYS_TO_1980 by {
      YearsSince1980(0);
    }
    assert DAYS_TO_1980 <= DayOf(t) < 49711;
    hide YearSum, MonthSum, DateOf, DayOf;
    if d.year < 1980 {
      LaterYear(d, e);
    } else if d.year > 2107 {
      YearSumGrows(1970, 0, d.year - 1970);
    }
  }

  /** Every Unix time from 1980 to the end of 32 bits survives the trip through the DOS fields. */
  lemma UnixRoundTrip(t: nat)
    requires SECONDS_TO_1980 <= t < 0x1_0000_0000
    ensures ToUnix(PackDate(DateOf(DayOf(t))), PackTime(t), Odd(t) * 100) == t
  {
    hide PackDate, PackTime, DateSeconds, TimeSeconds, DateOf, U32, Date.Days, Date.Valid, DayOf, SecondOf, Odd;
    var d := DateOf(DayOf(t));
    YearsInRange(t);
    DateSecondsOf(d);
    TimeRoundTrip(t);
    Assemble(d.Days(), SecondOf(t), Odd(t));
  }

  lemma Assemble(days: nat, s: nat, odd: nat)
    requires odd < 2 && odd <= s && days * DAY + s < 0x1_0000_0000
    ensures U32(s - odd + odd * 100 / 100 + U32(days * DAY)) == days * DAY + s
  {
    assert odd * 100 / 100 == odd;
    assert U32(days * DAY) == days * DAY;
  }

  /** And back: every date and second of the DOS range that fits 32 bits survives the trip through Unix time. */
  lemma DosRoundTrip(d: Date, s: nat)
    requires d.Valid() && 1980 <= d.year <= 2107 && s < DAY && d.Days() * DAY + s < 0x1_0000_0000
    ensures
      var t := ToUnix(PackDate(d), PackTime(s), Odd(s) * 100);
      DayOf(t) == d.Days() && DateOf(DayOf(t)) == d && PackTime(t) == PackTime(s) && Odd(t) == Odd(s)
  {
    hide PackDate, PackTime, DateSeconds, TimeSeconds, DateOf, U32, Date.Days, Date.Valid, DayOf, SecondOf, Odd;
    SmallSecond(s);
    DaysInjective(DateOf(d.Days()), d);
    DateSecondsOf(d);
    TimeRoundTrip(s);
    Assemble(d.Days(), s, Odd(s));
    SecondsOfDay(d.Days(), s);
  }

  lemma SmallSecond(s: nat)
    requires s < DAY
    ensures SecondOf(s) == s
  {
  }

  lemma SecondsOfDay(days: nat, s: nat)
    requires s < DAY
    ensures DayOf(days * DAY + s) == days && PackTime(days * DAY + s) == PackTime(s) && Odd(days * DAY + s) == Odd(s)
  {
    var t := days * DAY + s;
    DivModUnique(t, DAY, days, s);
    DivModUnique(t, 2, days * 43200 + s / 2, s % 2);
    DivModUnique(t / 2, 30, days * 1440 + s / 2 / 30, s / 2 % 30);
    DivModUnique(t, 60, days * 1440 + s / 60, s % 60);
    DivModUnique(t / 60, 60, days * 24 + s / 60 / 60, s / 60 % 60);
    DivModUnique(t, 3600, days * 24 + s / 3600, s % 3600);
    DivModUnique(t / 3600, 24, days + s / 3600 / 24, s / 3600 % 24);
  }

  // ----- the calendar in closed form

  /** The days before each month of a common year, and of the whole year. */
  const MONTH_STARTS: seq<nat> := [0, 31, 59, 90, 120, 151, 181, 212, 243, 273, 304, 334, 365]

  /** The first months of a year: by the table, with a day more behind February in a leap year. */
  lemma {:induction false} MonthTotals(leap: bool, n: nat)
    requires n <= 12
    ensures MonthSum(leap, n) == MONTH_STARTS[n] + if leap && n >= 2 then 1 else 0
  {
    if n == 0 {
    } else {
      MonthTotals(leap, n - 1);
      MonthLengths(leap, n - 1);
      hide MonthDays;
    }
  }

  lemma MonthLengths(leap: bool, month: nat)
    requires month < 12
    ensures
      MonthDays(leap, month) == MONTH_STARTS[month + 1] - MONTH_STARTS[month] + if leap && month == 1 then 1 else 0
  {
  }

  /** From March on five months have 153 days. */
  lemma FromMarch(leap: bool, n: nat)
    requires n <= 10
    ensures MonthSum(leap, n + 2) == MonthSum(leap, 2) + (153 * n + 2) / 5
  {
    hide MonthSum;
    MonthTotals(leap, 2);
    MonthTotals(leap, n + 2);
  }

  /** Every fourth year has a day more; from 1970 the first one is 1972, from 1980 the first one is at once. */
  lemma {:induction false} YearTotals(n: nat)
    ensures YearSum(1970, n) == 365 * n + (n + 1) / 4
    ensures YearSum(0, n) == 365 * n + (n + 3) / 4
  {
    if n == 0 {
    } else {
      YearTotals(n - 1);
      FourthYear(n);
    }
  }

  lemma FourthYear(n: nat)
    requires n > 0
    ensures (n + 1) / 4 == n / 4 + if (1970 + n - 1) % 4 == 0 then 1 else 0
    ensures (n + 3) / 4 == (n + 2) / 4 + if (n - 1) % 4 == 0 then 1 else 0
  {
  }

  /** Four years are 1461 days wherever they begin. */
  lemma FourYears(year: nat)
    ensures YearSum(year, 4) == 1461
  {
    assert YearSum(year, 1) == YearDays(year);
    assert YearSum(year, 3) == YearSum(year, 1) + YearDays(year + 1) + YearDays(year + 2);
  }

  /** The day number of a civil date, month and day counted from 1, by the tables and the fourth years alone. */
  function CivilDay(year: nat, month: nat, day: nat): int
    requires 1 <= month <= 13
  {
    var leap := if year % 4 == 0 && month > 2 then 1 else 0;
    365 * (year - 1970) + (year - 1969) / 4 + MONTH_STARTS[month - 1] + leap + day - 1
  }

  /** The civil dates there are. */
  predicate Civil(year: nat, month: nat, day: nat) {
    && year >= 1970 && 1 <= month <= 12 && day >= 1
    && MONTH_STARTS[month - 1] + day <= MONTH_STARTS[month] + if month == 2 && year % 4 == 0 then 1 else 0
  }

  lemma CivilIsDate(year: nat, month: nat, day: nat)
    requires Civil(year, month, day)
    ensures
      var d := Date(year, month - 1, day - 1);
      d.Valid() && d.Days() == CivilDay(year, month, day)
  {
    MonthTotals(year % 4 == 0, month - 1);
    MonthTotals(year % 4 == 0, month);
    YearTotals(year - 1970);
    assert MonthSum(year % 4 == 0, month) == MonthSum(year % 4 == 0, month - 1) + MonthDays(year % 4 == 0, month - 1);
    hide MonthSum, YearSum, MonthDays;
  }

  /** The date fields of a time are those of its civil date, the years counted from 1980 and none before it. */
  lemma DosDateIs(t: nat, year: nat, month: nat, day: nat)
    requires Civil(year, month, day)
    requires t / 86400 == CivilDay(year, month, day)
    requires t < 0x1_0000_0000_0000
    requires year <= 2107
    ensures U32(DayOf(t)) == DayOf(t)
    ensures PackDate(DateOf(U32(DayOf(t)))) == day + 32 * month + 512 * Max(0, year - 1980)
  {
    hide CivilDay, MONTH_STARTS, Date.Days, Date.Valid, DateOf, PackDate, U32, DayOf;
    var d := Date(year, month - 1, day - 1);
    CivilIsDate(year, month, day);
    SmallCivil(year, month, day);
    DaysInjective(DateOf(d.Days()), d);
    DayNumber(t);
    PackedIs(d);
  }

  lemma DayNumber(t: nat)
    ensures DayOf(t) == t / 86400 && (t / 86400 < 0x1_0000_0000 ==> U32(DayOf(t)) == DayOf(t))
  {
  }

  lemma PackedIs(d: Date)
    requires d.Valid() && d.month < 12 && d.day < 31 && d.year <= 2107
    ensures PackDate(d) == d.day + 1 + 32 * (d.month + 1) + 512 * Max(0, d.year - 1980)
  {
    hide MonthDays;
  }

  lemma SmallCivil(year: nat, month: nat, day: nat)
    requires Civil(year, month, day) && year <= 2107
    ensures 0 <= CivilDay(year, month, day) < 0x1_0000_0000 && month <= 12 && day <= 31
    ensures day + 32 * month + 512 * Max(0, year - 1980) < 0x1_0000
  {
  }

  /** The time fields are the halved second, the minute and the hour; the odd second goes into the hundredths. */
  lemma DosTimeIs(days: nat, hour: nat, minute: nat, second: nat)
    requires hour < 24 && minute < 60 && second < 60
    ensures PackTime(86400 * days + 3600 * hour + 60 * minute + second) == second / 2 + 32 * minute + 2048 * hour
    ensures Odd(86400 * days + 3600 * hour + 60 * minute + second) == second % 2
  {
    var t, q, r := 86400 * days + 3600 * hour + 60 * minute + second, second / 2, second % 2;
    DivModUnique(t, 2, 43200 * days + 1800 * hour + 30 * minute + q, r);
    DivModUnique(t / 2, 30, 1440 * days + 60 * hour + minute, q);
    DivModUnique(t, 60, 1440 * days + 60 * hour + minute, second);
    DivModUnique(t / 60, 60, 24 * days + hour, minute);
    DivModUnique(t, 3600, 24 * days + hour, 60 * minute + second);
    DivModUnique(t / 3600, 24, days, hour);
  }

  /** And back: fields of any value give the second of their civil date, in 32 bits; month 0 counts as January. */
  lemma UnixTimeIs(year: nat, month: nat, day: nat, dt: nat, dh: nat)
    requires year < 128 && month <= 13 && day < 32
    ensures
      ToUnix(day + 32 * month + 512 * year, dt, dh) ==
      (86400 * CivilDay(1980 + year, Max(month, 1), day)
       + 3600 * (dt / 2048 % 32) + 60 * (dt / 32 % 64) + 2 * (dt % 32) + dh / 100) % 0x1_0000_0000
  {
    hide SecondsFrom, CivilDay, U32, FieldSeconds, DayField, YearField, MonthField;
    var dd, months := day + 32 * month + 512 * year, Max(month, 1) - 1;
    FieldsOf(year, month, day);
    assert DateSeconds(dd) == SecondsFrom(year, months, day);
    SecondsFromCivil(year, months, day);
    SumInWord(FieldSeconds(dt, dh), 86400 * CivilDay(1980 + year, months + 1, day));
    FieldSecondsAre(dt, dh);
  }

  lemma FieldSecondsAre(dt: nat, dh: nat)
    ensures FieldSeconds(dt, dh) == 3600 * (dt / 2048 % 32) + 60 * (dt / 32 % 64) + 2 * (dt % 32) + dh / 100
  {
  }

  lemma FieldsOf(year: nat, month: nat, day: nat)
    requires year < 128 && month <= 13 && day < 32
    ensures
      var dd := day + 32 * month + 512 * year;
      YearField(dd) == year && MonthField(dd) == month && DayField(dd) == day
  {
    var dd := day + 32 * month + 512 * year;
    DivModUnique(dd, 32, month + 16 * year, day);
    DivModUnique(month + 16 * year, 16, year, month);
    DivModUnique(dd, 512, year, day + 32 * month);
  }

  lemma SecondsFromCivil(year: nat, months: nat, day: nat)
    requires months <= 12
    ensures SecondsFrom(year, months, day) == U32(86400 * CivilDay(1980 + year, months + 1, day))
  {
    hide YearSum, MonthSum, MONTH_STARTS, U32;
    MonthTotals(year % 4 == 0, months);
    YearTotals(year);
    SameLeap(year);
  }

  lemma SumInWord(a: nat, b: int)
    ensures U32(a + U32(b)) == (a + b) % 0x1_0000_0000
  {
    var q := b / 0x1_0000_0000;
    var y := a + U32(b);
    assert a + b == 0x1_0000_0000 * q + y;
    DivModUnique(a + b, 0x1_0000_0000, q + y / 0x1_0000_0000, y % 0x1_0000_0000);
  }

  // ----- the conversions with their caches

  /** The cached date: 0 until a day other than day 0 has been converted. */
  predicate CachedDate(day: u32, ddate: u16) {
    ddate == PackDate(DateOf(day)) || (day == 0 && ddate == 0)
  }

  lemma DateNotZero(d: Date)
    requires d.Valid()
    ensures PackDate(d) != 0
  {
    var x := d.day + 1 + (d.month + 1) * 0x20 + if d.year > 1980 then (d.year - 1980) * 0x200 else 0;
    var y := if d.year > 1980 then d.year - 1980 else 0;
    DivModUnique(x, 0x20, d.month + 1 + y * 0x10, d.day + 1);
    if x % 0x1_0000 == 0 {
      DivModUnique(x, 0x20, 0x800 * (x / 0x1_0000), 0);
    }
  }

  /** A date of the DOS range has fields that both directions know, and is not day 0. */
  lemma DosDate(d: Date)
    requires d.Valid() && 1980 <= d.year <= 2107
    ensures PackDate(d) != 0 && MonthField(PackDate(d)) <= 13 && d.Days() > 0
  {
    hide PackDate, YearSum, MonthSum, MonthField, MonthDays;
    DateFields(d);
    DateNotZero(d);
    YearSumGrows(1970, 0, d.year - 1970);
  }

  lemma SmallDay(days: nat)
    requires days * DAY < 0x1_0000_0000
    ensures U32(days) == days
  {
    DivModUnique(days, 0x1_0000_0000, 0, days);
  }

  /** 1970-01-01 packs to 0x21, which a clock that has converted nothing yet does not give for it. */
  lemma FirstDayDiffers()
    ensures U32(DayOf(0)) == 0 && PackDate(DateOf(U32(DayOf(0)))) == 0x21
    ensures CachedDate(0, 0)
  {
    hide U32, DayOf, DateOf, PackTime, Odd;
    TimeZero();
    DaysInjective(DateOf(0), Date(1970, 0, 0));
  }

  class DosClock {
    var lasttime: nat
    var lastday: u32
    var lastddate: u16
    var lastdtime: nat
    var lastdosdate: u16
    var lastseconds: u32

    predicate Valid()
      reads this
    {
      && Odd(lasttime) == 0 && lastdtime == PackTime(lasttime) && lastday == U32(DayOf(lasttime))
      && CachedDate(lastday, lastddate)
      && (lastdosdate != 0 ==> lastseconds == DateSeconds(lastdosdate))
    }

    constructor ()
      ensures Valid() && lastddate == 0
    {
      hide PackTime, PackDate, DateOf, DayOf, U32, Odd;
      lasttime, lastday, lastddate, lastdtime, lastdosdate, lastseconds := 0, 0, 0, 0, 0, 0;
      TimeZero();
    }

    /**
     For any history of calls the caches give the answer computed afresh, except that day 0
     reads as date 0 until some other day has been converted.
     */
    method Unix2DosTime(t: nat) returns (ddp: u16, dtp: nat, dhp: nat)
      requires Valid()
      modifies this
      ensures Valid()
      ensures dtp == PackTime(t) && dhp == Odd(t) * 100
      ensures ddp == PackDate(DateOf(U32(DayOf(t)))) <==> U32(DayOf(t)) != 0 || old(lastddate) != 0
      ensures U32(DayOf(t)) == 0 && old(lastddate) == 0 ==> ddp == 0
      ensures lastddate == 0 <==> old(lastddate) == 0 && U32(DayOf(t)) == 0
    {
      hide PackTime, PackDate, DateOf, DayOf, U32;
      var tt := t;
      var te := t - t % 2;
      EvenSecond(t);
      DateNotZero(DateOf(U32(DayOf(t))));
      DateNotZero(DateOf(lastday));
      if lasttime != te {
        lasttime := te;
        lastdtime := PackTime(te);
        var days := U32(DayOf(te));
        if days != lastday {
          lastday := days;
          lastddate := FreshDate(days);
        }
      }
      dtp, dhp, ddp := lastdtime, tt % 2 * 100, lastddate;
    }

    /** The year loop and the month loop. */
    method FreshDate(day: u32) returns (ddate: u16)
      ensures ddate == PackDate(DateOf(day))
    {
      var days: nat, year: nat := day, 1970;
      while days >= YearDays(year)
        invariant YearLoop(day, 1970) == YearLoop(days, year)
        decreases days
      {
        days, year := days - YearDays(year), year + 1;
      }
      var leap, month := year % 4 == 0, 0;
      ghost var rest := days;
      while month < 12 && days >= MonthDays(leap, month)
        invariant 0 <= month <= 12 && MonthLoop(rest, leap, 0) == MonthLoop(days, leap, month)
        decreases 12 - month
      {
        days, month := days - MonthDays(leap, month), month + 1;
      }
      assert DateOf(day) == Date(year, month, days);
      ddate := U16(days + 1 + (month + 1) * 0x20 + if year > 1980 then (year - 1980) * 0x200 else 0);
    }

    /** Nothing for an empty date field; otherwise, whatever was cached, the answer computed afresh. */
    method Dos2UnixTime(dd: u32, dt: u32, dh: u32) returns (tp: Option<u32>)
      requires Valid() && MonthField(dd) <= 13
      modifies `lastdosdate, `lastseconds
      ensures Valid()
      ensures tp == if dd == 0 then None else Some(ToUnix(dd, dt, dh))
    {
      hide PackTime, PackDate, DateOf, DateSeconds, CachedDate, FieldSeconds, DayOf, U32, U16, Odd, MonthField;
      if dd == 0 {
        return None;
      }
      var seconds := U32(FieldSeconds(dt, dh));
      SameFields(dd);
      SmallDate(dd);
      if lastdosdate != dd {
        lastdosdate := U16(dd);
        lastseconds := FreshSeconds(dd);
      }
      SumWraps(FieldSeconds(dt, dh), lastseconds);
      tp := Some(U32(seconds as int + lastseconds as int));
    }

    /** Through both caches, whatever they hold: every time from 1980 on comes back. */
    method UnixThroughDos(t: nat) returns (back: Option<u32>)
      requires Valid() && SECONDS_TO_1980 <= t < 0x1_0000_0000
      modifies this
      ensures Valid() && back == Some(t)
    {
      hide PackTime, PackDate, DateOf, DayOf, U32, Odd, ToUnix, MonthField, CachedDate, Date.Days, Date.Valid;
      YearsInRange(t);
      DosDate(DateOf(DayOf(t)));
      TimeRoundTrip(t);
      SmallDay(DayOf(t));
      UnixRoundTrip(t);
      var dd, dt, dh := Unix2DosTime(t);
      back := Dos2UnixTime(dd, dt, dh);
    }

    /** And the other way round: so does every DOS date and time. */
    method DosThroughUnix(d: Date, s: nat) returns (dd: u16, dt: nat, dh: nat)
      requires Valid() && d.Valid() && 1980 <= d.year <= 2107 && s < DAY && d.Days() * DAY + s < 0x1_0000_0000
      modifies this
      ensures Valid() && dd == PackDate(d) && dt == PackTime(s) && dh == Odd(s) * 100
    {
      hide PackTime, PackDate, DateOf, DayOf, U32, Odd, ToUnix, MonthField, CachedDate, Date.Days, Date.Valid;
      DosRoundTrip(d, s);
      DosDate(d);
      SmallDay(d.Days());
      var t := Dos2UnixTime(PackDate(d), PackTime(s), Odd(s) * 100);
      dd, dt, dh := Unix2DosTime(t.value);
    }

    /** The year sum and the month sum. */
    method FreshSeconds(dd: u32) returns (seconds: u32)
      requires MonthField(dd) <= 13
      ensures seconds == DateSeconds(dd)
    {
      hide U32, DayField, YearField, MonthField, MonthDays, YearDays;
      var year, y, days := YearField(dd), 0, 0;
      while y < year
        invariant 0 <= y <= year && days == YearSum(0, y)
      {
        days, y := days + YearDays(y), y + 1;
      }
      var leap, month, m := year % 4 == 0, MonthField(dd), 0;
      if month == 0 {
        month := 1;
      }
      while m < month - 1
        invariant 0 <= m <= month - 1 && days == YearSum(0, year) + MonthSum(leap, m)
      {
        days, m := days + MonthDays(leap, m), m + 1;
      }
      seconds := U32((days + DayField(dd) - 1) * DAY + SECONDS_TO_1980);
    }
  }

  lemma TimeZero()
    ensures PackTime(0) == 0 && U32(DayOf(0)) == 0 && Odd(0) == 0
  {
    DivModUnique(0, 2, 0, 0);
    DivModUnique(0, 60, 0, 0);
    DivModUnique(0, 3600, 0, 0);
    DivModUnique(0, 30, 0, 0);
    DivModUnique(0, 24, 0, 0);
    DivModUnique(0, DAY, 0, 0);
    DivModUnique(0, 0x1_0000_0000, 0, 0);
  }

  lemma EvenSecond(t: nat)
    ensures t - t % 2 >= 0 && PackTime(t - t % 2) == PackTime(t) && DayOf(t - t % 2) == DayOf(t) && Odd(t - t % 2) == 0
  {
    var h, r := t / 2, t % 2;
    assert t == 2 * h + r;
    DivModUnique(2 * h, 2, h, 0);
    DivModUnique(t, DAY, h / 43200, 2 * (h % 43200) + r);
    DivModUnique(2 * h, DAY, h / 43200, 2 * (h % 43200));
    DivModUnique(t, 60, h / 30, 2 * (h % 30) + r);
    DivModUnique(2 * h, 60, h / 30, 2 * (h % 30));
    DivModUnique(t, 3600, h / 1800, 2 * (h % 1800) + r);
    DivModUnique(2 * h, 3600, h / 1800, 2 * (h % 1800));
  }

  /** The cache key drops the bits above 16, and so do the fields. */
  lemma SameFields(dd: u32)
    ensures DateSeconds(U16(dd)) == DateSeconds(dd)
  {
    hide SecondsFrom, DayField, MonthField, YearField, U16;
    FieldsIn16(dd);
  }

  lemma FieldsIn16(dd: u32)
    ensures DayField(U16(dd)) == DayField(dd)
    ensures MonthField(U16(dd)) == MonthField(dd)
    ensures YearField(U16(dd)) == YearField(dd)
  {
    var q, x := dd / 0x1_0000, dd % 0x1_0000;
    assert dd == 0x1_0000 * q + x;
    DivModUnique(dd, 0x20, 0x800 * q + x / 0x20, x % 0x20);
    DivModUnique(0x800 * q + x / 0x20, 0x10, 0x80 * q + x / 0x20 / 0x10, x / 0x20 % 0x10);
    DivModUnique(dd, 0x200, 0x80 * q + x / 0x200, x % 0x200);
    DivModUnique(0x80 * q + x / 0x200, 0x80, q + x / 0x200 / 0x80, x / 0x200 % 0x80);
  }

  lemma SmallDate(dd: u32)
    ensures dd < 0x1_0000 ==> U16(dd) == dd
  {
  }

  lemma SumWraps(a: nat, b: u32)
    ensures U32(U32(a) + b as int) == U32(a + b)
  {
    var q := a / 0x1_0000_0000;
    assert a == 0x1_0000_0000 * q + U32(a);
    var s := U32(a) + b as int;
    DivModUnique(a + b, 0x1_0000_0000, q + s / 0x1_0000_0000, s % 0x1_0000_0000);
  }
}
