/**
 * JavaScript `Date` values as integer milliseconds since 1970-01-01 00:00
 * local time, with the calendar fields `getFullYear`, `getMonth`, `getDate`,
 * `getHours` and `getMinutes` computed in the proleptic Gregorian calendar.
 * Time zones and daylight-saving shifts are not modelled: local time is the
 * only time there is.
 */
module Clock {

  /** A point in time: milliseconds since the local epoch. */
  type Instant = int

  const MsPerMinute: int := 60000
  const MsPerHour: int := 3600000
  const MsPerDay: int := 86400000

  /** A calendar date: month 1..12, day 1..31. */
  datatype Civil = Civil(year: int, month: int, day: int)

  /** Days from 1970-01-01 to the given date (month 1..12; any day count is added linearly). */
  function DaysFromCivil(y: int, m: int, d: int): int {
    var y' := if m <= 2 then y - 1 else y;
    var era := y' / 400;
    var yoe := y' - era * 400;
    var mp := if m > 2 then m - 3 else m + 9;
    var doy := (153 * mp + 2) / 5 + d - 1;
    var doe := yoe * 365 + yoe / 4 - yoe / 100 + doy;
    era * 146097 + doe - 719468
  }

  function YearOfEra(doe: int): int {
    (doe - doe / 1460 + doe / 36524 - doe / 146096) / 365
  }

  lemma DayOfYearBounds(doe: int)
    requires 0 <= doe <= 146096
    ensures 0 <= YearOfEra(doe) <= 399
    ensures var y := YearOfEra(doe); 0 <= doe - (365 * y + y / 4 - y / 100) <= 365
  {
    var b := doe / 36524;
    assert 0 <= b <= 4;
    if b == 0 { CenturyBounds(doe, 0); }
    else if b == 1 { CenturyBounds(doe, 1); }
    else if b == 2 { CenturyBounds(doe, 2); }
    else if b == 3 { CenturyBounds(doe, 3); }
    else { assert doe == 146096; }
  }

  lemma CenturyBounds(doe: int, b: int)
    requires 0 <= b <= 3 && 36524 * b <= doe < 36524 * b + 36524
    ensures 0 <= YearOfEra(doe) <= 399
    ensures var y := YearOfEra(doe); 0 <= doe - (365 * y + y / 4 - y / 100) <= 365
  {
    assert doe / 36524 == b && doe / 146096 == 0;
    var y := YearOfEra(doe);
    assert 100 * b <= y < 100 * b + 100;
    assert y / 100 == b;
  }

  /** The calendar date of a day number (the inverse direction of DaysFromCivil). */
  function CivilFromDays(days: int): (c: Civil)
    ensures 1 <= c.month <= 12 && 1 <= c.day <= 31
  {
    var z := days + 719468;
    var era := z / 146097;
    var doe := z % 146097;
    DayOfYearBounds(doe);
    var yoe := YearOfEra(doe);
    var doy := doe - (365 * yoe + yoe / 4 - yoe / 100);
    var mp := (5 * doy + 2) / 153;
    var d := doy - (153 * mp + 2) / 5 + 1;
    var m := if mp < 10 then mp + 3 else mp - 9;
    Civil(yoe + era * 400 + (if m <= 2 then 1 else 0), m, d)
  }

  /** Leap years of the proleptic Gregorian calendar. */
  predicate LeapYear(y: int) {
    y % 4 == 0 && (y % 100 != 0 || y % 400 == 0)
  }

  /** The number of days in month `m` (1..12) of year `y`. */
  function DaysInMonth(y: int, m: int): int
    requires 1 <= m <= 12
  {
    if m == 2 then (if LeapYear(y) then 29 else 28)
    else if m == 4 || m == 6 || m == 9 || m == 11 then 30
    else 31
  }

  /** A year of era split into centuries, four-year cycles and years. */
  lemma EraYearParts(yoe: int)
    requires 0 <= yoe <= 399
    ensures var c, q, r := yoe / 100, (yoe % 100) / 4, yoe % 4;
      0 <= c <= 3 && 0 <= q <= 24 && 0 <= r <= 3
      && yoe == 100 * c + 4 * q + r && yoe / 4 == 25 * c + q
      && 365 * yoe + yoe / 4 - yoe / 100 == 36524 * c + 1461 * q + 365 * r
      && (LeapYear(yoe + 1) <==> r == 3 && (q < 24 || c == 3))
  {
  }

  /** The year-of-era formula on a day given as century, cycle, year and day of year. */
  lemma YearOfEraParts(c: int, q: int, r: int, doy: int)
    requires 0 <= c <= 3 && 0 <= q <= 24 && 0 <= r <= 3
    requires 0 <= doy <= (if r == 3 && (q < 24 || c == 3) then 365 else 364)
    ensures YearOfEra(36524 * c + 1461 * q + 365 * r + doy) == 100 * c + 4 * q + r
  {
    var doe := 36524 * c + 1461 * q + 365 * r + doy;
    var last := if doe == 146096 then 1 else 0;
    assert doe / 146096 == last;
    assert doe / 36524 == c + last;
    var carry := if 24 * c + q + 365 * r + doy >= 1460 then 1 else 0;
    assert doe == 1460 * (25 * c + q) + (24 * c + q + 365 * r + doy);
    assert doe / 1460 == 25 * c + q + carry;
  }

  /** Within a March-based year, the month formula finds the month and day of a day of year. */
  lemma MonthOfDayInverse(mp: int, d: int, long: bool)
    requires 0 <= mp <= 11 && 1 <= d
    requires d <= (if mp == 11 then (if long then 29 else 28)
                   else if mp == 1 || mp == 3 || mp == 6 || mp == 8 then 30 else 31)
    ensures var doy := (153 * mp + 2) / 5 + d - 1;
      0 <= doy <= (if long then 365 else 364)
      && (5 * doy + 2) / 153 == mp && doy - (153 * mp + 2) / 5 + 1 == d
  {
  }

  /** Leap years repeat every 400 years. */
  lemma LeapNext(a: int)
    ensures LeapYear(a + 400) == LeapYear(a)
  {
    assert (a + 400) % 4 == a % 4;
    assert (a + 400) % 100 == a % 100;
    assert (a + 400) % 400 == a % 400;
  }

  lemma {:induction false} LeapEra(a: int, era: int)
    ensures LeapYear(a + 400 * era) == LeapYear(a)
    decreases if era < 0 then -era else era
  {
    if era > 0 {
      LeapEra(a, era - 1);
      LeapNext(a + 400 * (era - 1));
    } else if era < 0 {
      LeapEra(a, era + 1);
      LeapNext(a + 400 * era);
    }
  }

  /** A day number splits into a 400-year era and a day of era. */
  lemma EraSplit(era: int, doe: int)
    requires 0 <= doe < 146097
    ensures (era * 146097 + doe) / 146097 == era && (era * 146097 + doe) % 146097 == doe
  {
  }

  /** `CivilFromDays` of a day given by its era, year of era and day of year. */
  lemma CivilFromEraDay(n: int, era: int, yoe: int, doy: int, mp: int, d: int)
    requires 0 <= yoe <= 399 && 0 <= doy <= 365
    requires 0 <= 365 * yoe + yoe / 4 - yoe / 100 + doy < 146097
    requires YearOfEra(365 * yoe + yoe / 4 - yoe / 100 + doy) == yoe
    requires n == era * 146097 + 365 * yoe + yoe / 4 - yoe / 100 + doy - 719468
    requires mp == (5 * doy + 2) / 153 && d == doy - (153 * mp + 2) / 5 + 1
    ensures CivilFromDays(n) == Civil(yoe + era * 400 + (if mp >= 10 then 1 else 0), if mp < 10 then mp + 3 else mp - 9, d)
  {
    var doe := 365 * yoe + yoe / 4 - yoe / 100 + doy;
    EraSplit(era, doe);
    assert (n + 719468) / 146097 == era && (n + 719468) % 146097 == doe;
  }

  /** A year splits into a 400-year era and a year of era. */
  lemma EraOf(y: int) returns (era: int, yoe: int)
    ensures y == era * 400 + yoe && 0 <= yoe <= 399
    ensures LeapYear(y + 1) == LeapYear(yoe + 1)
  {
    era, yoe := y / 400, y % 400;
    LeapEra(yoe + 1, era);
    assert yoe + 1 + 400 * era == y + 1;
  }

  /** `DaysFromCivil` in terms of the era, the year of era and the March-based month. */
  lemma DaysFromCivilOfEra(y: int, m: int, d: int, era: int, yoe: int)
    requires 1 <= m <= 12
    requires (if m <= 2 then y - 1 else y) == era * 400 + yoe && 0 <= yoe <= 399
    ensures var mp := if m > 2 then m - 3 else m + 9;
      DaysFromCivil(y, m, d) == era * 146097 + 365 * yoe + yoe / 4 - yoe / 100 + ((153 * mp + 2) / 5 + d - 1) - 719468
  {
    var y' := if m <= 2 then y - 1 else y;
    assert y' / 400 == era;
    assert y' - era * 400 == yoe;
  }

  /** A day of year within the year's length lies in the era and reads back its year of era. */
  lemma EraDay(yoe: int, doy: int)
    requires 0 <= yoe <= 399
    requires 0 <= doy <= (if LeapYear(yoe + 1) then 365 else 364)
    ensures 0 <= 365 * yoe + yoe / 4 - yoe / 100 + doy < 146097
    ensures YearOfEra(365 * yoe + yoe / 4 - yoe / 100 + doy) == yoe
  {
    EraYearParts(yoe);
    YearOfEraParts(yoe / 100, (yoe % 100) / 4, yoe % 4, doy);
  }

  /**
   * `CivilFromDays` inverts `DaysFromCivil` on every real calendar date: the
   * year, month and day `getFullYear`, `getMonth` and `getDate` report are the
   * ones the day number was built from.
   */
  lemma CivilRoundTrip(y: int, m: int, d: int)
    requires 1 <= m <= 12 && 1 <= d <= DaysInMonth(y, m)
    ensures CivilFromDays(DaysFromCivil(y, m, d)) == Civil(y, m, d)
  {
    var y' := if m <= 2 then y - 1 else y;
    var era, yoe := EraOf(y');
    var mp := if m > 2 then m - 3 else m + 9;
    MonthOfDayInverse(mp, d, LeapYear(yoe + 1));
    var doy := (153 * mp + 2) / 5 + d - 1;
    EraDay(yoe, doy);
    DaysFromCivilOfEra(y, m, d, era, yoe);
    CivilFromEraDay(DaysFromCivil(y, m, d), era, yoe, doy, mp, d);
  }

  /** `new Date(year, monthIndex, day, hour, minute)`, which normalises an out-of-range month. */
  function MakeInstant(year: int, monthIndex: int, day: int, hour: int, minute: int): Instant {
    DaysFromCivil(year + monthIndex / 12, monthIndex % 12 + 1, day) * MsPerDay
      + hour * MsPerHour + minute * MsPerMinute
  }

  /** With an in-range month index, MakeInstant counts whole days, then hours and minutes. */
  lemma MakeInstantInRange(year: int, monthIndex: int, day: int, hour: int, minute: int)
    requires 0 <= monthIndex < 12
    ensures MakeInstant(year, monthIndex, day, hour, minute)
      == DaysFromCivil(year, monthIndex + 1, day) * MsPerDay + hour * MsPerHour + minute * MsPerMinute
  {
  }

  /** 6 October 2025 is day 20367 after the epoch. */
  lemma October6Days()
    ensures DaysFromCivil(2025, 10, 6) == 20367
  {
    assert 2025 / 400 == 5 && 25 / 4 == 6 && 25 / 100 == 0 && (153 * 7 + 2) / 5 == 214;
  }

  function DayNumber(t: Instant): int {
    t / MsPerDay
  }

  function DateOf(t: Instant): Civil {
    CivilFromDays(DayNumber(t))
  }

  /** `getFullYear()` */
  function FullYear(t: Instant): int {
    DateOf(t).year
  }

  /** `getMonth()`: 0..11 */
  function MonthIndex(t: Instant): (m: nat)
    ensures m < 12
  {
    DateOf(t).month - 1
  }

  /** `getDate()`: 1..31 */
  function DayOfMonth(t: Instant): (d: nat)
    ensures 1 <= d <= 31
  {
    DateOf(t).day
  }

  /** The whole minutes elapsed since local midnight (0..1439). */
  function MinuteOfDay(t: Instant): (m: nat)
    ensures m < 1440
  {
    (t % MsPerDay) / MsPerMinute
  }

  /** `getHours()` */
  function Hours(t: Instant): (h: nat)
    ensures h < 24
  {
    MinuteOfDay(t) / 60
  }

  /** `getMinutes()` */
  function Minutes(t: Instant): (m: nat)
    ensures m < 60
  {
    MinuteOfDay(t) % 60
  }

  /** The clock fields recombine into the minute of the day. */
  lemma ClockFields(t: Instant)
    ensures Hours(t) * 60 + Minutes(t) == MinuteOfDay(t)
  {
  }

  /** One hour later is sixty minutes on, around the clock. */
  lemma NextHourMinute(t: Instant)
    ensures MinuteOfDay(t + MsPerHour) == (MinuteOfDay(t) + 60) % 1440
  {
    var r := t % MsPerDay;
    var r' := (t + MsPerHour) % MsPerDay;
    assert r' == if r + MsPerHour < MsPerDay then r + MsPerHour else r + MsPerHour - MsPerDay;
    assert (r + MsPerHour) / MsPerMinute == r / MsPerMinute + 60;
  }

  /** The first instant of day `n` is midnight of that day. */
  lemma MidnightOfDay(n: int)
    ensures DayNumber(n * MsPerDay) == n && MinuteOfDay(n * MsPerDay) == 0
  {
    var t := n * MsPerDay;
    assert t / MsPerDay == n && t % MsPerDay == 0;
  }

  /** Two instants fall on the same calendar day (year, month and date all agree). */
  predicate SameDay(a: Instant, b: Instant) {
    FullYear(a) == FullYear(b) && MonthIndex(a) == MonthIndex(b) && DayOfMonth(a) == DayOfMonth(b)
  }

  /**
   * An instant built from in-range hour and minute fields reads them back, and
   * lies on the day numbered by its date fields.
   */
  lemma MakeInstantFields(year: int, monthIndex: int, day: int, hour: int, minute: int)
    requires 0 <= hour < 24 && 0 <= minute < 60
    ensures var t := MakeInstant(year, monthIndex, day, hour, minute);
      Hours(t) == hour && Minutes(t) == minute
      && DayNumber(t) == DaysFromCivil(year + monthIndex / 12, monthIndex % 12 + 1, day)
  {
    var n := DaysFromCivil(year + monthIndex / 12, monthIndex % 12 + 1, day);
    var tod := hour * MsPerHour + minute * MsPerMinute;
    assert 0 <= tod < MsPerDay;
    var t := n * MsPerDay + tod;
    assert t / MsPerDay == n && t % MsPerDay == tod;
    assert tod / MsPerMinute == hour * 60 + minute;
  }

  /**
   * `new Date(year, monthIndex, day, hour, minute)` with in-range fields reads
   * back the same year, month and day through `getFullYear`, `getMonth` and
   * `getDate`.
   */
  lemma DateOfMakeInstant(year: int, monthIndex: int, day: int, hour: int, minute: int)
    requires 0 <= monthIndex < 12 && 1 <= day <= DaysInMonth(year, monthIndex + 1)
    requires 0 <= hour < 24 && 0 <= minute < 60
    ensures DateOf(MakeInstant(year, monthIndex, day, hour, minute)) == Civil(year, monthIndex + 1, day)
    ensures FullYear(MakeInstant(year, monthIndex, day, hour, minute)) == year
    ensures MonthIndex(MakeInstant(year, monthIndex, day, hour, minute)) == monthIndex
    ensures DayOfMonth(MakeInstant(year, monthIndex, day, hour, minute)) == day
  {
    var t := MakeInstant(year, monthIndex, day, hour, minute);
    MakeInstantFields(year, monthIndex, day, hour, minute);
    assert year + monthIndex / 12 == year && monthIndex % 12 + 1 == monthIndex + 1;
    assert DayNumber(t) == DaysFromCivil(year, monthIndex + 1, day);
    CivilRoundTrip(year, monthIndex + 1, day);
    assert DateOf(t) == CivilFromDays(DaysFromCivil(year, monthIndex + 1, day));
  }

  /** Instants on the same day number share their calendar fields. */
  lemma SameDayNumber(a: Instant, b: Instant)
    requires DayNumber(a) == DayNumber(b)
    ensures SameDay(a, b)
  {
  }

  /** The English month names `toLocaleDateString('en-US', {month: 'long'})` prints. */
  function MonthName(month: int): string
    requires 1 <= month <= 12
  {
    ["January", "February", "March", "April", "May", "June", "July",
     "August", "September", "October", "November", "December"][month - 1]
  }
}
