/**
 * Civil (wall-clock) readings and their position on a zone-free timeline.
 *
 * Luxon stores a DateTime as an instant plus a zone and derives the six civil
 * fields from it.  This module supplies the two conversions that underlie
 * that: a proleptic Gregorian day count (days since 1970-01-01) computed from
 * a calendar date, and the date recovered from such a day count.  The formulas
 * are Howard Hinnant's `days_from_civil` / `civil_from_days`, which count years
 * from 1 March so that a leap day is the last day of its year, and group years
 * into 400-year eras of 146097 days.
 */
module CivilTime {

  /** The six civil fields of a Luxon DateTime (month 1-12). */
  datatype Civil = Civil(year: int, month: int, day: int, hour: int, minute: int, second: int)

  /** A calendar date. */
  datatype Date = Date(year: int, month: int, day: int)

  const SecondsPerDay := 86400

  predicate IsLeapYear(y: int) {
    y % 4 == 0 && (y % 100 != 0 || y % 400 == 0)
  }

  function DaysInMonth(y: int, m: int): (n: int)
    requires 1 <= m <= 12
    ensures 28 <= n <= 31
  {
    if m == 2 then (if IsLeapYear(y) then 29 else 28)
    else if m == 4 || m == 6 || m == 9 || m == 11 then 30
    else 31
  }

  predicate ValidDate(d: Date) {
    1 <= d.month <= 12 && 1 <= d.day <= DaysInMonth(d.year, d.month)
  }

  function DateOf(c: Civil): Date {
    Date(c.year, c.month, c.day)
  }

  /** A reading that names an existing calendar day and a time of day. */
  predicate ValidCivil(c: Civil) {
    ValidDate(DateOf(c)) && 0 <= c.hour < 24 && 0 <= c.minute < 60 && 0 <= c.second < 60
  }

  // ---------------------------------------------------------------------------
  // Arithmetic pieces of the day count. A "March year" starts on 1 March, its
  // months are numbered 0 (March) to 11 (February), `yoe` is the year within a
  // 400-year era and `doy`, `doe` are days within the March year and the era.

  /** Month number counted from March. */
  function MarchMonth(m: int): int {
    if m > 2 then m - 3 else m + 9
  }

  /** Day of the March year on which March-month `mp` begins. */
  function MonthStart(mp: int): int {
    (153 * mp + 2) / 5
  }

  /** Day of the era of day `doy` of year `yoe` of that era. */
  function DayOfEra(yoe: int, doy: int): int {
    365 * yoe + yoe / 4 - yoe / 100 + doy
  }

  /** Year of the era in which day `doe` of the era falls. */
  function YearOfEra(doe: int): int {
    (doe - doe / 1460 + doe / 36524 - doe / 146096) / 365
  }

  /** March year `yoe` of an era ends with a leap day. */
  predicate MarchLeap(yoe: int) {
    yoe % 4 == 3 && (yoe % 100 != 99 || yoe == 399)
  }

  function MarchYearLength(yoe: int): int {
    if MarchLeap(yoe) then 366 else 365
  }

  lemma SplitYearOfEra(yoe: int) returns (c: int, q: int, r: int)
    requires 0 <= yoe < 400
    ensures 0 <= c < 4 && 0 <= q < 25 && 0 <= r < 4 && yoe == 100 * c + 4 * q + r
    ensures DayOfEra(yoe, 0) == 36524 * c + 1461 * q + 365 * r
    ensures MarchLeap(yoe) <==> r == 3 && (q < 24 || c == 3)
  {
    c, q, r := yoe / 100, (yoe % 100) / 4, yoe % 4;
    assert yoe / 4 == 25 * c + q;
  }

  lemma YearOfEraOfParts(c: int, q: int, r: int, doy: int)
    requires 0 <= c < 4 && 0 <= q < 25 && 0 <= r < 4 && 0 <= doy
    requires doy < 365 || (doy == 365 && r == 3 && (q < 24 || c == 3))
    ensures YearOfEra(36524 * c + 1461 * q + 365 * r + doy) == 100 * c + 4 * q + r
  {
    var doe := 36524 * c + 1461 * q + 365 * r + doy;
    if doe != 146096 {
      assert doe / 146096 == 0;
      assert doe / 36524 == c;
      var k := if 24 * c + q + 365 * r + doy >= 1460 then 1 else 0;
      assert doe / 1460 == 25 * c + q + k;
    }
  }

  /** Day `doy` of year `yoe` lies in the era and YearOfEra recovers `yoe`. */
  lemma YearOfEraRecovers(yoe: int, doy: int)
    requires 0 <= yoe < 400 && 0 <= doy < MarchYearLength(yoe)
    ensures 0 <= DayOfEra(yoe, doy) < 146097
    ensures YearOfEra(DayOfEra(yoe, doy)) == yoe
  {
    var c, q, r := SplitYearOfEra(yoe);
    YearOfEraOfParts(c, q, r, doy);
  }

  /** Day `doe` of an era, written as a year of the era and a day of that year. */
  lemma DecomposeEraDay(doe: int) returns (yoe: int, doy: int)
    requires 0 <= doe < 146097
    ensures 0 <= yoe < 400 && 0 <= doy < MarchYearLength(yoe) && doe == DayOfEra(yoe, doy)
  {
    var c := if doe < 3 * 36524 then doe / 36524 else 3;
    var rem1 := doe - 36524 * c;
    assert 0 <= c < 4 && 0 <= rem1 && (rem1 < 36524 || (c == 3 && rem1 < 36525));
    var q := if rem1 < 24 * 1461 then rem1 / 1461 else 24;
    var rem2 := rem1 - 1461 * q;
    assert 0 <= q < 25 && 0 <= rem2 && (rem2 < 1461 || (q == 24 && rem2 < 1460 + (if c == 3 then 1 else 0)));
    var r := if rem2 < 3 * 365 then rem2 / 365 else 3;
    doy := rem2 - 365 * r;
    yoe := 100 * c + 4 * q + r;
    var c', q', r' := SplitYearOfEra(yoe);
    assert c' == c && q' == q && r' == r;
  }

  /** Every day of an era is some day of some year of that era. */
  lemma YearOfEraCovers(doe: int)
    requires 0 <= doe < 146097
    ensures 0 <= YearOfEra(doe) < 400
    ensures 0 <= doe - DayOfEra(YearOfEra(doe), 0) < MarchYearLength(YearOfEra(doe))
  {
    var yoe, doy := DecomposeEraDay(doe);
    YearOfEraRecovers(yoe, doy);
  }

  /** The month of day `doy` of a March year, and the day's offset in it. */
  lemma MonthOfDay(doy: int)
    requires 0 <= doy < 366
    ensures 0 <= (5 * doy + 2) / 153 < 12
    ensures MonthStart((5 * doy + 2) / 153) <= doy < MonthStart((5 * doy + 2) / 153 + 1)
  {
  }

  lemma MonthStartRecovers(mp: int, doy: int)
    requires 0 <= mp < 12 && MonthStart(mp) <= doy < MonthStart(mp + 1)
    ensures (5 * doy + 2) / 153 == mp
  {
  }

  /** March-months other than February run to the next month's start. */
  lemma MonthLength(y: int, m: int)
    requires 1 <= m <= 12
    ensures m != 2 ==> MonthStart(MarchMonth(m) + 1) - MonthStart(MarchMonth(m)) == DaysInMonth(y, m)
    ensures MonthStart(11) == 337 && MonthStart(12) == 367
  {
  }

  lemma ModShift4(e: int, w: int)
    ensures (400 * e + w) % 4 == w % 4
  {
    assert 400 * e + w == 4 * (100 * e + w / 4) + w % 4;
  }

  lemma ModShift100(e: int, w: int)
    ensures (400 * e + w) % 100 == w % 100
  {
    assert 400 * e + w == 100 * (4 * e + w / 100) + w % 100;
  }

  lemma ModShift400(e: int, w: int)
    ensures (400 * e + w) % 400 == w % 400
  {
    assert 400 * e + w == 400 * (e + w / 400) + w % 400;
  }

  /** The year after year `yoe` of an era, seen through the leap-year remainders. */
  lemma NextYearOfEra(yoe: int)
    requires 0 <= yoe < 400
    ensures (yoe + 1) % 4 == 0 <==> yoe % 4 == 3
    ensures (yoe + 1) % 100 == 0 <==> yoe % 100 == 99
    ensures (yoe + 1) % 400 == 0 <==> yoe == 399
  {
  }

  /** A March year of an era ends with a leap day exactly when the January year after it is a leap year. */
  lemma MarchLeapIsLeapYear(y0: int)
    ensures MarchLeap(y0 % 400) <==> IsLeapYear(y0 + 1)
  {
    var e, yoe := y0 / 400, y0 % 400;
    assert y0 + 1 == 400 * e + (yoe + 1);
    ModShift4(e, yoe + 1);
    ModShift100(e, yoe + 1);
    ModShift400(e, yoe + 1);
    NextYearOfEra(yoe);
  }

  // ---------------------------------------------------------------------------
  // A date is converted through a March year and a day of that year.

  /** Day `day` (from 0) of the March year that begins on 1 March of `year`. */
  datatype MarchDay = MarchDay(year: int, day: int)

  /** Days in the March year `y0`: 366 when the following February has a 29th. */
  function DaysInMarchYear(y0: int): int {
    if IsLeapYear(y0 + 1) then 366 else 365
  }

  predicate ValidMarchDay(md: MarchDay) {
    0 <= md.day < DaysInMarchYear(md.year)
  }

  /** The March year and day of a calendar date. */
  function MarchDayOf(d: Date): MarchDay {
    MarchDay(if d.month <= 2 then d.year - 1 else d.year, MonthStart(MarchMonth(d.month)) + d.day - 1)
  }

  /** The calendar date of a March year and day. */
  function DateOfMarchDay(md: MarchDay): Date {
    var mp := (5 * md.day + 2) / 153;
    var m := if mp < 10 then mp + 3 else mp - 9;
    Date(md.year + (if m <= 2 then 1 else 0), m, md.day - MonthStart(mp) + 1)
  }

  /** Days from 1970-01-01 to a March year and day. */
  function DaysFromMarchDay(md: MarchDay): int {
    (md.year / 400) * 146097 + DayOfEra(md.year % 400, md.day) - 719468
  }

  /** The March year and day that lie `n` days after 1970-01-01. */
  function MarchDayFromDays(n: int): MarchDay {
    var z := n + 719468;
    var era := z / 146097;
    var doe := z % 146097;
    var yoe := YearOfEra(doe);
    MarchDay(era * 400 + yoe, doe - DayOfEra(yoe, 0))
  }

  lemma {:induction false} MarchDayOfDate(d: Date)
    requires ValidDate(d)
    ensures ValidMarchDay(MarchDayOf(d)) && DateOfMarchDay(MarchDayOf(d)) == d
  {
    var md := MarchDayOf(d);
    MonthLength(d.year, d.month);
    MonthStartRecovers(MarchMonth(d.month), md.day);
  }

  lemma {:induction false} DateOfMarchDayValid(md: MarchDay)
    requires ValidMarchDay(md)
    ensures ValidDate(DateOfMarchDay(md)) && MarchDayOf(DateOfMarchDay(md)) == md
  {
    MonthOfDay(md.day);
    var mp := (5 * md.day + 2) / 153;
    var d := DateOfMarchDay(md);
    assert MarchMonth(d.month) == mp;
    MonthLength(d.year, d.month);
  }

  /** Quotient and remainder by 400 of a number written as `400 * q + r`. */
  lemma DivModOf(a: int, b: int, q: int, r: int)
    requires b == 400 && 0 <= r < 400 && a == 400 * q + r
    ensures a / b == q && a % b == r
  {
  }

  /**
   * Day `doe` of era `era`, in year `yoe` of that era, is a valid March day
   * whose day count is `doe` days after the era's start.
   */
  lemma {:induction false} MarchDayInEra(era: int, yoe: int, doe: int)
    requires 0 <= yoe < 400 && 0 <= doe - DayOfEra(yoe, 0) < MarchYearLength(yoe)
    ensures ValidMarchDay(MarchDay(era * 400 + yoe, doe - DayOfEra(yoe, 0)))
    ensures DaysFromMarchDay(MarchDay(era * 400 + yoe, doe - DayOfEra(yoe, 0))) == era * 146097 + doe - 719468
  {
    DivModOf(era * 400 + yoe, 400, era, yoe);
    MarchLeapIsLeapYear(era * 400 + yoe);
  }

  /** The era, the year of the era and the day of the era that MarchDayFromDays computes. */
  lemma MarchDayFromDaysParts(n: int) returns (era: int, yoe: int, doe: int)
    ensures n + 719468 == era * 146097 + doe && 0 <= doe < 146097 && yoe == YearOfEra(doe)
    ensures MarchDayFromDays(n) == MarchDay(era * 400 + yoe, doe - DayOfEra(yoe, 0))
  {
    era, doe := (n + 719468) / 146097, (n + 719468) % 146097;
    yoe := YearOfEra(doe);
  }

  lemma {:induction false} MarchDayFromDaysCorrect(n: int)
    ensures ValidMarchDay(MarchDayFromDays(n)) && DaysFromMarchDay(MarchDayFromDays(n)) == n
  {
    var era, yoe, doe := MarchDayFromDaysParts(n);
    YearOfEraCovers(doe);
    MarchDayInEra(era, yoe, doe);
  }

  lemma {:induction false} DaysFromMarchDayInverse(md: MarchDay)
    requires ValidMarchDay(md)
    ensures MarchDayFromDays(DaysFromMarchDay(md)) == md
  {
    var era, yoe := md.year / 400, md.year % 400;
    MarchLeapIsLeapYear(md.year);
    YearOfEraRecovers(yoe, md.day);
    var doe := DayOfEra(yoe, md.day);
    assert DaysFromMarchDay(md) + 719468 == era * 146097 + doe;
    var era', yoe', doe' := MarchDayFromDaysParts(DaysFromMarchDay(md));
    assert era' == era && doe' == doe;
  }

  // ---------------------------------------------------------------------------

  /** Days from 1970-01-01 to `d` (negative before it). */
  function DaysFromCivil(d: Date): int {
    DaysFromMarchDay(MarchDayOf(d))
  }

  /** The calendar date that lies `n` days after 1970-01-01. */
  function CivilFromDays(n: int): Date {
    DateOfMarchDay(MarchDayFromDays(n))
  }

  /** The day count of the date CivilFromDays gives back is `n`, and that date exists. */
  lemma {:induction false} CivilFromDaysCorrect(n: int)
    ensures ValidDate(CivilFromDays(n)) && DaysFromCivil(CivilFromDays(n)) == n
  {
    MarchDayFromDaysCorrect(n);
    DateOfMarchDayValid(MarchDayFromDays(n));
  }

  /** Every valid date is recovered from its day count. */
  lemma {:induction false} DaysFromCivilInverse(d: Date)
    requires ValidDate(d)
    ensures CivilFromDays(DaysFromCivil(d)) == d
  {
    MarchDayOfDate(d);
    DaysFromMarchDayInverse(MarchDayOf(d));
  }

  /** Two valid dates with the same day count are the same date. */
  lemma DaysFromCivilInjective(d1: Date, d2: Date)
    requires ValidDate(d1) && ValidDate(d2) && DaysFromCivil(d1) == DaysFromCivil(d2)
    ensures d1 == d2
  {
    DaysFromCivilInverse(d1);
    DaysFromCivilInverse(d2);
  }

  /** Day 0 of the count is 1970-01-01, and 2024-01-01 is day 19723. */
  lemma UnixEpochDay()
    ensures DaysFromCivil(Date(1970, 1, 1)) == 0
    ensures DaysFromCivil(Date(2024, 1, 1)) == 19723
  {
    assert MarchDayOf(Date(1970, 1, 1)) == MarchDay(1969, 306);
    assert 1969 / 400 == 4 && 1969 % 400 == 369 && DayOfEra(369, 306) == 135080;
    assert MarchDayOf(Date(2024, 1, 1)) == MarchDay(2023, 306);
    assert 2023 / 400 == 5 && 2023 % 400 == 23 && DayOfEra(23, 306) == 8706;
  }

  // ---------------------------------------------------------------------------

  /** Seconds from 1970-01-01 00:00:00 to the reading, with no zone involved. */
  function LocalSeconds(c: Civil): int {
    DaysFromCivil(DateOf(c)) * SecondsPerDay + c.hour * 3600 + c.minute * 60 + c.second
  }

  /** Splitting a second of the day into hour, minute and second. */
  lemma TimeOfDaySplit(s: int)
    requires 0 <= s < SecondsPerDay
    ensures 0 <= s / 3600 < 24 && 0 <= (s % 3600) / 60 < 60 && 0 <= s % 60 < 60
    ensures (s / 3600) * 3600 + ((s % 3600) / 60) * 60 + s % 60 == s
  {
  }

  /** The valid reading that lies `t` seconds after 1970-01-01 00:00:00. */
  function CivilFromLocalSeconds(t: int): (c: Civil)
    ensures ValidCivil(c) && LocalSeconds(c) == t
  {
    var n := t / SecondsPerDay;
    var s := t % SecondsPerDay;
    CivilFromDaysCorrect(n);
    TimeOfDaySplit(s);
    var d := CivilFromDays(n);
    var c := Civil(d.year, d.month, d.day, s / 3600, (s % 3600) / 60, s % 60);
    assert DateOf(c) == d;
    c
  }

  /** A day count and a second of that day are recovered from the seconds count. */
  lemma DaySecondSplit(days: int, s: int)
    requires 0 <= s < SecondsPerDay
    ensures (days * SecondsPerDay + s) / SecondsPerDay == days
    ensures (days * SecondsPerDay + s) % SecondsPerDay == s
  {
  }

  /** Hour, minute and second are recovered from the second of the day they give. */
  lemma TimeOfDayJoin(h: int, m: int, s: int)
    requires 0 <= h < 24 && 0 <= m < 60 && 0 <= s < 60
    ensures (h * 3600 + m * 60 + s) / 3600 == h
    ensures ((h * 3600 + m * 60 + s) % 3600) / 60 == m
    ensures (h * 3600 + m * 60 + s) % 60 == s
  {
  }

  /** The seconds count tells valid readings apart. */
  lemma {:induction false} LocalSecondsInjective(c1: Civil, c2: Civil)
    requires ValidCivil(c1) && ValidCivil(c2) && LocalSeconds(c1) == LocalSeconds(c2)
    ensures c1 == c2
  {
    var days1, days2 := DaysFromCivil(DateOf(c1)), DaysFromCivil(DateOf(c2));
    var s1 := c1.hour * 3600 + c1.minute * 60 + c1.second;
    var s2 := c2.hour * 3600 + c2.minute * 60 + c2.second;
    assert LocalSeconds(c1) == days1 * SecondsPerDay + s1;
    assert LocalSeconds(c2) == days2 * SecondsPerDay + s2;
    TimeOfDayJoin(c1.hour, c1.minute, c1.second);
    TimeOfDayJoin(c2.hour, c2.minute, c2.second);
    DaySecondSplit(days1, s1);
    DaySecondSplit(days2, s2);
    DaysFromCivilInjective(DateOf(c1), DateOf(c2));
  }

  /** Every valid reading is recovered from its seconds count `t`. */
  lemma {:induction false} LocalSecondsInverse(c: Civil, t: int)
    requires ValidCivil(c) && t == LocalSeconds(c)
    ensures CivilFromLocalSeconds(t) == c
  {
    LocalSecondsInjective(c, CivilFromLocalSeconds(t));
  }
}
