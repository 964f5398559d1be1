/**
 * The UTC calendar, twice: as ECMA-262 computes it (section 21.4.1, "Time-related Constants" to "MakeDate") and Date
 * uses it, and as an independent Gregorian calendar that walks from one day to the next.
 */
module Calendar {
  import opened Arithmetic

  const MS_PER_DAY := 86_400_000

  /** January is month 1. */
  datatype Date = Date(year: int, month: int, day: int)

  // ---------------------------------------------------------------- the Gregorian calendar, day by day

  predicate IsLeap(y: int) { y % 4 == 0 && (y % 100 != 0 || y % 400 == 0) }

  function DaysInMonth(y: int, m: int): int {
    if m == 2 then (if IsLeap(y) then 29 else 28)
    else if m == 4 || m == 6 || m == 9 || m == 11 then 30
    else 31
  }

  predicate IsReal(d: Date) { 1 <= d.month <= 12 && 1 <= d.day <= DaysInMonth(d.year, d.month) }

  function Next(d: Date): Date {
    if d.day < DaysInMonth(d.year, d.month) then d.(day := d.day + 1)
    else if d.month < 12 then Date(d.year, d.month + 1, 1)
    else Date(d.year + 1, 1, 1)
  }

  const EPOCH := Date(1970, 1, 1)

  /** n days after a date. */
  function Later(d: Date, n: nat): Date {
    if n == 0 then d else Next(Later(d, n - 1))
  }

  // ---------------------------------------------------------------- ECMA-262

  function DayFromYear(y: int): int {
    365 * (y - 1970) + (y - 1969) / 4 - (y - 1901) / 100 + (y - 1601) / 400
  }

  /** Days of the year before month m; 13 closes the table. */
  function DaysBefore(m: int, leap: bool): int
    requires 1 <= m <= 13
  {
    var l := if leap then 1 else 0;
    if m == 1 then 0 else if m == 2 then 31 else if m == 3 then 59 + l else if m == 4 then 90 + l
    else if m == 5 then 120 + l else if m == 6 then 151 + l else if m == 7 then 181 + l else if m == 8 then 212 + l
    else if m == 9 then 243 + l else if m == 10 then 273 + l else if m == 11 then 304 + l else if m == 12 then 334 + l
    else 365 + l
  }

  /** MakeDay accepts any day number, also one the month does not have. */
  function MakeDay(d: Date): int
    requires 1 <= d.month <= 12
  {
    DayFromYear(d.year) + DaysBefore(d.month, IsLeap(d.year)) + d.day - 1
  }

  lemma YearLength(y: int)
    ensures DayFromYear(y + 1) == DayFromYear(y) + DaysBefore(13, IsLeap(y))
  {
    DivNext(y - 1969, 4);
    DivNext(y - 1901, 100);
    DivNext(y - 1601, 400);
    assert (y - 1968) % 4 == y % 4 && (y - 1900) % 100 == y % 100 && (y - 1600) % 400 == y % 400;
    assert y % 400 == 0 ==> y % 100 == 0;
    assert y % 100 == 0 ==> y % 4 == 0;
  }

  lemma {:induction false} YearsGrow(y: int, z: int)
    requires y < z
    ensures DayFromYear(y) + DaysBefore(13, IsLeap(y)) <= DayFromYear(z)
    decreases z - y
  {
    YearLength(y);
    if y + 1 < z { YearsGrow(y + 1, z); }
  }

  /** YearFromTime: the largest year that starts on or before the day. */
  function YearFromDay(day: int, from: int): (y: int)
    ensures DayFromYear(y) <= day < DayFromYear(y + 1)
    decreases Distance(day, from)
  {
    Nearer(day, from);
    if day < DayFromYear(from) then YearFromDay(day, from - 1)
    else if DayFromYear(from + 1) <= day then YearFromDay(day, from + 1)
    else from
  }

  /** How far a year is from the day's, in days. */
  function Distance(day: int, from: int): nat {
    if DayFromYear(from) <= day then day - DayFromYear(from) else DayFromYear(from) - day + 366
  }

  lemma Nearer(day: int, from: int)
    ensures day < DayFromYear(from) ==> Distance(day, from - 1) < Distance(day, from)
    ensures DayFromYear(from + 1) <= day ==> Distance(day, from + 1) < Distance(day, from)
  {
    YearLength(from);
    YearLength(from - 1);
    hide DayFromYear, IsLeap;
  }

  function MonthOf(dayInYear: int, leap: bool): (m: int)
    requires 0 <= dayInYear < DaysBefore(13, leap)
    ensures 1 <= m <= 12 && DaysBefore(m, leap) <= dayInYear < DaysBefore(m + 1, leap)
  {
    var l := if leap then 1 else 0;
    if dayInYear < 31 then 1 else if dayInYear < 59 + l then 2 else if dayInYear < 90 + l then 3
    else if dayInYear < 120 + l then 4 else if dayInYear < 151 + l then 5 else if dayInYear < 181 + l then 6
    else if dayInYear < 212 + l then 7 else if dayInYear < 243 + l then 8 else if dayInYear < 273 + l then 9
    else if dayInYear < 304 + l then 10 else if dayInYear < 334 + l then 11 else 12
  }

  /** What getUTCFullYear, getUTCMonth and getUTCDate read. */
  function DateOf(day: int): (d: Date)
    ensures IsReal(d) && MakeDay(d) == day
  {
    var y := YearFromDay(day, 1970);
    YearLength(y);
    var r := day - DayFromYear(y);
    var m := MonthOf(r, IsLeap(y));
    Date(y, m, r - DaysBefore(m, IsLeap(y)) + 1)
  }

  // ---------------------------------------------------------------- the two agree

  lemma MonthsGrow(d: Date, e: Date)
    requires IsReal(d) && IsReal(e) && d.year == e.year && MakeDay(d) == MakeDay(e)
    ensures d == e
  {
  }

  /** Day numbers name real dates uniquely. */
  lemma OneDatePerDay(d: Date, e: Date)
    requires IsReal(d) && IsReal(e) && MakeDay(d) == MakeDay(e)
    ensures d == e
  {
    if d.year < e.year { YearsGrow(d.year, e.year); }
    if e.year < d.year { YearsGrow(e.year, d.year); }
    if d.year == e.year { MonthsGrow(d, e); }
  }

  /** The read-back after MakeDay returns the same date exactly for the days the Gregorian calendar has. */
  lemma ReadBackIff(d: Date)
    requires 1 <= d.month <= 12
    ensures DateOf(MakeDay(d)) == d <==> IsReal(d)
  {
    if IsReal(d) { OneDatePerDay(DateOf(MakeDay(d)), d); }
  }

  /** MakeDay counts days: zero at the epoch and one more for each next day. */
  lemma CountsDays(d: Date)
    requires IsReal(d)
    ensures IsReal(Next(d)) && MakeDay(Next(d)) == MakeDay(d) + 1
    ensures MakeDay(EPOCH) == 0
  {
    if d.month == 12 && d.day == 31 { YearLength(d.year); }
  }

  lemma {:induction false} CountsFrom(d: Date, n: nat)
    requires IsReal(d)
    ensures IsReal(Later(d, n)) && MakeDay(Later(d, n)) == MakeDay(d) + n
  {
    if n > 0 {
      CountsFrom(d, n - 1);
      CountsDays(Later(d, n - 1));
    }
  }

  /** The date of a day number is found by walking the Gregorian calendar from the epoch, in either direction. */
  lemma DateOfDay(day: int)
    ensures day >= 0 ==> DateOf(day) == Later(EPOCH, day)
    ensures day < 0 ==> Later(DateOf(day), -day) == EPOCH
  {
    if day >= 0 {
      CountsFrom(EPOCH, day);
      CountsDays(EPOCH);
      OneDatePerDay(DateOf(day), Later(EPOCH, day));
    } else {
      CountsFrom(DateOf(day), -day);
      CountsDays(EPOCH);
      OneDatePerDay(Later(DateOf(day), -day), EPOCH);
    }
  }

  // ---------------------------------------------------------------- time of day

  datatype Clock = Clock(hour: int, minute: int, second: int, ms: int)

  predicate IsClock(c: Clock) { 0 <= c.hour < 24 && 0 <= c.minute < 60 && 0 <= c.second < 60 && 0 <= c.ms < 1000 }

  function MakeTime(c: Clock): int { c.hour * 3_600_000 + c.minute * 60_000 + c.second * 1000 + c.ms }

  function MakeDate(day: int, c: Clock): int { day * MS_PER_DAY + MakeTime(c) }

  function DayOf(t: int): int { t / MS_PER_DAY }

  /** Milliseconds in hours, minutes, seconds and a rest. */
  lemma Digits(r: int)
    requires 0 <= r < MS_PER_DAY
    ensures r / 1000 == r / 60_000 * 60 + r / 1000 % 60 && r / 60_000 == r / 3_600_000 * 60 + r / 60_000 % 60
    ensures r == r / 1000 * 1000 + r % 1000 && 0 <= r / 3_600_000 < 24
  {
  }

  function ClockOf(t: int): (c: Clock)
    ensures IsClock(c) && MakeDate(DayOf(t), c) == t
  {
    var r := t % MS_PER_DAY;
    Digits(r);
    Clock(r / 3_600_000, r / 60_000 % 60, r / 1000 % 60, r % 1000)
  }

  /** Setting and reading back a time within the day changes neither the day nor the time. */
  lemma ClockReadBack(day: int, c: Clock)
    requires IsClock(c)
    ensures DayOf(MakeDate(day, c)) == day && ClockOf(MakeDate(day, c)) == c
  {
    var t := MakeDate(day, c);
    QuotientIs(t, MS_PER_DAY, day, MakeTime(c));
    assert ClockOf(t)
      == Clock(MakeTime(c) / 3_600_000, MakeTime(c) / 60_000 % 60, MakeTime(c) / 1000 % 60, MakeTime(c) % 1000);
  }
}
