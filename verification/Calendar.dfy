/**
 The clock (kernel/timer.c): rtc_get_time adds the seconds since boot to a start time kept in
 globals and normalises the fields; sys_settime sets the start time so that the clock shows the
 time given.

 Fields are C ints: sums with the 64-bit second counter are cut to 32 bits, as Int32 says.  Years
 are taken as unbounded.
 */
module Calendar {

  const INT_LIMIT: int := 0x8000_0000
  const DAY: nat := 86400

  datatype Time = Time(year: int, month: int, day: int, hour: int, min: int, sec: int)

  function Int32(x: int): (r: int)
    ensures -INT_LIMIT <= r < INT_LIMIT
  {
    (x + INT_LIMIT) % (2 * INT_LIMIT) - INT_LIMIT
  }

  /** is_leap_year. */
  predicate Leap(year: int) {
    year % 4 == 0 && (year % 100 != 0 || year % 400 == 0)
  }

  /** days_in_month, indexed from 1. */
  const DAYS: seq<nat> := [0, 31, 28, 31, 30, 31, 30, 31, 31, 30, 31, 30, 31]

  function MonthDays(year: int, month: int): (r: nat)
    requires 1 <= month <= 12
    ensures 28 <= r <= 31
  {
    DAYS[month] + if month == 2 && Leap(year) then 1 else 0
  }

  // ---------------------------------------------------------------- a linear count of seconds

  /** Days of the proleptic Gregorian calendar before the first of January of a year. */
  function YearStart(year: int): int {
    365 * year + (year - 1) / 4 - (year - 1) / 100 + (year - 1) / 400
  }

  /** Days of a year before the first of a month: from March on the months follow a line, 153 days in five. */
  function MonthStart(year: int, month: int): int
    requires 1 <= month <= 13
  {
    if month <= 2 then 31 * (month - 1) else (153 * (month - 3) + 2) / 5 + 59 + if Leap(year) then 1 else 0
  }

  function DayNumber(year: int, month: int, day: int): int
    requires 1 <= month <= 12
  {
    YearStart(year) + MonthStart(year, month) + day
  }

  function Seconds(t: Time): int
    requires 1 <= t.month <= 12
  {
    DAY * DayNumber(t.year, t.month, t.day) + 3600 * t.hour + 60 * t.min + t.sec
  }

  /** A day that lies before the first of the next month. */
  predicate ValidDate(t: Time) {
    && 1 <= t.month <= 12 && 1 <= t.day <= MonthStart(t.year, t.month + 1) - MonthStart(t.year, t.month)
    && 0 <= t.hour < 24 && 0 <= t.min < 60 && 0 <= t.sec < 60
  }

  lemma YearLength(year: int)
    ensures YearStart(year + 1) == YearStart(year) + if Leap(year) then 366 else 365
  {
    Carry4(year);
    Carry100(year);
    Carry400(year);
    Multiples(year);
  }

  lemma Carry4(y: int)
    ensures y / 4 == (y - 1) / 4 + if y % 4 == 0 then 1 else 0
  {
  }

  lemma Carry100(y: int)
    ensures y / 100 == (y - 1) / 100 + if y % 100 == 0 then 1 else 0
  {
  }

  lemma Carry400(y: int)
    ensures y / 400 == (y - 1) / 400 + if y % 400 == 0 then 1 else 0
  {
  }

  lemma Multiples(y: int)
    ensures (y % 100 == 0 ==> y % 4 == 0) && (y % 400 == 0 ==> y % 100 == 0)
  {
    assert y % 100 == 0 ==> y == 4 * (25 * (y / 100));
    assert y % 400 == 0 ==> y == 100 * (4 * (y / 400));
  }

  /** The table of the source has the months of that line, and February. */
  lemma MonthLength(year: int, month: int)
    requires 1 <= month <= 12
    ensures MonthStart(year, month + 1) == MonthStart(year, month) + MonthDays(year, month)
  {
    assert month == 1 || month == 2 || month == 3 || month == 4 || month == 5 || month == 6
      || month == 7 || month == 8 || month == 9 || month == 10 || month == 11 || month == 12;
  }

  /** The step of the month loop: a month's days are exchanged for the next month. */
  lemma NextMonth(year: int, month: int, day: int)
    requires 1 <= month <= 12
    ensures var d := day - MonthDays(year, month);
      DayNumber(year, month, day) == if month < 12 then DayNumber(year, month + 1, d) else DayNumber(year + 1, 1, d)
  {
    MonthLength(year, month);
    if month == 12 {
      YearLength(year);
    }
  }

  /** Two valid dates are the same if they are the same number of seconds. */
  lemma {:induction false} DayUnique(y: int, m: int, d: int, y': int, m': int, d': int)
    requires 1 <= m <= 12 && 1 <= d <= MonthStart(y, m + 1) - MonthStart(y, m)
    requires 1 <= m' <= 12 && 1 <= d' <= MonthStart(y', m' + 1) - MonthStart(y', m')
    requires DayNumber(y, m, d) == DayNumber(y', m', d')
    ensures y == y' && m == m' && d == d'
  {
    Within(y, m, d);
    Within(y', m', d');
    if y < y' {
      YearsApart(y, y');
    } else if y' < y {
      YearsApart(y', y);
    } else if m < m' {
      MonthsApart(y, m, m');
    } else if m' < m {
      MonthsApart(y, m', m);
    }
  }

  lemma {:induction false} YearsApart(y: int, y': int)
    requires y < y'
    ensures YearStart(y + 1) <= YearStart(y')
    decreases y' - y
  {
    if y + 1 < y' {
      YearsApart(y, y' - 1);
      YearLength(y' - 1);
    }
  }

  lemma {:induction false} MonthsApart(y: int, m: int, m': int)
    requires 1 <= m < m' <= 13
    ensures MonthStart(y, m + 1) <= MonthStart(y, m')
    decreases m' - m
  {
    if m + 1 < m' {
      MonthsApart(y, m, m' - 1);
      MonthLength(y, m' - 1);
    }
  }

  lemma Within(y: int, m: int, d: int)
    requires 1 <= m <= 12 && 1 <= d <= MonthStart(y, m + 1) - MonthStart(y, m)
    ensures YearStart(y) < DayNumber(y, m, d) <= YearStart(y + 1)
  {
    YearLength(y);
    MonthsApart(y, m, 13);
    if m > 1 {
      MonthsApart(y, 1, m);
    }
  }

  /** Valid times are equal when their seconds are. */
  lemma TimeUnique(t: Time, u: Time)
    requires ValidDate(t) && ValidDate(u) && Seconds(t) == Seconds(u)
    ensures t == u
  {
    hide DayNumber;
    DayUnique(t.year, t.month, t.day, u.year, u.month, u.day);
  }

  // ---------------------------------------------------------------- the clock

  /** Fields the normalising loops can start from: everything but the seconds not negative, a real month. */
  predicate Startable(t: Time) {
    1 <= t.month <= 12 && t.day >= 1 && t.hour >= 0 && t.min >= 0
  }

  /** The loops over seconds, minutes and hours of rtc_get_time. */
  method CarryClock(t0: Time) returns (t: Time)
    requires Startable(t0)
    ensures Startable(t) && Seconds(t) == Seconds(t0) && t.sec < 60 && t.min < 60 && t.hour < 24
    ensures t0.sec >= 0 ==> t.sec >= 0
    ensures t0.sec < 0 ==> t.sec == t0.sec
  {
    hide DayNumber;
    t := t0;
    while t.sec >= 60
      invariant Startable(t) && Seconds(t) == Seconds(t0) && (t0.sec >= 0 ==> t.sec >= 0)
      invariant t0.sec < 0 ==> t.sec == t0.sec
      decreases t.sec
    {
      t := t.(sec := t.sec - 60, min := t.min + 1);
    }
    while t.min >= 60
      invariant Startable(t) && Seconds(t) == Seconds(t0) && t.sec < 60 && (t0.sec >= 0 ==> t.sec >= 0)
      invariant t0.sec < 0 ==> t.sec == t0.sec
      decreases t.min
    {
      t := t.(min := t.min - 60, hour := t.hour + 1);
    }
    while t.hour >= 24
      invariant Startable(t) && Seconds(t) == Seconds(t0) && t.sec < 60 && t.min < 60
      invariant (t0.sec >= 0 ==> t.sec >= 0) && (t0.sec < 0 ==> t.sec == t0.sec)
      decreases t.hour
    {
      DayCarry(t);
      t := t.(hour := t.hour - 24, day := t.day + 1);
    }
  }

  lemma DayCarry(t: Time)
    requires 1 <= t.month <= 12
    ensures Seconds(t.(hour := t.hour - 24, day := t.day + 1)) == Seconds(t)
  {
  }

  /** The loop over months and years of rtc_get_time. */
  method CarryCalendar(t0: Time) returns (t: Time)
    requires Startable(t0)
    ensures Startable(t) && Seconds(t) == Seconds(t0)
    ensures t.day <= MonthStart(t.year, t.month + 1) - MonthStart(t.year, t.month)
    ensures t.hour == t0.hour && t.min == t0.min && t.sec == t0.sec
  {
    hide DayNumber, MonthDays, MonthStart;
    t := t0;
    while true
      invariant Startable(t) && Seconds(t) == Seconds(t0) && t.hour == t0.hour && t.min == t0.min && t.sec == t0.sec
      decreases t.day
    {
      var days := MonthDays(t.year, t.month);
      if t.day <= days {
        MonthLength(t.year, t.month);
        break;
      }
      NextMonth(t.year, t.month, t.day);
      t := if t.month + 1 > 12 then t.(day := t.day - days, month := 1, year := t.year + 1)
           else t.(day := t.day - days, month := t.month + 1);
    }
  }

  class Clock {
    /** The globals system_start_*. */
    var start: Time

    constructor (start: Time)
      requires Startable(start)
      ensures this.start == start
    {
      this.start := start;
    }

    /**
     rtc_get_time at second `now` since boot: the seconds of the start and the seconds elapsed, cut to
     an int, are all in the answer, which is a calendar date exactly when that int is not negative.
     */
    method GetTime(now: nat) returns (t: Time)
      requires Startable(start)
      ensures 1 <= t.month <= 12 && Seconds(t) == Seconds(start.(sec := Int32(start.sec + now)))
      ensures ValidDate(t) <==> Int32(start.sec + now) >= 0
    {
      hide DayNumber, MonthStart, Int32;
      t := CarryClock(start.(sec := Int32(start.sec + now)));
      t := CarryCalendar(t);
    }

    /** sys_settime: the checks are those of the source, which takes day 31 in every month. */
    method SetTime(t: Time, now: nat) returns (r: int)
      requires Startable(start)
      modifies this
      ensures Startable(start) && (r == 0 <==> Accepted(t)) && (r == -1 <==> !Accepted(t))
      ensures start == if r == 0 then t.(sec := Int32(t.sec - now)) else old(start)
    {
      if t.month < 1 || t.month > 12 || t.day < 1 || t.day > 31 || t.hour < 0 || t.hour > 23 ||
         t.min < 0 || t.min > 59 || t.sec < 0 || t.sec > 59 {
        return -1;
      }
      start := t.(sec := Int32(t.sec - now));
      return 0;
    }

    /**
     Setting the clock and reading it k seconds later gives the date k seconds after the one set,
     exactly as long as the seconds fit an int.
     */
    method SetThenGet(t: Time, now: nat, k: nat) returns (u: Time)
      requires Startable(start) && Accepted(t)
      modifies this
      ensures 1 <= u.month <= 12 && (ValidDate(u) && Seconds(u) == Seconds(t) + k <==> t.sec + k < INT_LIMIT)
      ensures k == 0 && ValidDate(t) ==> u == t
    {
      hide Seconds, MonthStart, Int32;
      var r := SetTime(t, now);
      Int32Sum(t.sec - now, now + k);
      u := GetTime(now + k);
      Int32Small(t.sec + k);
      SecondsOf(t, t.sec + k);
      SecondsOf(t, Int32(t.sec + k));
      if k == 0 && ValidDate(t) {
        TimeUnique(u, t);
      }
    }
  }

  predicate Accepted(t: Time) {
    1 <= t.month <= 12 && 1 <= t.day <= 31 && 0 <= t.hour < 24 && 0 <= t.min < 60 && 0 <= t.sec < 60
  }

  /** Cutting to an int early or late is the same. */
  lemma Int32Sum(x: int, y: int)
    ensures Int32(Int32(x) + y) == Int32(x + y)
  {
    var w := 2 * INT_LIMIT;
    var q := (x + INT_LIMIT) / w;
    assert Int32(x) == x - q * w;
    Shift(x + y + INT_LIMIT, q);
  }

  lemma Shift(x: int, q: int)
    ensures (x - q * (2 * INT_LIMIT)) % (2 * INT_LIMIT) == x % (2 * INT_LIMIT)
  {
    var w := 2 * INT_LIMIT;
    var a, b := x / w, (x - q * w) / w;
    assert x % w == x - a * w && (x - q * w) % w == x - q * w - b * w;
  }

  /** The cut takes off a multiple of two to the 32. */
  lemma Int32Congruent(x: int)
    ensures (x - Int32(x)) % 0x1_0000_0000 == 0
  {
    var w := 2 * INT_LIMIT;
    assert x - Int32(x) == (x + INT_LIMIT) / w * w;
  }

  lemma Int32Small(x: nat)
    ensures Int32(x) == x <==> x < INT_LIMIT
  {
  }

  lemma SecondsOf(t: Time, s: int)
    requires 1 <= t.month <= 12
    ensures Seconds(t.(sec := s)) == Seconds(t) - t.sec + s
  {
  }

  /** The 31st of February is taken, and shows as the second or third of March. */
  lemma FebruaryOverflows(year: int, h: nat, m: nat, s: nat)
    requires h < 24 && m < 60 && s < 60
    ensures Accepted(Time(year, 2, 31, h, m, s))
    ensures Seconds(Time(year, 2, 31, h, m, s)) == Seconds(Time(year, 3, if Leap(year) then 2 else 3, h, m, s))
  {
    NextMonth(year, 2, 31);
  }
}
