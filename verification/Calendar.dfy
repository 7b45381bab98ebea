/** Two closed forms for UTC time against a calendar counted day by day: my_timegm of
    src/RDFValue.cc and difftm of win32/raptor2/src/parsedate.c. */
module Calendar {

  /** The fields of struct tm that matter here. */
  datatype Tm = Tm(year: int, mon: int, mday: int, hour: int, min: int, sec: int, yday: int, isdst: int)

  // ---------- the calendar ----------

  predicate Leap(y: int) {
    y % 4 == 0 && (y % 100 != 0 || y % 400 == 0)
  }

  function YearLength(y: int): int {
    if Leap(y) then 366 else 365
  }

  /** Days in a month; January is 0. */
  function MonthLength(y: int, m: nat): int {
    if m == 1 then if Leap(y) then 29 else 28
    else if m == 3 || m == 5 || m == 8 || m == 10 then 30
    else 31
  }

  /** Days from 1 January 1970 to 1 January of year `y`, year by year. */
  function YearStart(y: int): int
    decreases if y >= 1970 then y - 1970 else 1970 - y
  {
    if y == 1970 then 0
    else if y > 1970 then YearStart(y - 1) + YearLength(y - 1)
    else YearStart(y + 1) - YearLength(y)
  }

  /** Days of the year before month `m`. */
  function MonthStart(y: int, m: nat): int {
    if m == 0 then 0 else MonthStart(y, m - 1) + MonthLength(y, m - 1)
  }

  /** The year and month a record names; months beyond December run into later years. */
  function YearOf(t: Tm): int
    requires t.mon >= 0
  {
    1900 + t.year + t.mon / 12
  }

  function DayNumber(t: Tm): int
    requires t.mon >= 0
  {
    YearStart(YearOf(t)) + MonthStart(YearOf(t), t.mon % 12) + t.mday - 1
  }

  /** Seconds since the epoch, counted through the calendar. */
  function Seconds(t: Tm): int
    requires t.mon >= 0
  {
    ((DayNumber(t) * 24 + t.hour) * 60 + t.min) * 60 + t.sec
  }

  predicate Normalized(t: Tm) {
    && 0 <= t.mon < 12 && 1 <= t.mday <= MonthLength(YearOf(t), t.mon)
    && 0 <= t.hour < 24 && 0 <= t.min < 60 && 0 <= t.sec < 60
  }

  /** The day after, by the rules of the calendar. */
  function Tomorrow(t: Tm): Tm
    requires Normalized(t)
  {
    if t.mday < MonthLength(YearOf(t), t.mon) then t.(mday := t.mday + 1)
    else if t.mon < 11 then t.(mon := t.mon + 1, mday := 1)
    else t.(year := t.year + 1, mon := 0, mday := 1)
  }

  lemma YearSum(y: int)
    ensures MonthStart(y, 12) == YearLength(y)
  {
    MonthClosed(y, 11);
    assert MonthStart(y, 12) == MonthStart(y, 11) + 31;
  }

  /** The count agrees with the calendar: it goes up by one from day to day, and is 0 at the epoch. */
  lemma DayByDay(t: Tm)
    requires Normalized(t)
    ensures DayNumber(Tomorrow(t)) == DayNumber(t) + 1
    ensures YearOf(t) == 1970 && t.mon == 0 && t.mday == 1 ==> DayNumber(t) == 0
  {
    YearSum(YearOf(t));
    assert YearStart(YearOf(t) + 1) == YearStart(YearOf(t)) + YearLength(YearOf(t));
  }

  // ---------- my_timegm ----------

  /** Division of C: towards zero. */
  function Quotient(a: int, b: int): int
    requires b > 0
  {
    if a >= 0 then a / b else -(-a / b)
  }

  const CUMDAYS := [0, 31, 59, 90, 120, 151, 181, 212, 243, 273, 304, 334]

  method MyTimegm(t: Tm) returns (result: int)
    requires t.mon >= 0
    ensures result == Timegm(t)
  {
    var year := 1900 + t.year + t.mon / 12;
    result := (year - 1970) * 365 + CUMDAYS[t.mon % 12];
    result := result + Quotient(year - 1968, 4);
    result := result - Quotient(year - 1900, 100);
    result := result + Quotient(year - 1600, 400);
    if year % 4 == 0 && (year % 100 != 0 || year % 400 == 0) && t.mon % 12 < 2 {
      result := result - 1;
    }
    result := result + t.mday - 1;
    result := result * 24;
    result := result + t.hour;
    result := result * 60;
    result := result + t.min;
    result := result * 60;
    result := result + t.sec;
    if t.isdst == 1 {
      result := result - 3600;
    }
  }

  /** The leap days the formula counts up to and including year `y`. */
  function LeapTerm(y: int): int {
    Quotient(y - 1968, 4) - Quotient(y - 1900, 100) + Quotient(y - 1600, 400)
  }

  function Timegm(t: Tm): int
    requires t.mon >= 0
  {
    var y, m := YearOf(t), t.mon % 12;
    var days := (y - 1970) * 365 + CUMDAYS[m] + LeapTerm(y) - (if Leap(y) && m < 2 then 1 else 0) + t.mday - 1;
    ((days * 24 + t.hour) * 60 + t.min) * 60 + t.sec - (if t.isdst == 1 then 3600 else 0)
  }

  /** The years in which dividing towards zero does not spoil the count of leap days. */
  predicate YearExact(y: int) {
    if y >= 1968 then true
    else if y >= 1900 then y % 4 == 0
    else if y >= 1600 then y % 4 != 0 || y % 100 == 0
    else Leap(y)
  }

  /** The count of leap days with division rounding down. */
  function LeapFloor(y: int): int {
    (y - 1968) / 4 - (y - 1900) / 100 + (y - 1600) / 400
  }

  lemma Towards(a: int, n: int)
    requires n == 4 || n == 100 || n == 400
    ensures Quotient(a, n) == a / n + if a < 0 && a % n != 0 then 1 else 0
  {
    if n == 4 {
    } else if n == 100 {
    } else {
    }
  }

  lemma DivUp(x: int, n: int)
    requires n == 4 || n == 100 || n == 400
    ensures (x + 1) / n - x / n == if (x + 1) % n == 0 then 1 else 0
  {
    if n == 4 {
    } else if n == 100 {
    } else {
    }
  }

  /** The three counts start at multiples of their divisors. */
  lemma Shifted(y: int)
    ensures (y - 1968) / 4 == y / 4 - 492 && (y - 1968) % 4 == y % 4
    ensures (y - 1900) / 100 == y / 100 - 19 && (y - 1900) % 100 == y % 100
    ensures (y - 1600) / 400 == y / 400 - 4 && (y - 1600) % 400 == y % 400
  {
  }

  /** A multiple of 400 is one of 100, and a multiple of 100 is one of 4. */
  lemma Multiples(y: int)
    ensures (y % 400 == 0 ==> y % 100 == 0) && (y % 100 == 0 ==> y % 4 == 0)
  {
  }

  lemma LeapTermExact(y: int)
    ensures LeapTerm(y) == LeapFloor(y) <==> YearExact(y)
  {
    hide Quotient;
    Towards(y - 1968, 4);
    Towards(y - 1900, 100);
    Towards(y - 1600, 400);
    Shifted(y);
    Multiples(y);
  }

  lemma LeapStep(y: int)
    ensures LeapFloor(y + 1) - LeapFloor(y) == if Leap(y + 1) then 1 else 0
  {
    Shifted(y);
    Shifted(y + 1);
    DivUp(y, 4);
    DivUp(y, 100);
    DivUp(y, 400);
    Multiples(y + 1);
  }

  lemma {:induction false} YearClosed(y: int)
    ensures YearStart(y) == (y - 1970) * 365 + LeapFloor(y) - if Leap(y) then 1 else 0
    decreases if y >= 1970 then y - 1970 else 1970 - y
  {
    if y > 1970 {
      YearClosed(y - 1);
      LeapStep(y - 1);
    } else if y < 1970 {
      YearClosed(y + 1);
      LeapStep(y);
    }
  }

  lemma MonthClosed(y: int, m: nat)
    requires m < 12
    ensures MonthStart(y, m) == CUMDAYS[m] + if Leap(y) && m >= 2 then 1 else 0
  {
    assert MonthStart(y, 2) == MonthStart(y, 1) + MonthLength(y, 1) && MonthStart(y, 4) == MonthStart(y, 3) + 30;
    assert MonthStart(y, 6) == MonthStart(y, 5) + 30 && MonthStart(y, 8) == MonthStart(y, 7) + 31;
    assert MonthStart(y, 10) == MonthStart(y, 9) + 31;
  }

  /** The closed form gives the seconds of the calendar exactly in the years of YearExact, whatever
      the day and the time; the DST flag takes an hour off. */
  lemma TimegmExact(t: Tm)
    requires t.mon >= 0
    ensures Timegm(t) == Seconds(t) - (if t.isdst == 1 then 3600 else 0) <==> YearExact(YearOf(t))
  {
    hide LeapTerm, LeapFloor, YearExact, Leap, YearStart, MonthStart;
    YearClosed(YearOf(t));
    MonthClosed(YearOf(t), t.mon % 12);
    LeapTermExact(YearOf(t));
  }

  /** In 1967 every time comes out a day late. */
  lemma LateIn1967(t: Tm)
    requires t.mon >= 0 && YearOf(t) == 1967 && t.isdst != 1
    ensures Timegm(t) == Seconds(t) + 86400
  {
    hide LeapTerm, LeapFloor, YearStart, MonthStart;
    YearClosed(YearOf(t));
    MonthClosed(YearOf(t), t.mon % 12);
    LeapTermOf(YearOf(t));
  }

  lemma LeapTermOf(y: int)
    requires y == 1967
    ensures LeapTerm(y) == LeapFloor(y) + 1
  {
    hide Quotient;
    Towards(y - 1968, 4);
    Towards(y - 1900, 100);
    Towards(y - 1600, 400);
  }

  // ---------- order ----------

  predicate Earlier(a: Tm, b: Tm) {
    if a.year != b.year then a.year < b.year
    else if a.mon != b.mon then a.mon < b.mon
    else if a.mday != b.mday then a.mday < b.mday
    else if a.hour != b.hour then a.hour < b.hour
    else if a.min != b.min then a.min < b.min
    else a.sec < b.sec
  }

  lemma {:induction false} YearsGrow(a: int, b: int)
    requires a <= b
    ensures YearStart(b) >= YearStart(a) + (b - a) * 365 && (a < b ==> YearStart(b) >= YearStart(a) + YearLength(a))
    decreases b - a
  {
    if a < b {
      YearsGrow(a, b - 1);
      assert YearStart(b) == YearStart(b - 1) + YearLength(b - 1);
    }
  }

  lemma {:induction false} MonthsGrow(y: int, m: nat, n: nat)
    requires m < n <= 12
    ensures MonthStart(y, m) >= 0 && MonthStart(y, n) >= MonthStart(y, m) + MonthLength(y, m)
    decreases n - m
  {
    MonthsStart(y, m);
    if m + 1 < n {
      MonthsGrow(y, m, n - 1);
    }
  }

  lemma {:induction false} MonthsStart(y: int, m: nat)
    ensures MonthStart(y, m) >= 0
  {
    if m > 0 {
      MonthsStart(y, m - 1);
    }
  }

  lemma DaysGrow(a: Tm, b: Tm)
    requires Normalized(a) && Normalized(b) && Earlier(a, b)
    ensures DayNumber(a) < DayNumber(b) || (DayNumber(a) == DayNumber(b) && a.mday == b.mday && a.mon == b.mon && a.year == b.year)
  {
    hide YearStart, MonthStart, MonthLength;
    YearSum(YearOf(a));
    MonthsGrow(YearOf(a), a.mon, 12);
    MonthsStart(YearOf(b), b.mon);
    if a.year < b.year {
      YearsGrow(YearOf(a), YearOf(b));
    } else if a.mon < b.mon {
      MonthsGrow(YearOf(a), a.mon, b.mon);
    }
  }

  lemma SecondsIncrease(a: Tm, b: Tm)
    requires Normalized(a) && Normalized(b) && Earlier(a, b)
    ensures Seconds(a) < Seconds(b)
  {
    hide DayNumber, MonthLength;
    DaysGrow(a, b);
  }

  /** From 1968 on, and without DST, the closed form orders times as the calendar does. */
  lemma TimegmIncreases(a: Tm, b: Tm)
    requires Normalized(a) && Normalized(b) && YearOf(a) >= 1968 && YearOf(b) >= 1968 && a.isdst != 1 && b.isdst != 1
    ensures Earlier(a, b) <==> Timegm(a) < Timegm(b)
  {
    hide Timegm, Seconds;
    TimegmExact(a);
    TimegmExact(b);
    if Earlier(a, b) {
      SecondsIncrease(a, b);
    } else if Earlier(b, a) {
      SecondsIncrease(b, a);
    } else {
      SameTime(a, b);
    }
  }

  lemma SameTime(a: Tm, b: Tm)
    requires Normalized(a) && Normalized(b) && !Earlier(a, b) && !Earlier(b, a)
    ensures Seconds(a) == Seconds(b)
  {
  }

  // ---------- difftm ----------

  /** difftm; `>> 2` rounds down. */
  function Difftm(a: Tm, b: Tm): int {
    var (y, z) := (a.year + 1899, b.year + 1899);
    var days := a.yday - b.yday + (y / 4 - z / 4) - (Quotient(y, 100) - Quotient(z, 100))
                + (Quotient(y, 100) / 4 - Quotient(z, 100) / 4) + (y - z) * 365;
    60 * (60 * (24 * days + (a.hour - b.hour)) + (a.min - b.min)) + (a.sec - b.sec)
  }

  /** The day of the year, as the C library fills it in. */
  predicate DayOfYear(t: Tm) {
    0 <= t.mon < 12 && t.yday == MonthStart(YearOf(t), t.mon) + t.mday - 1
  }

  /** The leap days up to year `y`, the year before the one named, and how far rounding its century
      towards zero is off. */
  function LeapsBefore(y: int): int {
    y / 4 - y / 100 + y / 400
  }

  function CenturyError(y: int): int {
    if y < 0 && y % 100 != 0 && (y / 100) % 4 != 3 then -1 else 0
  }

  lemma CenturyRounds(y: int)
    ensures y / 4 - Quotient(y, 100) + Quotient(y, 100) / 4 == LeapsBefore(y) + CenturyError(y)
  {
    var f := y / 100;
    assert f / 4 == y / 400;
    if y < 0 && y % 100 != 0 {
      assert Quotient(y, 100) == f + 1;
    } else {
      assert Quotient(y, 100) == f;
    }
  }

  lemma {:induction false} StartByLeaps(y: int)
    ensures YearStart(y) == (y - 1970) * 365 + LeapsBefore(y - 1) - LeapsBefore(1969)
    decreases if y >= 1970 then y - 1970 else 1970 - y
  {
    if y > 1970 {
      StartByLeaps(y - 1);
      LeapsStep(y - 1);
    } else if y < 1970 {
      StartByLeaps(y + 1);
      LeapsStep(y);
    }
  }

  lemma LeapsStep(y: int)
    ensures LeapsBefore(y) - LeapsBefore(y - 1) == if Leap(y) then 1 else 0
  {
    DivUp(y - 1, 4);
    DivUp(y - 1, 100);
    DivUp(y - 1, 400);
    Multiples(y);
  }

  /** difftm is off by the difference of its century errors. */
  lemma DifftmError(a: Tm, b: Tm)
    requires DayOfYear(a) && DayOfYear(b)
    ensures Difftm(a, b) == Seconds(a) - Seconds(b) + 86400 * (CenturyError(YearOf(a) - 1) - CenturyError(YearOf(b) - 1))
  {
    hide LeapsBefore, YearStart, MonthStart, Quotient, CenturyError;
    StartByLeaps(YearOf(a));
    StartByLeaps(YearOf(b));
    CenturyRounds(YearOf(a) - 1);
    CenturyRounds(YearOf(b) - 1);
  }

  /** difftm gives the seconds between two dates exactly when the errors of their years cancel, so
      always for years from 100 BC on, which is the year -99. */
  lemma DifftmExact(a: Tm, b: Tm)
    requires DayOfYear(a) && DayOfYear(b)
    ensures Difftm(a, b) == Seconds(a) - Seconds(b) <==> CenturyError(YearOf(a) - 1) == CenturyError(YearOf(b) - 1)
    ensures YearOf(a) >= -99 && YearOf(b) >= -99 ==> Difftm(a, b) == Seconds(a) - Seconds(b)
  {
    hide Difftm, Seconds;
    DifftmError(a, b);
  }

  /** How many days the division towards zero puts into a year's count. */
  function TruncationError(y: int): int {
    LeapTerm(y) - LeapFloor(y)
  }

  lemma TimegmError(t: Tm)
    requires t.mon >= 0 && t.isdst != 1
    ensures Timegm(t) == Seconds(t) + 86400 * TruncationError(YearOf(t))
  {
    hide LeapTerm, LeapFloor, Leap, YearStart, MonthStart;
    YearClosed(YearOf(t));
    MonthClosed(YearOf(t), t.mon % 12);
  }

  /** The two closed forms agree on two dates exactly when their rounding errors do, so always on dates
      from 1968 on. */
  lemma FormsAgree(a: Tm, b: Tm)
    requires DayOfYear(a) && DayOfYear(b) && a.isdst != 1 && b.isdst != 1
    ensures Timegm(a) - Timegm(b) == Difftm(a, b) <==>
            TruncationError(YearOf(a)) - TruncationError(YearOf(b)) == CenturyError(YearOf(a) - 1) - CenturyError(YearOf(b) - 1)
    ensures YearOf(a) >= 1968 && YearOf(b) >= 1968 ==> Timegm(a) - Timegm(b) == Difftm(a, b)
  {
    hide Timegm, Difftm, Seconds, LeapTerm, LeapFloor, YearStart, MonthStart;
    TimegmError(a);
    TimegmError(b);
    DifftmError(a, b);
    LeapTermExact(YearOf(a));
    LeapTermExact(YearOf(b));
  }
}
