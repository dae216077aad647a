/** The pair `_gmtime` and `calc_time_t`: seconds since 1970 into broken-down time and back. */
module Calendar {
  import opened Options
  import Arith

  /** `struct tm`. */
  datatype Tm = Tm(sec: int, min: int, hour: int, mday: int, mon: int, year: int, wday: int, yday: int)

  // ---------------------------------------------------------------- calendars, on values

  /** The leap years of `_gmtime`, counted from 1970. */
  predicate GmLeap(y: nat) { (y + 2) % 4 == 0 }

  predicate GregorianLeap(year: int) { year % 4 == 0 && (year % 100 != 0 || year % 400 == 0) }

  function YearLen(y: nat): nat { if GmLeap(y) then 366 else 365 }

  /** The days of `y` years from 1970, every fourth of them a leap year. */
  function DaysBefore(y: nat): nat { 365 * y + (y + 1) / 4 }

  lemma DaysNext(y: nat)
    ensures DaysBefore(y + 1) == DaysBefore(y) + YearLen(y)
  {
  }

  const MDAYS: seq<nat> := [31, 28, 31, 30, 31, 30, 31, 31, 30, 31, 30, 31]

  function MonthLen(leap: bool, mon: nat): nat
    requires mon < 12
  {
    if leap && mon == 1 then 29 else MDAYS[mon]
  }

  const MONTH_START: seq<nat> := [0, 31, 59, 90, 120, 151, 181, 212, 243, 273, 304, 334, 365]

  /** The days before a month. */
  function MonthStart(leap: bool, mon: nat): nat
    requires mon <= 12
  {
    MONTH_START[mon] + if leap && mon >= 2 then 1 else 0
  }

  lemma MonthNext(leap: bool, mon: nat)
    requires mon < 12
    ensures MonthStart(leap, mon + 1) == MonthStart(leap, mon) + MonthLen(leap, mon)
  {
  }

  const MONTH_SEC: seq<nat> :=
    [0, 2678400, 5097600, 7776000, 10368000, 13046400, 15638400, 18316800, 20995200, 23587200, 26265600, 28857600]

  lemma MonthSecIs(mon: nat)
    requires mon < 12
    ensures MONTH_SEC[mon] == MonthStart(false, mon) * 86400
  {
  }

  // ---------------------------------------------------------------- broken-down time

  predicate InRange(tm: Tm) {
    && 0 <= tm.sec < 60 && 0 <= tm.min < 60 && 0 <= tm.hour < 24 && 0 <= tm.mon < 12 && 70 <= tm.year
    && 1 <= tm.mday <= MonthLen(GmLeap(tm.year - 70), tm.mon)
    && 0 <= tm.wday < 7 && 0 <= tm.yday < YearLen(tm.year - 70)
  }

  /** `tm` is the time `t` in the calendar of `_gmtime`. */
  predicate Denotes(tm: Tm, t: nat) {
    && InRange(tm)
    && tm.yday == MonthStart(GmLeap(tm.year - 70), tm.mon) + tm.mday - 1
    && tm.wday == (t / 86400 + 4) % 7
    && t / 86400 == DaysBefore(tm.year - 70) + tm.yday
    && t % 86400 == 3600 * tm.hour + 60 * tm.min + tm.sec
  }

  lemma YearsApart(y: nat, z: nat)
    requires y < z
    ensures DaysBefore(y) + YearLen(y) <= DaysBefore(z)
  {
  }

  lemma MonthsApart(leap: bool, m: nat, n: nat)
    requires m < n <= 12
    ensures MonthStart(leap, m) + MonthLen(leap, m) <= MonthStart(leap, n)
    decreases n
  {
    if m + 1 < n {
      MonthsApart(leap, m, n - 1);
      MonthNext(leap, n - 1);
    } else {
      MonthNext(leap, m);
    }
  }

  lemma YearAtMost(a: Tm, b: Tm, t: nat)
    requires Denotes(a, t) && Denotes(b, t)
    ensures a.year <= b.year
  {
    YearsApart(b.year - 70, if b.year < a.year then a.year - 70 else b.year - 69);
  }

  lemma MonthAtMost(a: Tm, b: Tm, t: nat)
    requires Denotes(a, t) && Denotes(b, t) && a.year == b.year
    ensures a.mon <= b.mon
  {
    MonthsApart(GmLeap(a.year - 70), b.mon, if b.mon < a.mon then a.mon else b.mon + 1);
  }

  /** A time has one broken-down form. */
  lemma DenotesUnique(a: Tm, b: Tm, t: nat)
    requires Denotes(a, t) && Denotes(b, t)
    ensures a == b
  {
    YearAtMost(a, b, t);
    YearAtMost(b, a, t);
    MonthAtMost(a, b, t);
    MonthAtMost(b, a, t);
    ClockUnique(a.hour, a.min, a.sec, b.hour, b.min, b.sec);
  }

  lemma ClockUnique(h: int, m: int, s: int, h': int, m': int, s': int)
    requires 0 <= m < 60 && 0 <= s < 60 && 0 <= m' < 60 && 0 <= s' < 60
    requires 3600 * h + 60 * m + s == 3600 * h' + 60 * m' + s'
    ensures h == h' && m == m' && s == s'
  {
  }

  /** The day number and the second of the day as `_gmtime` has them: the division of the
      signed time truncates towards zero, and the results are stored as unsigned longs. */
  function DayNumber(t: int): nat { if t >= 0 then U64(t / 86400) else U64(-(-t / 86400)) }

  function DaySecond(t: int): nat { if t >= 0 then t % 86400 else U64(-(-t % 86400)) }

  /** The division of C: quotient and remainder have the sign of the time. */
  predicate Divides(t: int, d: int, s: int) {
    t == 86400 * d + s && -86400 < s < 86400 && (t >= 0 ==> d >= 0 && s >= 0) && (t <= 0 ==> d <= 0 && s <= 0)
  }

  lemma DivisionIs(t: int, d: int, s: int)
    requires -0x8000_0000_0000_0000 <= t < 0x8000_0000_0000_0000 && Divides(t, d, s)
    ensures DayNumber(t) == U64(d) && DaySecond(t) == U64(s)
  {
    if t >= 0 {
      Arith.QuotientIs(t, 86400, d, s);
      Fits64(s);
    } else {
      Arith.QuotientIs(-t, 86400, -d, -s);
    }
  }

  /** The unsigned value is the one of the range that differs by a multiple of its size. */
  lemma WrappedIs(x: int, range: nat) returns (k: int)
    requires range > 0
    ensures x == Wrapped(x, range) + range * k
    decreases if x < 0 then -x else if x < range then 0 else x
  {
    if x < 0 {
      k := WrappedIs(x + range, range);
      k := k - 1;
    } else if x < range {
      k := 0;
    } else {
      k := WrappedIs(x - range, range);
      k := k + 1;
    }
  }

  /** The fields that belong to a day number and a second of the day, in range or not. */
  predicate FieldsOf(tm: Tm, days: nat, secs: nat) {
    && 0 <= tm.mon < 12 && 70 <= tm.year
    && 1 <= tm.mday <= MonthLen(GmLeap(tm.year - 70), tm.mon)
    && 0 <= tm.yday < YearLen(tm.year - 70) && days == DaysBefore(tm.year - 70) + tm.yday
    && tm.yday == MonthStart(GmLeap(tm.year - 70), tm.mon) + tm.mday - 1
    && tm.wday == U64(days + 4) % 7
    && 0 <= tm.sec < 60 && 0 <= tm.min < 60 && secs == 3600 * tm.hour + 60 * tm.min + tm.sec
  }

  /** `_gmtime` for every 64-bit time. */
  method Gmtime(t: int) returns (tm: Tm)
    requires -0x8000_0000_0000_0000 <= t < 0x8000_0000_0000_0000
    ensures FieldsOf(tm, DayNumber(t), DaySecond(t))
    ensures t >= 0 ==> Denotes(tm, t)
    ensures t < 0 ==> tm.year > 0x7FFF_FFFF || tm.hour > 0x7FFF_FFFF
  {
    var days, secs := DayNumber(t), DaySecond(t);
    var wday := U64(days + 4) % 7;
    var year, yday := SplitYears(days);
    var mon, mday := SplitMonths(GmLeap(year), yday);
    tm := Tm(secs % 60, secs / 60 % 60, secs / 60 / 60, mday, mon, year + 70, wday, yday);
    SplitSeconds(secs);
    if t >= 0 {
      FieldsDenote(tm, t);
    } else {
      NegativeFails(tm, t);
    }
  }

  lemma SplitSeconds(secs: nat)
    ensures secs == 3600 * (secs / 60 / 60) + 60 * (secs / 60 % 60) + secs % 60
  {
  }

  /** From 1970 on the fields denote the time. */
  lemma FieldsDenote(tm: Tm, t: nat)
    requires t < 0x8000_0000_0000_0000 && FieldsOf(tm, DayNumber(t), DaySecond(t))
    ensures Denotes(tm, t)
  {
    Fits64(t / 86400);
    Fits64(t / 86400 + 4);
  }

  lemma YearOfDay(tm: Tm, days: nat, secs: nat)
    requires FieldsOf(tm, days, secs) && days > 1_000_000_000_000
    ensures tm.year > 0x7FFF_FFFF
  {
    YearsBelow(if tm.year <= 0x7FFF_FFFF then tm.year - 70 else 0, 0x7FFF_FFFF);
  }

  /** Before 1970 a field leaves the range of an `int`: the year, or in the last day the hour. */
  lemma NegativeFails(tm: Tm, t: int)
    requires -0x8000_0000_0000_0000 <= t < 0 && FieldsOf(tm, DayNumber(t), DaySecond(t))
    ensures tm.year > 0x7FFF_FFFF || tm.hour > 0x7FFF_FFFF
  {
    if t <= -86400 {
      NegativeDay(t);
      YearOfDay(tm, DayNumber(t), DaySecond(t));
    } else {
      NegativeSecond(t);
    }
  }

  lemma NegativeDay(t: int)
    requires -0x8000_0000_0000_0000 <= t <= -86400
    ensures DayNumber(t) > 1_000_000_000_000
  {
    var q := -t / 86400;
    assert 1 <= q <= 0x1_0000_0000_0000;
    Wraps64(q);
  }

  lemma NegativeSecond(t: int)
    requires -86400 < t < 0
    ensures DaySecond(t) > 1_0000_0000_0000_0000
  {
    assert -t % 86400 == -t;
    Wraps64(-t);
  }

  method SplitYears(total: nat) returns (year: nat, yday: nat)
    ensures total == DaysBefore(year) + yday && yday < YearLen(year)
  {
    year, yday := 0, total;
    while true
      invariant total == DaysBefore(year) + yday
      decreases yday
    {
      var t := 365 + if (year + 2) % 4 == 0 then 1 else 0;
      if t > yday {
        break;
      }
      DaysNext(year);
      yday, year := yday - t, year + 1;
    }
  }

  method SplitMonths(leap: bool, yday: nat) returns (mon: nat, mday: nat)
    requires yday < if leap then 366 else 365
    ensures mon < 12 && 1 <= mday <= MonthLen(leap, mon) && yday == MonthStart(leap, mon) + mday - 1
  {
    var days := yday;
    mon := 0;
    while mon < 12
      invariant 0 <= mon <= 12 && yday == MonthStart(leap, mon) + days
    {
      var t := MonthLen(leap, mon);
      if t > days {
        break;
      }
      MonthNext(leap, mon);
      days, mon := days - t, mon + 1;
    }
    mday := days + 1;
  }

  // ---------------------------------------------------------------- the way back

  /** Unsigned arithmetic: the range is gone round until the value fits. */
  function Wrapped(x: int, range: nat): (r: nat)
    requires range > 0
    ensures r < range
    decreases if x < 0 then -x else if x < range then 0 else x
  {
    if x < 0 then Wrapped(x + range, range) else if x < range then x else Wrapped(x - range, range)
  }

  function U32(x: int): nat { Wrapped(x, 0x1_0000_0000) }

  function U64(x: int): nat { Wrapped(x, 0x1_0000_0000_0000_0000) }

  lemma Fits32(x: int)
    requires 0 <= x < 0x1_0000_0000
    ensures U32(x) == x
  {
  }

  lemma Wraps64(x: int)
    requires 0 < x <= 0x1_0000_0000_0000
    ensures U64(-x) == 0x1_0000_0000_0000_0000 - x
  {
    assert Wrapped(-x, 0x1_0000_0000_0000_0000) == Wrapped(-x + 0x1_0000_0000_0000_0000, 0x1_0000_0000_0000_0000);
  }

  lemma Fits64(x: int)
    requires 0 <= x < 0x1_0000_0000_0000_0000
    ensures U64(x) == x
  {
  }

  /** The sum of `calc_time_t`, from the two unsigned years it derives. */
  function Seconds(tm: Tm, year: nat, quarter: nat, civil: nat): int
    requires 0 <= tm.mon < 12
  {
    (year * 365 + quarter) * 86400 + MONTH_SEC[tm.mon]
    + (if tm.mon >= 2 && GregorianLeap(civil) then 86400 else 0)
    + (tm.mday - 1) * 86400 + tm.hour * 3600 + tm.min * 60 + tm.sec
  }

  /** `calc_time_t` in the unsigned arithmetic of the source; None stands for its crash. */
  function CalcTime(tm: Tm): (s: Option<nat>)
    ensures s.None? <==> tm.mon < 0 || tm.mon >= 12
  {
    if tm.mon < 0 || tm.mon >= 12 then None
    else
      var year := U32(tm.year - 70);
      Some(U64(Seconds(tm, year, U32(year + 1) / 4, U32(tm.year + 1900))))
  }

  /** A century that `_gmtime` takes for a leap year and `calc_time_t` does not, after February. */
  predicate Disputed(tm: Tm) {
    tm.mon >= 2 && (tm.year + 1900) % 100 == 0 && (tm.year + 1900) % 400 != 0
  }

  lemma SecondsAre(tm: Tm, t: nat)
    requires Denotes(tm, t)
    ensures var y := tm.year - 70;
            Seconds(tm, y, (y + 1) / 4, tm.year + 1900) == if Disputed(tm) then t - 86400 else t
  {
    MonthSecIs(tm.mon);
    LeapPart(tm);
    DayPart(t);
  }

  lemma DayPart(t: nat)
    ensures t == 86400 * (t / 86400) + t % 86400
  {
  }

  /** The leap day that `_gmtime` counts against the one that `calc_time_t` adds. */
  lemma LeapPart(tm: Tm)
    requires 70 <= tm.year && 0 <= tm.mon < 12
    ensures 86400 * (MonthStart(GmLeap(tm.year - 70), tm.mon) - MonthStart(false, tm.mon))
         == (if tm.mon >= 2 && GregorianLeap(tm.year + 1900) then 86400 else 0) + (if Disputed(tm) then 86400 else 0)
  {
    LeapYears(tm.year - 70);
    MonthShift(GmLeap(tm.year - 70), tm.mon);
  }

  lemma MonthShift(leap: bool, mon: nat)
    requires mon <= 12
    ensures MonthStart(leap, mon) - MonthStart(false, mon) == if leap && mon >= 2 then 1 else 0
  {
  }

  /** Every fourth year is a leap year, or a century that is none. */
  lemma LeapYears(y: nat)
    ensures var year := y + 1970;
            && (GmLeap(y) <==> GregorianLeap(year) || (year % 100 == 0 && year % 400 != 0))
            && !(GregorianLeap(year) && year % 100 == 0 && year % 400 != 0)
  {
    Fourths(y + 1970);
  }

  lemma Fourths(year: nat)
    ensures year % 100 == 0 ==> year % 4 == 0
  {
    if year % 100 == 0 {
      var q := year / 100;
      Arith.QuotientIs(year, 4, 25 * q, 0);
    }
  }

  lemma SecondsFit(tm: Tm, t: nat)
    requires Denotes(tm, t) && tm.year < 0x7FFF_0000
    ensures 0 <= t < 0x1_0000_0000_0000_0000 && (Disputed(tm) ==> t >= 86400)
  {
    assert t == 86400 * (t / 86400) + t % 86400;
  }

  /** The unsigned years are the plain ones. */
  lemma CalcTimeUnfolds(tm: Tm, y: nat)
    requires 0 <= tm.mon < 12 && tm.year == y + 70 && tm.year < 0x7FFF_0000
    ensures CalcTime(tm) == Some(U64(Seconds(tm, y, (y + 1) / 4, tm.year + 1900)))
  {
    Fits32(y);
    Fits32(y + 1);
    Fits32(tm.year + 1900);
  }

  lemma SumFits(s: int, t: nat, disputed: bool)
    requires s == (if disputed then t - 86400 else t) && t < 0x1_0000_0000_0000_0000 && (disputed ==> t >= 86400)
    ensures U64(s) == s
  {
    Fits64(s);
  }

  /** What `calc_time_t` makes of every time that fits a 32-bit year. */
  lemma CalcTimeIs(tm: Tm, t: nat)
    requires Denotes(tm, t) && tm.year < 0x7FFF_0000
    ensures CalcTime(tm) == Some(if Disputed(tm) then t - 86400 else t)
  {
    var y := tm.year - 70;
    CalcTimeUnfolds(tm, y);
    SecondsAre(tm, t);
    SecondsFit(tm, t);
    SumFits(Seconds(tm, y, (y + 1) / 4, tm.year + 1900), t, Disputed(tm));
  }

  /** The round trip holds exactly outside the disputed years. */
  lemma RoundTrip(tm: Tm, t: nat)
    requires Denotes(tm, t) && tm.year < 0x7FFF_0000
    ensures CalcTime(tm) == Some(t) <==> !Disputed(tm)
  {
    CalcTimeIs(tm, t);
  }

  lemma YearBefore2100(tm: Tm, t: nat)
    requires Denotes(tm, t) && t < 4102444800
    ensures tm.year < 200
  {
    var y := tm.year - 70;
    assert t / 86400 < 47482 == DaysBefore(130);
    YearsBelow(130, if y >= 130 then y else 130);
  }

  lemma UndisputedBefore2100(tm: Tm)
    requires 70 <= tm.year < 200
    ensures !Disputed(tm)
  {
  }

  /** In particular up to the year 2100. */
  lemma RoundTripUpTo2100(tm: Tm, t: nat)
    requires Denotes(tm, t) && t < 4102444800
    ensures CalcTime(tm) == Some(t) && tm.year < 200
  {
    YearBefore2100(tm, t);
    UndisputedBefore2100(tm);
    RoundTrip(tm, t);
  }

  lemma YearsBelow(y: nat, z: nat)
    requires y <= z
    ensures DaysBefore(y) <= DaysBefore(z)
  {
  }

  /** March 2100 is the first disputed month. */
  lemma UndisputedBefore(tm: Tm, t: nat)
    requires Denotes(tm, t) && t < 4107628800
    ensures !Disputed(tm) && tm.year <= 200
  {
    Year2100();
    MarchAt60(tm.mon);
    var y := tm.year - 70;
    assert t / 86400 < 47542;
    YearsBelow(131, if y >= 131 then y else 131);
    if tm.year < 200 {
      UndisputedBefore2100(tm);
    }
  }

  lemma MarchAt60(mon: nat)
    requires mon < 12
    ensures mon >= 2 ==> MonthStart(true, mon) >= 60
    ensures DaysBefore(131) == 47848
  {
  }

  /** The first time at which the round trip fails, 1 March 2100 as `_gmtime` has it. */
  lemma RoundTripFails() returns (tm: Tm, t: nat)
    ensures t == 4107628800 && Denotes(tm, t) && CalcTime(tm) == Some(t - 86400)
    ensures forall tm', t': nat :: t' < t && Denotes(tm', t') ==> CalcTime(tm') == Some(t')
  {
    tm, t := DateIn2100(2, 1);
    CalcTimeIs(tm, t);
    forall tm', t': nat | t' < t && Denotes(tm', t')
      ensures CalcTime(tm') == Some(t')
    {
      UndisputedBefore(tm', t');
      RoundTrip(tm', t');
    }
  }

  /** Midnight of a day of February or March 2100, as `_gmtime` has it. */
  lemma DateIn2100(mon: nat, mday: nat) returns (tm: Tm, t: nat)
    requires 1 <= mon <= 2 && 1 <= mday <= 29
    ensures Denotes(tm, t) && tm.year == 200 && tm.mon == mon && tm.mday == mday
    ensures t == 86400 * (47482 + (if mon == 1 then 31 else 60) + mday - 1)
  {
    Year2100();
    var yday := MonthStart(true, mon) + mday - 1;
    var days := 47482 + yday;
    tm, t := Tm(0, 0, 0, mday, mon, 200, (days + 4) % 7, yday), 86400 * days;
  }

  lemma Year2100()
    ensures GmLeap(130) && DaysBefore(130) == 47482 && MonthStart(true, 1) == 31 && MonthStart(true, 2) == 60
    ensures MonthLen(true, 1) == 29 && MonthLen(true, 2) == 31
  {
  }

  // ---------------------------------------------------------------- the civil calendar

  /** Leap days up to the end of a year. */
  function LeapDays(year: int): int { year / 4 - year / 100 + year / 400 }

  /** The days from 1970-01-01 to a date of the Gregorian calendar. */
  function GregorianDays(year: int, mon: nat, mday: int): int
    requires mon < 12
  {
    365 * (year - 1970) + LeapDays(year - 1) - LeapDays(1969) + MonthStart(GregorianLeap(year), mon) + mday - 1
  }

  /** `tm` is the civil date and time at `t`. */
  predicate Civil(tm: Tm, t: nat)
    requires InRange(tm)
  {
    var year := tm.year + 1900;
    && tm.mday <= MonthLen(GregorianLeap(year), tm.mon)
    && t == GregorianDays(year, tm.mon, tm.mday) * 86400 + tm.hour * 3600 + tm.min * 60 + tm.sec
  }

  lemma CenturiesDrift(year: int)
    requires 1970 <= year
    ensures var d := 365 * (year - 1970) + LeapDays(year - 1) - LeapDays(1969);
            (year <= 2100 ==> d == DaysBefore(year - 1970)) && (year > 2100 ==> d < DaysBefore(year - 1970))
  {
    SkippedDays(year - 1);
    QuarterShift(year - 1);
  }

  /** The centuries without a leap day, up to 2099 and from 2100 on. */
  lemma SkippedDays(n: nat)
    ensures 1969 <= n <= 2099 ==> n / 100 - n / 400 == 15
    ensures n >= 2100 ==> n / 100 - n / 400 >= 16
  {
  }

  lemma QuarterShift(n: nat)
    requires n >= 1969
    ensures n / 4 - 492 == (n - 1968) / 4
  {
  }

  lemma CivilBefore(tm: Tm, t: nat)
    requires Denotes(tm, t) && tm.year < 200
    ensures Civil(tm, t) && t < 4107542400
  {
    CenturiesDrift(tm.year + 1900);
    LeapYears(tm.year - 70);
    UndisputedYear(tm.year + 1900);
    YearsApart(tm.year - 70, 130);
    DayPart(t);
  }

  lemma UndisputedYear(year: int)
    requires 1970 <= year < 2100
    ensures !(year % 100 == 0 && year % 400 != 0)
  {
  }

  lemma GregorianBehind(tm: Tm)
    requires InRange(tm) && tm.year > 200
    ensures GregorianDays(tm.year + 1900, tm.mon, tm.mday)
          < DaysBefore(tm.year - 70) + MonthStart(GmLeap(tm.year - 70), tm.mon) + tm.mday - 1
  {
    CenturiesDrift(tm.year + 1900);
    assert GregorianLeap(tm.year + 1900) ==> GmLeap(tm.year - 70);
  }

  lemma CivilAfter(tm: Tm, t: nat)
    requires Denotes(tm, t) && tm.year > 200
    ensures !Civil(tm, t) && t >= 4107542400
  {
    GregorianBehind(tm);
    YearsBelow(131, tm.year - 70);
  }

  lemma CivilIn2100(tm: Tm, t: nat)
    requires Denotes(tm, t) && tm.year == 200
    ensures Civil(tm, t) <==> t < 4107542400
  {
    CenturiesDrift(2100);
    if tm.mon >= 2 {
      MonthsApart(true, 1, tm.mon);
    }
  }

  /** `_gmtime` gives the civil date exactly before March 2100. */
  lemma CivilExactly(tm: Tm, t: nat)
    requires Denotes(tm, t)
    ensures Civil(tm, t) <==> t < 4107542400
  {
    if tm.year < 200 {
      CivilBefore(tm, t);
    } else if tm.year > 200 {
      CivilAfter(tm, t);
    } else {
      CivilIn2100(tm, t);
    }
  }

  /** The first time that `_gmtime` gets wrong: it answers 29 February 2100. */
  lemma CivilFails() returns (tm: Tm, t: nat)
    ensures t == 4107542400 && Denotes(tm, t) && tm.mon == 1 && tm.mday == 29 && !Civil(tm, t) && CalcTime(tm) == Some(t)
  {
    tm, t := DateIn2100(1, 29);
    CalcTimeIs(tm, t);
    CivilExactly(tm, t);
  }
}
