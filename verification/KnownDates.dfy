// The calendar in numbers: closed forms for its years and months, and dates known from elsewhere.
module KnownDates {
  import opened Arith
  import opened Calendar
  import R = Rtclib
  import T = TimeLib

  // Days before each month of a common year, and of the whole year.
  const STARTS: seq<nat> := [0, 31, 59, 90, 120, 151, 181, 212, 243, 273, 304, 334, 365]

  lemma {:induction false} StartOfMonth(leap: bool, m: nat)
    requires 1 <= m <= 13
    ensures MonthsBetween(leap, 1, m) == STARTS[m - 1] + if leap && m > 2 then 1 else 0
    decreases m
  {
    if m > 1 {
      StartOfMonth(leap, m - 1);
      MonthsAddUp(leap, 1, m - 1, m);
      MonthsStep(leap, m - 1, m);
    }
  }

  // Days before year y: every fourth year has one more, but for the centuries, but for every
  // fourth of these.
  function DaysBefore(y: nat): int {
    365 * y + (y + 3) / 4 - (y + 99) / 100 + (y + 399) / 400
  }

  lemma {:induction false} GregorianInClosedForm(a: nat, b: nat)
    requires a <= b
    ensures DaysBetween(Gregorian, a, b) == DaysBefore(b) - DaysBefore(a)
    decreases b - a
  {
    if a < b {
      GregorianInClosedForm(a, b - 1);
      YearsAddUp(Gregorian, a, b - 1, b);
      YearCounts(b - 1);
    }
  }

  lemma YearCounts(y: nat)
    ensures DaysBefore(y + 1) - DaysBefore(y) == YearLen(Gregorian, y) == DaysBetween(Gregorian, y, y + 1)
  {
    LeapCounts(y);
    MultiplesOf400(y);
    assert DaysBetween(Gregorian, y + 1, y + 1) == 0;
  }

  // The three quotients go up with the years that are multiples of 4, 100 and 400.
  lemma LeapCounts(y: nat)
    ensures (y + 4) / 4 - (y + 3) / 4 == if y % 4 == 0 then 1 else 0
    ensures (y + 100) / 100 - (y + 99) / 100 == if y % 100 == 0 then 1 else 0
    ensures (y + 400) / 400 - (y + 399) / 400 == if y % 400 == 0 then 1 else 0
  {
    NextMod(y + 3, 4);
    NextMod(y + 99, 100);
    NextMod(y + 399, 400);
    AddModulus(y, 4);
    AddModulus(y, 100);
    AddModulus(y, 400);
  }

  lemma MultiplesOf400(y: nat)
    ensures y % 400 == 0 ==> y % 100 == 0
    ensures y % 100 == 0 ==> y % 4 == 0
  {
    if y % 400 == 0 {
      ModOfMultiple(y / 400 * 4, 100);
      assert y == y / 400 * 4 * 100;
    }
    if y % 100 == 0 {
      ModOfMultiple(y / 100 * 25, 4);
      assert y == y / 100 * 25 * 4;
    }
  }

  // 1 January 1970 is a Thursday, and each day has the weekday after the one before it.
  lemma WeekdaysFollow(t: nat)
    ensures T.TmOf(0).wday == 5
    ensures T.TmOf(t + 86400).wday == T.TmOf(t).wday % 7 + 1
    ensures 1 <= T.TmOf(t).wday <= 7
  {
    AddModulus(t, 86400);
    NextMod(t / 86400 + 4, 7);
    SmallMod(4, 7);
  }

  lemma DaysTo(from: nat, y: nat)
    requires from == 1970 && y == 2000
    ensures DaysBetween(Gregorian, from, y) == 10957
  {
    GregorianInClosedForm(from, y);
  }

  lemma LeapDayNumber(r: Rule, from: nat, d: Date)
    requires d.year % 400 == 0 && d.month == 2 && d.day == 29
    ensures d.Valid(r) && Join(r, from, d) == DaysBetween(r, from, d.year) + 59
  {
    StartOfMonth(true, d.month);
    MultiplesOf400(d.year);
  }

  // 29 February 2000, 12:34:56 UTC, by both converters; it is a Tuesday.
  lemma LeapDayOf2000(t: nat)
    requires t == 951827696
    ensures T.TmOf(t) == T.Tm(56, 34, 12, 3, 29, 2, 30)
    ensures R.DateTimeOf(t) == R.DateTime(0, 2, 29, 12, 34, 56)
    ensures R.DayOfTheWeek(R.DateTime(0, 2, 29, 12, 34, 56)) == 2
  {
    LeapDayByTime(t, 1970, Date(2000, 2, 29));
    LeapDayByRtclib(t, 2000, Date(2000, 2, 29));
  }

  lemma LeapDayByTime(t: nat, from: nat, d: Date)
    requires t == 951827696 && from == 1970 && d == Date(2000, 2, 29)
    ensures T.TmOf(t) == T.Tm(56, 34, 12, 3, 29, 2, 30)
  {
    DaysTo(from, d.year);
    LeapDayNumber(Gregorian, from, d);
    SplitJoin(Gregorian, from, d);
    T.TmOfParts(11016, 12, 34, 56);
  }

  lemma LeapDayByRtclib(t: nat, from: nat, d: Date)
    requires t == 951827696 && from == 2000 && d == Date(2000, 2, 29)
    ensures R.DateTimeOf(t) == R.DateTime(0, 2, 29, 12, 34, 56)
    ensures R.DayOfTheWeek(R.DateTime(0, 2, 29, 12, 34, 56)) == 2
  {
    LeapDayNumber(EveryFour, from, d);
    SplitJoin(EveryFour, from, d);
    R.DateTimeOfParts(t, 59, 12, 34, 56);
    R.DaysAreJoin(d.year - 2000, d.month, d.day);
  }

  // 32-bit seconds, in numbers: makeTime is the count of seconds modulo 2^32, and so is unixtime;
  // the constructor takes times before 2000 for times after 2^32.
  lemma SecondsWrap(tm: T.Tm, dt: R.DateTime, t: nat)
    requires tm.Real() && dt.yOff <= 136 && dt.Real(EveryFour) && t < 0x1_0000_0000
    ensures T.SecondsOf(tm) == tm.Total() % 0x1_0000_0000
    ensures var days := Join(EveryFour, 2000, dt.Day());
            R.Unixtime(dt) == (((days * 24 + dt.hh) * 60 + dt.mm) * 60 + dt.ss + 946684800) % 0x1_0000_0000
    ensures R.SecondsOf2000(t) == if t < 946684800 then t + 0x1_0000_0000 - 946684800 else t - 946684800
  {
    T.SecondsOfReal(tm);
    R.DaysAreJoin(dt.yOff, dt.m, dt.d);
    UnixtimeIs(dt, Join(EveryFour, 2000, dt.Day()));
    BackBefore2000(t);
  }

  lemma UnixtimeIs(dt: R.DateTime, days: nat)
    requires dt.m <= 12 && R.Days2000(dt.yOff, dt.m, dt.d) == days
    ensures R.Unixtime(dt) == (((days * 24 + dt.hh) * 60 + dt.mm) * 60 + dt.ss + 946684800) % 0x1_0000_0000
  {
    var s := ((days * 24 + dt.hh) * 60 + dt.mm) * 60 + dt.ss;
    AddMultiple(s % 0x1_0000_0000 + 946684800, s / 0x1_0000_0000, 0x1_0000_0000);
  }

  lemma BackBefore2000(t: nat)
    requires t < 0x1_0000_0000
    ensures R.SecondsOf2000(t) == if t < 946684800 then t + 0x1_0000_0000 - 946684800 else t - 946684800
  {
    if t < 946684800 {
      SmallMod(t + 0x1_0000_0000 - 946684800, 0x1_0000_0000);
    } else {
      AddModulus(t - 946684800, 0x1_0000_0000);
      SmallMod(t - 946684800, 0x1_0000_0000);
    }
  }

  // Month 0 counts as January in both sums.
  lemma MonthZeroIsJanuary(tm: T.Tm, y: nat, d: nat)
    requires tm.month == 0
    ensures T.SecondsOf(tm) == T.SecondsOf(tm.(month := 1))
    ensures R.Days2000(y, 0, d) == R.Days2000(y, 1, d)
  {
  }
}
