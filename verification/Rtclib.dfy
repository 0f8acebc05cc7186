// RTClib's DateTime: seconds since 1970 to date and time of day, and back.
module Rtclib {
  import opened Arith
  import opened Calendar

  const SECONDS_FROM_1970_TO_2000: nat := 946684800

  const WORD: nat := 0x1_0000_0000

  // January to November, as the library's table has them
  const DAYS_IN_MONTH: seq<nat> := [31, 28, 31, 30, 31, 30, 31, 31, 30, 31, 30]

  datatype DateTime = DateTime(yOff: nat, m: nat, d: nat, hh: nat, mm: nat, ss: nat) {
    function Day(): Date {
      Date(2000 + yOff, m, d)
    }

    // The fields are a date and a time of day.
    predicate Real(r: Rule) {
      Day().Valid(r) && hh < 24 && mm < 60 && ss < 60
    }

    predicate Bytes() {
      yOff < 256 && m < 256 && d < 256 && hh < 256 && mm < 256 && ss < 256
    }
  }

  lemma TableIsCalendar(m: nat)
    requires 1 <= m <= 11
    ensures DAYS_IN_MONTH[m - 1] == MonthLen(false, m)
  {
  }

  // ---------------------------------------------------------------- from seconds

  function SecondsOf2000(t: nat): nat
    requires t < WORD
  {
    (t + WORD - SECONDS_FROM_1970_TO_2000) % WORD
  }

  function DateTimeOf(t: nat): DateTime
    requires t < WORD
  {
    var s := SecondsOf2000(t);
    JoinSplit(EveryFour, 2000, s / 86400);
    var date := Split(EveryFour, 2000, s / 86400);
    DateTime(date.year - 2000, date.month, date.day, s / 3600 % 24, s / 60 % 60, s % 60)
  }

  // The constructor, with its two loops over years and months.
  method FromUnix(t0: nat) returns (dt: DateTime)
    requires t0 < WORD
    ensures dt == DateTimeOf(t0)
  {
    ghost var s := SecondsOf2000(t0);
    Quotients(s);
    JoinSplit(EveryFour, 2000, s / 86400);
    var t := (t0 + WORD - SECONDS_FROM_1970_TO_2000) % WORD;
    var ss := t % 60;
    t := t / 60;
    var mm := t % 60;
    t := t / 60;
    var hh := t % 24;
    assert t / 24 == s / 86400 < 0x1_0000;
    var yOff, m, d := YearMonthDay(t / 24);
    dt := DateTime(yOff, m, d, hh, mm, ss);
  }

  method YearMonthDay(days0: nat) returns (yOff: nat, m: nat, d: nat)
    requires days0 < 0x1_0000
    ensures Date(2000 + yOff, m, d) == Split(EveryFour, 2000, days0)
    ensures yOff < 256
  {
    var days, leap;
    yOff, days, leap := YearOfDays(days0);
    m, d := MonthOfDays(leap, days, 1);
    d := d + 1;
  }

  method YearOfDays(days0: nat) returns (yOff: nat, days: nat, leap: nat)
    requires days0 < 0x1_0000
    ensures (2000 + yOff, days) == SplitYear(EveryFour, 2000, days0)
    ensures yOff < 256 && leap == if Leap(EveryFour, 2000 + yOff) then 1 else 0
  {
    days := days0;
    yOff := 0;
    leap := 1;
    while days >= 365 + leap
      invariant leap == if yOff % 4 == 0 then 1 else 0
      invariant SplitYear(EveryFour, 2000 + yOff, days) == SplitYear(EveryFour, 2000, days0)
      invariant 365 * yOff + days <= days0
      decreases days
    {
      days := days - (365 + leap);
      yOff := yOff + 1;
      leap := if yOff % 4 == 0 then 1 else 0;
    }
  }

  method MonthOfDays(leap: nat, days0: nat, ghost first: nat) returns (m: nat, days: nat)
    requires leap <= 1 && first == 1
    ensures (m, days) == SplitMonth(leap == 1, first, days0)
  {
    days := days0;
    m := 1;
    while m < 12
      invariant 1 <= m <= 12
      invariant SplitMonth(leap == 1, m, days) == SplitMonth(leap == 1, first, days0)
    {
      var daysPerMonth := DaysPerMonth(leap, m);
      if days < daysPerMonth {
        break;
      }
      days := days - daysPerMonth;
      m := m + 1;
    }
  }

  method DaysPerMonth(leap: nat, m: nat) returns (daysPerMonth: nat)
    requires leap <= 1 && 1 <= m <= 11
    ensures daysPerMonth == MonthLen(leap == 1, m)
  {
    daysPerMonth := DAYS_IN_MONTH[m - 1];
    if leap == 1 && m == 2 {
      daysPerMonth := daysPerMonth + 1;
    }
  }

  // ---------------------------------------------------------------- to seconds

  // days of a common year before month m; none before month 0
  function CommonDays(m: nat): nat
    requires m <= 12
  {
    if m == 0 then 0 else MonthsBetween(false, 1, m)
  }

  function Days2000(y: nat, m: nat, d: nat): nat
    requires m <= 12
  {
    (d + CommonDays(m) + (if m > 2 && y % 4 == 0 then 1 else 0) + 365 * y + (y + 3) / 4 + 0xFFFF) % 0x1_0000
  }

  method Date2Days(y0: nat, m: nat, d: nat) returns (r: nat)
    requires y0 < 0x1_0000 && m <= 12 && d < 256
    ensures r == Days2000(if y0 >= 2000 then y0 - 2000 else y0, m, d)
  {
    var y := if y0 >= 2000 then y0 - 2000 else y0;
    var days := d;
    var i := 1;
    while i < m
      invariant 1 <= i && (m >= 1 ==> i <= m)
      invariant m >= 1 ==> days + MonthsBetween(false, i, m) == d + MonthsBetween(false, 1, m)
      invariant m == 0 ==> days == d
    {
      TableIsCalendar(i);
      days := days + DAYS_IN_MONTH[i - 1];
      i := i + 1;
    }
    if m > 2 && y % 4 == 0 {
      days := days + 1;
    }
    r := (days + 365 * y + (y + 3) / 4 + 0xFFFF) % 0x1_0000;
  }

  function Time2Ulong(days: nat, h: nat, m: nat, s: nat): nat {
    (((days * 24 + h) * 60 + m) * 60 + s) % WORD
  }

  function Unixtime(dt: DateTime): nat
    requires dt.m <= 12
  {
    (Time2Ulong(Days2000(dt.yOff, dt.m, dt.d), dt.hh, dt.mm, dt.ss) + SECONDS_FROM_1970_TO_2000) % WORD
  }

  function DayOfTheWeek(dt: DateTime): nat
    requires dt.m <= 12
  {
    (Days2000(dt.yOff, dt.m, dt.d) + 6) % 7
  }

  method UnixtimeOf(dt: DateTime) returns (t: nat)
    requires dt.Bytes() && dt.m <= 12
    ensures t == Unixtime(dt) && t < WORD
  {
    var days := Date2Days(dt.yOff, dt.m, dt.d);
    t := (Time2Ulong(days, dt.hh, dt.mm, dt.ss) + SECONDS_FROM_1970_TO_2000) % WORD;
  }

  method IsValid(dt: DateTime) returns (ok: bool)
    requires dt.Bytes() && dt.m <= 12
    ensures ok <==> dt.yOff < 100 && dt.Real(Gregorian)
  {
    IsValidExactly(dt);
    if dt.yOff >= 100 {
      return false;
    }
    var t := UnixtimeOf(dt);
    var other := FromUnix(t);
    ok := dt.yOff == other.yOff && dt.m == other.m && dt.d == other.d
      && dt.hh == other.hh && dt.mm == other.mm && dt.ss == other.ss;
    assert ok <==> other == dt;
  }

  predicate Less(a: DateTime, b: DateTime) {
    || a.yOff < b.yOff
    || (a.yOff == b.yOff && (|| a.m < b.m
                             || (a.m == b.m && (|| a.d < b.d
                                                || (a.d == b.d && (|| a.hh < b.hh
                                                                   || (a.hh == b.hh && (|| a.mm < b.mm
                                                                                        || (a.mm == b.mm && a.ss < b.ss)))))))))
  }

  // ---------------------------------------------------------------- the day number formula

  lemma {:induction false} YearsInClosedForm(y: nat)
    ensures DaysBetween(EveryFour, 2000, 2000 + y) == 365 * y + (y + 3) / 4
  {
    if y > 0 {
      YearsInClosedForm(y - 1);
      YearsAddUp(EveryFour, 2000, 2000 + y - 1, 2000 + y);
    }
  }

  lemma {:induction false} LeapDayAfterFebruary(leap: bool, a: nat, m: nat)
    requires 1 <= a <= m <= 12
    ensures MonthsBetween(leap, a, m) == MonthsBetween(false, a, m) + if leap && a <= 2 < m then 1 else 0
    decreases m - a
  {
    if a < m {
      LeapDayAfterFebruary(leap, a + 1, m);
    }
  }

  // On real dates up to 2136 the formula is the day number.
  lemma DaysAreJoin(y: nat, m: nat, d: nat)
    requires y <= 136 && Date(2000 + y, m, d).Valid(EveryFour)
    ensures Days2000(y, m, d) == Join(EveryFour, 2000, Date(2000 + y, m, d)) < 0xFFFF
  {
    YearsInClosedForm(y);
    LeapDayAfterFebruary(Leap(EveryFour, 2000 + y), 1, m);
    YearDayBound(Leap(EveryFour, 2000 + y), Date(2000 + y, m, d));
  }

  lemma YearsOfWord(n: nat)
    requires n <= 49710
    ensures 2000 <= Split(EveryFour, 2000, n).year <= 2136
  {
    JoinSplit(EveryFour, 2000, n);
    var y := Split(EveryFour, 2000, n).year;
    YearsInClosedForm(y - 2000);
  }

  // The fields are always real, and their day number is that of the seconds.
  lemma FieldsAreReal(t: nat)
    requires t < WORD
    ensures DateTimeOf(t).Real(EveryFour) && DateTimeOf(t).yOff <= 136
    ensures Days2000(DateTimeOf(t).yOff, DateTimeOf(t).m, DateTimeOf(t).d) == SecondsOf2000(t) / 86400
  {
    var n := SecondsOf2000(t) / 86400;
    YearsOfWord(n);
    JoinSplit(EveryFour, 2000, n);
    var d := Split(EveryFour, 2000, n);
    DaysAreJoin(d.year - 2000, d.month, d.day);
  }

  // Every 32-bit time comes back from its date and time of day.
  lemma UnixRoundTrip(t: nat)
    requires t < WORD
    ensures DateTimeOf(t).Real(EveryFour) && DateTimeOf(t).Bytes()
    ensures Unixtime(DateTimeOf(t)) == t
  {
    FieldsAreReal(t);
    UnixtimeOfFields(t);
    ShiftBack(t);
  }

  lemma UnixtimeOfFields(t: nat)
    requires t < WORD
    ensures DateTimeOf(t).m <= 12
    ensures Unixtime(DateTimeOf(t)) == (SecondsOf2000(t) + SECONDS_FROM_1970_TO_2000) % WORD
  {
    FieldsAreReal(t);
    TimeOfDayOf(t);
    UnixtimeOfParts(DateTimeOf(t), SecondsOf2000(t));
  }

  lemma TimeOfDayOf(t: nat)
    requires t < WORD
    ensures var s, dt := SecondsOf2000(t), DateTimeOf(t);
            s < WORD && dt.hh == s / 3600 % 24 && dt.mm == s / 60 % 60 && dt.ss == s % 60
  {
  }

  lemma UnixtimeOfParts(dt: DateTime, s: nat)
    requires dt.m <= 12 && s < WORD && Days2000(dt.yOff, dt.m, dt.d) == s / 86400
    requires dt.hh == s / 3600 % 24 && dt.mm == s / 60 % 60 && dt.ss == s % 60
    ensures Unixtime(dt) == (s + SECONDS_FROM_1970_TO_2000) % WORD
  {
    Recombine(s);
  }

  lemma Recombine(s: nat)
    requires s < WORD
    ensures Time2Ulong(s / 86400, s / 3600 % 24, s / 60 % 60, s % 60) == s
  {
    TimeParts(s);
  }

  lemma ShiftBack(t: nat)
    requires t < WORD
    ensures (SecondsOf2000(t) + SECONDS_FROM_1970_TO_2000) % WORD == t
  {
  }

  lemma DayBound(dt: DateTime)
    requires dt.yOff < 100 && dt.Day().Valid(EveryFour)
    ensures Days2000(dt.yOff, dt.m, dt.d) == Join(EveryFour, 2000, dt.Day()) < 36525
  {
    DaysAreJoin(dt.yOff, dt.m, dt.d);
    YearsInClosedForm(dt.yOff);
    YearDayBound(Leap(EveryFour, 2000 + dt.yOff), dt.Day());
  }

  lemma SecondsFit(n: nat, h: nat, m: nat, s: nat)
    requires n < 36525 && h < 24 && m < 60 && s < 60
    ensures Time2Ulong(n, h, m, s) == ((n * 24 + h) * 60 + m) * 60 + s < WORD - SECONDS_FROM_1970_TO_2000
  {
  }

  lemma UnixtimeValue(dt: DateTime)
    requires dt.yOff < 100 && dt.Real(EveryFour)
    ensures Unixtime(dt) == ((Join(EveryFour, 2000, dt.Day()) * 24 + dt.hh) * 60 + dt.mm) * 60 + dt.ss
                            + SECONDS_FROM_1970_TO_2000
    ensures SecondsOf2000(Unixtime(dt)) == Unixtime(dt) - SECONDS_FROM_1970_TO_2000
  {
    DayBound(dt);
    SecondsFit(Join(EveryFour, 2000, dt.Day()), dt.hh, dt.mm, dt.ss);
  }

  lemma DateTimeOfParts(t: nat, n: nat, h: nat, m: nat, s: nat)
    requires t < WORD && SecondsOf2000(t) == ((n * 24 + h) * 60 + m) * 60 + s && h < 24 && m < 60 && s < 60
    ensures var d := Split(EveryFour, 2000, n);
            d.year >= 2000 && DateTimeOf(t) == DateTime(d.year - 2000, d.month, d.day, h, m, s)
  {
    JoinSplit(EveryFour, 2000, n);
    PartsOf(n, h, m, s);
  }

  // And every real date and time of 2000 to 2099 from its seconds.
  lemma FieldsRoundTrip(dt: DateTime)
    requires dt.yOff < 100 && dt.Real(EveryFour)
    ensures DateTimeOf(Unixtime(dt)) == dt
  {
    UnixtimeValue(dt);
    DateTimeOfParts(Unixtime(dt), Join(EveryFour, 2000, dt.Day()), dt.hh, dt.mm, dt.ss);
    SplitJoin(EveryFour, 2000, dt.Day());
  }

  // The validity test is exact: the fields pass it if and only if they form a real date and
  // time of the years 2000 to 2099.
  lemma IsValidExactly(dt: DateTime)
    requires dt.m <= 12
    ensures dt.yOff < 100 && DateTimeOf(Unixtime(dt)) == dt <==> dt.yOff < 100 && dt.Real(Gregorian)
  {
    if dt.yOff < 100 {
      RulesAgree(dt);
      FieldsAreReal(Unixtime(dt));
      if dt.Real(EveryFour) {
        FieldsRoundTrip(dt);
      }
    }
  }

  // The years 2000 to 2099 have no century that is not a leap year.
  lemma RulesAgree(dt: DateTime)
    requires dt.yOff < 100
    ensures dt.Real(EveryFour) <==> dt.Real(Gregorian)
  {
  }

  // The order of fields is the order of seconds.
  lemma LessIsEarlier(a: DateTime, b: DateTime)
    requires a.yOff < 100 && a.Real(Gregorian) && b.yOff < 100 && b.Real(Gregorian)
    ensures Less(a, b) <==> Unixtime(a) < Unixtime(b)
  {
    UnixtimeValue(a);
    UnixtimeValue(b);
    if Before(a.Day(), b.Day()) {
      JoinGrows(EveryFour, 2000, a.Day(), b.Day());
    } else if Before(b.Day(), a.Day()) {
      JoinGrows(EveryFour, 2000, b.Day(), a.Day());
    }
  }
}
