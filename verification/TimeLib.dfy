// The Time library: seconds since 1970 to time elements by the Gregorian rule, and back.
module TimeLib {
  import opened Arith
  import opened Calendar

  const WORD: nat := 0x1_0000_0000

  const SECS_PER_DAY: nat := 86400

  const MONTH_DAYS: seq<nat> := [31, 28, 31, 30, 31, 30, 31, 31, 30, 31, 30, 31]

  // wday counts from 1 on Sunday, year from 1970
  datatype Tm = Tm(second: nat, minute: nat, hour: nat, wday: nat, day: nat, month: nat, year: nat) {
    function Date(): Date {
      Calendar.Date(1970 + year, month, day)
    }

    predicate Real() {
      Date().Valid(Gregorian) && hour < 24 && minute < 60 && second < 60
    }

    function Total(): nat
      requires Real()
    {
      ((Join(Gregorian, 1970, Date()) * 24 + hour) * 60 + minute) * 60 + second
    }
  }

  predicate LeapYear(y: nat) {
    (1970 + y) % 4 == 0 && ((1970 + y) % 100 != 0 || (1970 + y) % 400 == 0)
  }

  lemma LeapIsGregorian(y: nat)
    ensures LeapYear(y) <==> Leap(Gregorian, 1970 + y)
  {
  }

  function Weekday(days: nat): nat {
    (days + 4) % 7 + 1
  }

  function TmOf(t: nat): Tm {
    JoinSplit(Gregorian, 1970, t / 86400);
    var d := Split(Gregorian, 1970, t / 86400);
    Tm(t % 60, t / 60 % 60, t / 3600 % 24, Weekday(t / 86400), d.day, d.month, d.year - 1970)
  }

  // ---------------------------------------------------------------- breakTime

  lemma {:induction false} YearsAtLeast(y: nat)
    ensures 365 * y <= DaysBetween(Gregorian, 1970, 1970 + y) <= 366 * y
  {
    if y > 0 {
      YearsAtLeast(y - 1);
      YearsAddUp(Gregorian, 1970, 1970 + y - 1, 1970 + y);
    }
  }

  lemma NextYear(y: nat)
    ensures DaysBetween(Gregorian, 1970, 1970 + y + 1)
         == DaysBetween(Gregorian, 1970, 1970 + y) + if LeapYear(y) then 366 else 365
  {
    YearsAddUp(Gregorian, 1970, 1970 + y, 1970 + y + 1);
  }

  // The running total stays below 2^16, the width in which the loop compares it.
  method YearOfDay(time: nat) returns (year: nat, rem: nat)
    requires time <= 49710
    ensures (1970 + year, rem) == SplitYear(Gregorian, 1970, time)
    ensures year < 256 && rem < YearLen(Gregorian, 1970 + year)
  {
    year := 0;
    var days := 0;
    days := days + if LeapYear(year) then 366 else 365;
    NextYear(0);
    while days <= time
      invariant days == DaysBetween(Gregorian, 1970, 1970 + year + 1)
      invariant DaysBetween(Gregorian, 1970, 1970 + year) <= time
      invariant days < 0x1_0000
      decreases time + 366 - days
    {
      year := year + 1;
      days := days + if LeapYear(year) then 366 else 365;
      NextYear(year);
    }
    NextYear(year);
    YearsAtLeast(year);
    days := days - if LeapYear(year) then 366 else 365;
    rem := time - days;
    SplitYearUnique(Gregorian, 1970, 1970 + year, rem);
  }

  // What is left of the year after month m, and how the split goes on there.
  lemma MonthStep(leap: bool, m: nat, time: nat)
    requires 1 <= m <= 12 && time < MonthsBetween(leap, m, 13)
    ensures time >= MonthLen(leap, m) ==>
              && m < 12 && time - MonthLen(leap, m) < MonthsBetween(leap, m + 1, 13)
              && SplitMonth(leap, m, time) == SplitMonth(leap, m + 1, time - MonthLen(leap, m))
    ensures time < MonthLen(leap, m) ==> SplitMonth(leap, m, time) == (m, time)
  {
    if m == 12 {
      assert MonthsBetween(leap, m + 1, 13) == 0;
    }
  }

  method MonthOfDay(leap: bool, rem: nat) returns (month: nat, day: nat)
    requires rem < if leap then 366 else 365
    ensures (month, day) == SplitMonth(leap, 1, rem)
  {
    MonthsTotal(leap);
    month, day := MonthWithin(leap, rem, 1);
  }

  method MonthWithin(leap: bool, rem: nat, ghost first: nat) returns (month: nat, day: nat)
    requires first == 1 && rem < MonthsBetween(leap, first, 13)
    ensures (month, day) == SplitMonth(leap, first, rem)
  {
    var time := rem;
    month := 0;
    while month < 12
      invariant 0 <= month < 12
      invariant 0 <= time < MonthsBetween(leap, month + 1, 13)
      invariant SplitMonth(leap, month + 1, time) == SplitMonth(leap, first, rem)
    {
      MonthStep(leap, month + 1, time);
      var monthLength := MonthLength(leap, month);
      if time >= monthLength {
        time := time - monthLength;
      } else {
        break;
      }
      month := month + 1;
    }
    month := month + 1;
    day := time;
  }

  method MonthLength(leap: bool, month: nat) returns (monthLength: nat)
    requires month < 12
    ensures monthLength == MonthLen(leap, month + 1)
  {
    if month == 1 {
      monthLength := if leap then 29 else 28;
    } else {
      monthLength := MONTH_DAYS[month];
    }
  }

  method DateOfDay(time: nat) returns (year: nat, month: nat, day: nat)
    requires time <= 49710
    ensures Calendar.Date(1970 + year, month, day) == Split(Gregorian, 1970, time)
  {
    var rem, d;
    year, rem := YearOfDay(time);
    LeapIsGregorian(year);
    month, d := MonthOfDay(LeapYear(year), rem);
    day := d + 1;
  }

  method BreakTime(timeInput: nat) returns (tm: Tm)
    requires timeInput < WORD
    ensures tm == TmOf(timeInput)
  {
    var days, hour, minute, second := TimeOfDay(timeInput);
    var wday := (days + 4) % 7 + 1;
    var year, month, day := DateOfDay(days);
    tm := Tm(second, minute, hour, wday, day, month, year);
  }

  method TimeOfDay(timeInput: nat) returns (days: nat, hour: nat, minute: nat, second: nat)
    requires timeInput < WORD
    ensures days == timeInput / 86400 <= 49710
    ensures hour == timeInput / 3600 % 24 && minute == timeInput / 60 % 60 && second == timeInput % 60
  {
    Quotients(timeInput);
    var time := timeInput;
    second := time % 60;
    time := time / 60;
    minute := time % 60;
    time := time / 60;
    hour := time % 24;
    days := time / 24;
  }

  // ---------------------------------------------------------------- makeTime

  // The sum that makeTime forms, in 32 bits; the weekday is not used.
  function SecondsOf(tm: Tm): nat
    requires tm.month <= 12
  {
    var leap := LeapYear(tm.year);
    var days := DaysBetween(Gregorian, 1970, 1970 + tm.year)
      + (if tm.month == 0 then 0 else MonthsBetween(leap, 1, tm.month)) + tm.day - 1;
    (days * SECS_PER_DAY + tm.hour * 3600 + tm.minute * 60 + tm.second) % WORD
  }

  function Add32(a: nat, b: int): nat {
    (a + b) % WORD
  }

  lemma AddWrapped(x: int, b: int)
    ensures Add32(x % WORD, b) == (x + b) % WORD
  {
  }

  method MakeTime(tm: Tm) returns (seconds: nat)
    requires tm.month <= 12
    ensures seconds == SecondsOf(tm)
  {
    ghost var days;
    seconds, days := AddYears(tm.year);
    seconds, days := AddMonths(seconds, LeapYear(tm.year), tm.month, days);
    seconds := AddTime(seconds, tm.day, tm.hour, tm.minute, tm.second, days);
  }

  method AddYears(year: nat) returns (seconds: nat, ghost days: nat)
    ensures days == DaysBetween(Gregorian, 1970, 1970 + year)
    ensures seconds == days * SECS_PER_DAY % WORD
  {
    seconds := year * (SECS_PER_DAY * 365) % WORD;
    days := year * 365;
    var i := 0;
    while i < year
      invariant i <= year
      invariant days == year * 365 + DaysBetween(Gregorian, 1970, 1970 + i) - i * 365
      invariant seconds == days * SECS_PER_DAY % WORD
    {
      NextYear(i);
      AddWrapped(days * SECS_PER_DAY, SECS_PER_DAY);
      if LeapYear(i) {
        seconds := Add32(seconds, SECS_PER_DAY);
        days := days + 1;
      }
      i := i + 1;
    }
  }

  method AddMonths(seconds0: nat, leap: bool, month: nat, ghost years: nat) returns (seconds: nat, ghost days: nat)
    requires month <= 12 && seconds0 == years * SECS_PER_DAY % WORD
    ensures days == years + if month == 0 then 0 else MonthsBetween(leap, 1, month)
    ensures seconds == days * SECS_PER_DAY % WORD
  {
    seconds, days := seconds0, years;
    var i := 1;
    while i < month
      invariant 1 <= i && (month > 0 ==> i <= month)
      invariant month > 0 ==> days == years + MonthsBetween(leap, 1, i)
      invariant month == 0 ==> days == years
      invariant seconds == days * SECS_PER_DAY % WORD
    {
      var monthLength := MonthLength(leap, i - 1);
      MonthsAddUp(leap, 1, i, i + 1);
      AddWrapped(days * SECS_PER_DAY, SECS_PER_DAY * monthLength);
      seconds := Add32(seconds, SECS_PER_DAY * monthLength);
      days := days + monthLength;
      i := i + 1;
    }
  }

  method AddTime(seconds0: nat, day: nat, hour: nat, minute: nat, second: nat, ghost days: nat) returns (seconds: nat)
    requires seconds0 == days * SECS_PER_DAY % WORD
    ensures seconds == ((days + day - 1) * SECS_PER_DAY + hour * 3600 + minute * 60 + second) % WORD
  {
    ghost var s := days * SECS_PER_DAY;
    AddWrapped(s, (day - 1) * SECS_PER_DAY);
    seconds := Add32(seconds0, (day - 1) * SECS_PER_DAY);
    s := s + (day - 1) * SECS_PER_DAY;
    AddWrapped(s, hour * 3600);
    seconds := Add32(seconds, hour * 3600);
    AddWrapped(s + hour * 3600, minute * 60);
    seconds := Add32(seconds, minute * 60);
    AddWrapped(s + hour * 3600 + minute * 60, second);
    seconds := Add32(seconds, second);
  }

  // ---------------------------------------------------------------- round trips

  lemma SecondsOfReal(tm: Tm)
    requires tm.Real()
    ensures SecondsOf(tm) == tm.Total() % WORD
  {
    LeapIsGregorian(tm.year);
  }

  lemma DateOfTm(t: nat)
    ensures TmOf(t).Date() == Split(Gregorian, 1970, t / 86400) && TmOf(t).Real()
    ensures Join(Gregorian, 1970, TmOf(t).Date()) == t / 86400
  {
    JoinSplit(Gregorian, 1970, t / 86400);
  }

  lemma TotalOfTm(t: nat)
    ensures TmOf(t).Real() && TmOf(t).Total() == t
  {
    DateOfTm(t);
    TimeParts(t);
  }

  lemma SecondsOfTotal(tm: Tm, t: nat)
    requires tm.Real() && tm.Total() == t < WORD
    ensures SecondsOf(tm) == t
  {
    SecondsOfReal(tm);
  }

  // Every time comes back from its elements, in 32 bits.
  lemma MakeOfBreak(t: nat)
    requires t < WORD
    ensures TmOf(t).Real() && SecondsOf(TmOf(t)) == t
  {
    TotalOfTm(t);
    SecondsOfTotal(TmOf(t), t);
  }

  lemma TmOfParts(n: nat, h: nat, m: nat, s: nat)
    requires h < 24 && m < 60 && s < 60
    ensures var d := Split(Gregorian, 1970, n);
            d.year >= 1970 &&
            TmOf(((n * 24 + h) * 60 + m) * 60 + s) == Tm(s, m, h, Weekday(n), d.day, d.month, d.year - 1970)
  {
    JoinSplit(Gregorian, 1970, n);
    PartsOf(n, h, m, s);
  }

  lemma TmOfTotal(tm: Tm, t: nat)
    requires tm.Real() && t == tm.Total()
    ensures TmOf(t) == tm.(wday := Weekday(Join(Gregorian, 1970, tm.Date())))
  {
    SplitJoin(Gregorian, 1970, tm.Date());
    TmOfParts(Join(Gregorian, 1970, tm.Date()), tm.hour, tm.minute, tm.second);
  }

  // Elements whose time fits in 32 bits come back exactly when their weekday is the right one.
  lemma BreakOfMake(tm: Tm)
    requires tm.Real() && tm.Total() < WORD
    ensures TmOf(SecondsOf(tm)) == tm.(wday := Weekday(Join(Gregorian, 1970, tm.Date())))
    ensures TmOf(SecondsOf(tm)) == tm <==> tm.wday == Weekday(Join(Gregorian, 1970, tm.Date()))
  {
    var t := tm.Total();
    SecondsOfTotal(tm, t);
    TmOfTotal(tm, t);
  }
}
