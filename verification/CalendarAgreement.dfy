// The two date converters show the same date, time and weekday, exactly until the day that
// the one without the century rule inserts: 29 February 2100.
module CalendarAgreement {
  import opened Arith
  import opened Calendar
  import R = Rtclib
  import T = TimeLib

  // 1 March 2100, 00:00
  const PARTING: nat := 4107542400

  // Gregorian years from 1970 to 2100 in closed form.
  lemma {:induction false} GregorianYears(y: nat)
    requires 1970 <= y <= 2100
    ensures DaysBetween(Gregorian, 1970, y) == 365 * (y - 1970) + (y - 1969) / 4
  {
    if y > 1970 {
      GregorianYears(y - 1);
      YearsAddUp(Gregorian, 1970, y - 1, y);
    }
  }

  // After 2100 the two rules count the same again, for a century.
  lemma {:induction false} SameAfter2100(a: nat, b: nat)
    requires 2100 < a <= b <= 2200
    ensures DaysBetween(EveryFour, a, b) == DaysBetween(Gregorian, a, b)
    decreases b - a
  {
    if a < b {
      SameAfter2100(a + 1, b);
    }
  }

  lemma YearsTo2100(y: nat)
    requires 2000 <= y <= 2100
    ensures DaysBetween(EveryFour, 2000, y) == DaysBetween(Gregorian, 2000, y)
    ensures DaysBetween(Gregorian, 1970, y) == DaysBetween(Gregorian, 2000, y) + 10957
  {
    GregorianYears(2000);
    GregorianYears(y);
    YearsAddUp(Gregorian, 1970, 2000, y);
    R.YearsInClosedForm(y - 2000);
  }

  // A year that only one rule makes a leap year sets the rules one day apart.
  lemma LeapYearBetween(c: nat, y: nat)
    requires 2000 <= c < y && Leap(EveryFour, c) && !Leap(Gregorian, c)
    requires DaysBetween(EveryFour, 2000, c) == DaysBetween(Gregorian, 2000, c)
    requires DaysBetween(EveryFour, c + 1, y) == DaysBetween(Gregorian, c + 1, y)
    ensures DaysBetween(EveryFour, 2000, y) == DaysBetween(Gregorian, 2000, y) + 1
  {
    YearsAddUp(EveryFour, 2000, c, y);
    YearsAddUp(Gregorian, 2000, c, y);
  }

  lemma YearsFrom2100(y: nat)
    requires 2100 < y <= 2200
    ensures DaysBetween(EveryFour, 2000, y) == DaysBetween(Gregorian, 2000, y) + 1
  {
    YearsTo2100(2100);
    SameAfter2100(2101, y);
    LeapsApart(2100);
    LeapYearBetween(2100, y);
  }

  // Day numbers by the two rules agree before March 2100 and differ by one from then on.
  lemma DayNumbersApart(d: Date)
    requires d.Valid(EveryFour) && d.Valid(Gregorian) && 2000 <= d.year <= 2199
    ensures Join(EveryFour, 2000, d) == Join(Gregorian, 2000, d) + if Before(d, Date(2100, 3, 1)) then 0 else 1
  {
    if d.year <= 2100 {
      YearsTo2100(d.year);
    } else {
      YearsFrom2100(d.year);
    }
    R.LeapDayAfterFebruary(Leap(EveryFour, d.year), 1, d.month);
    R.LeapDayAfterFebruary(Leap(Gregorian, d.year), 1, d.month);
    LeapsApart(d.year);
  }

  lemma LeapsApart(y: nat)
    requires 2000 <= y <= 2199
    ensures Leap(EveryFour, y) == Leap(Gregorian, y) || y == 2100
    ensures Leap(EveryFour, 2100) && !Leap(Gregorian, 2100)
  {
  }

  lemma EpochsApart(d: Date)
    requires d.Valid(Gregorian) && d.year >= 2000
    ensures Join(Gregorian, 1970, d) == Join(Gregorian, 2000, d) + 10957
  {
    YearsAddUp(Gregorian, 1970, 2000, d.year);
    GregorianYears(2000);
  }

  predicate IsParting(d: Date) {
    d.year - 2000 == 100 && d.month == 3 && d.day == 1
  }

  lemma YearsInClosedForm(y: nat)
    requires 2000 <= y <= 2100
    ensures DaysBetween(Gregorian, 2000, y) == 365 * (y - 2000) + (y - 1997) / 4
  {
    YearsTo2100(y);
    R.YearsInClosedForm(y - 2000);
  }

  lemma JanuaryAndFebruary(d: Date)
    requires d.month == 3 && d.day == 1
    ensures d.YearDay(false) == 59
  {
    MonthsStep(false, 1, d.month);
    MonthsStep(false, 2, d.month);
  }

  lemma PartingDay(d: Date)
    requires IsParting(d)
    ensures d.Valid(Gregorian) && Join(Gregorian, 2000, d) == 36584
  {
    YearsInClosedForm(d.year);
    JanuaryAndFebruary(d);
    NoCenturyLeap(d.year);
  }

  lemma NoCenturyLeap(y: nat)
    requires y % 100 == 0 && y % 400 != 0
    ensures !Leap(Gregorian, y)
  {
  }

  // The order around the parting day, in day numbers.
  lemma AroundParting(d: Date, parting: Date)
    requires d.Valid(Gregorian) && d.year >= 2000 && IsParting(parting)
    ensures Join(Gregorian, 2000, d) < 36584 <==> Before(d, parting)
  {
    PartingDay(parting);
    if Before(d, parting) {
      JoinGrows(Gregorian, 2000, d, parting);
    } else if Before(parting, d) {
      JoinGrows(Gregorian, 2000, parting, d);
    }
  }

  // The Gregorian date of day number n counted from 2000.
  lemma GregorianOf2000(n: nat)
    requires n <= 49710
    ensures Split(Gregorian, 1970, n + 10957) == Split(Gregorian, 2000, n)
    ensures 2000 <= Split(Gregorian, 2000, n).year <= 2199
    ensures n < 36584 <==> Before(Split(Gregorian, 2000, n), Date(2100, 3, 1))
  {
    var d := Split(Gregorian, 2000, n);
    JoinSplit(Gregorian, 2000, n);
    EpochsApart(d);
    SplitJoin(Gregorian, 1970, d);
    AroundParting(d, Date(2100, 3, 1));
    YearsAtLeast(d.year - 2000);
  }

  lemma {:induction false} YearsAtLeast(y: nat)
    ensures 365 * y <= DaysBetween(Gregorian, 2000, 2000 + y)
  {
    if y > 0 {
      YearsAtLeast(y - 1);
      YearsAddUp(Gregorian, 2000, 2000 + y - 1, 2000 + y);
    }
  }

  lemma DatesAgreeExactly(n: nat)
    requires n <= 49710
    ensures Split(EveryFour, 2000, n) == Split(Gregorian, 1970, n + 10957) <==> n < 36584
  {
    GregorianOf2000(n);
    JoinSplit(Gregorian, 2000, n);
    JoinSplit(EveryFour, 2000, n);
    var d := Split(Gregorian, 2000, n);
    LeapAlsoEveryFour(d);
    DayNumbersApart(d);
    if n < 36584 {
      SplitJoin(EveryFour, 2000, d);
    }
  }

  lemma LeapAlsoEveryFour(d: Date)
    requires d.Valid(Gregorian)
    ensures d.Valid(EveryFour)
  {
  }

  // Same fields, one to one.
  predicate SameFields(dt: R.DateTime, tm: T.Tm) {
    && dt.yOff + 30 == tm.year && dt.m == tm.month && dt.d == tm.day
    && dt.hh == tm.hour && dt.mm == tm.minute && dt.ss == tm.second
  }

  // From 2000 to the end of 32-bit time, the converters agree exactly before 1 March 2100.
  lemma ConvertersAgreeExactly(t: nat)
    requires R.SECONDS_FROM_1970_TO_2000 <= t < R.WORD
    ensures SameFields(R.DateTimeOf(t), T.TmOf(t)) <==> t < PARTING
  {
    var n := R.SecondsOf2000(t) / 86400;
    SecondsApart(t);
    DatesAgreeExactly(n);
    JoinSplit(EveryFour, 2000, n);
    JoinSplit(Gregorian, 1970, n + 10957);
    GregorianOf2000(n);
  }

  lemma SecondsApart(t: nat)
    requires R.SECONDS_FROM_1970_TO_2000 <= t < R.WORD
    ensures var s := R.SecondsOf2000(t);
            && t / 86400 == s / 86400 + 10957 && s / 86400 <= 49710
            && t / 3600 % 24 == s / 3600 % 24 && t / 60 % 60 == s / 60 % 60 && t % 60 == s % 60
            && (s / 86400 < 36584 <==> t < PARTING)
  {
    var s := R.SecondsOf2000(t);
    assert s == t - R.SECONDS_FROM_1970_TO_2000;
    TimesApart(s);
    DaysOfParting(s);
  }

  lemma TimesApart(s: nat)
    ensures var t := s + R.SECONDS_FROM_1970_TO_2000;
            && t / 86400 == s / 86400 + 10957
            && t / 3600 % 24 == s / 3600 % 24 && t / 60 % 60 == s / 60 % 60 && t % 60 == s % 60
  {
    AddMultiple(s, 10957, 86400);
    AddMultiple(s, 262968, 3600);
    AddMultiple(s / 3600, 10957, 24);
    AddMultiple(s, 15778080, 60);
    AddMultiple(s / 60, 262968, 60);
  }

  lemma DaysOfParting(s: nat)
    ensures s / 86400 < 36584 <==> s + R.SECONDS_FROM_1970_TO_2000 < PARTING
    ensures s + R.SECONDS_FROM_1970_TO_2000 < R.WORD ==> s / 86400 <= 49710
  {
  }

  // Weekdays agree throughout: both count days, and only the names of the days come apart.
  lemma WeekdaysAgree(t: nat)
    requires R.SECONDS_FROM_1970_TO_2000 <= t < R.WORD
    ensures R.DateTimeOf(t).m <= 12 && R.DayOfTheWeek(R.DateTimeOf(t)) == T.TmOf(t).wday - 1
  {
    SecondsApart(t);
    R.FieldsAreReal(t);
    AddMultiple(R.SecondsOf2000(t) / 86400 + 6, 1565, 7);
  }
}
