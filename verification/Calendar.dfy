// Calendar dates and day numbers: the reference that the two date converters are held against.
module Calendar {
  import opened Arith

  // RTClib takes every fourth year as a leap year, Time follows the Gregorian rule.
  datatype Rule = EveryFour | Gregorian

  predicate Leap(r: Rule, y: nat) {
    y % 4 == 0 && (r.EveryFour? || y % 100 != 0 || y % 400 == 0)
  }

  function YearLen(r: Rule, y: nat): nat {
    if Leap(r, y) then 366 else 365
  }

  function MonthLen(leap: bool, m: nat): nat
    requires 1 <= m <= 12
  {
    if m == 2 then if leap then 29 else 28
    else if m == 4 || m == 6 || m == 9 || m == 11 then 30
    else 31
  }

  // days from the first of year a to the first of year b
  function DaysBetween(r: Rule, a: nat, b: nat): nat
    decreases b - a
  {
    if a >= b then 0 else YearLen(r, a) + DaysBetween(r, a + 1, b)
  }

  // days from the first of month a to the first of month b
  function MonthsBetween(leap: bool, a: nat, b: nat): nat
    requires 1 <= a && b <= 13
    decreases b - a
  {
    if a >= b then 0 else MonthLen(leap, a) + MonthsBetween(leap, a + 1, b)
  }

  datatype Date = Date(year: nat, month: nat, day: nat) {
    predicate Valid(r: Rule) {
      Fits(Leap(r, year))
    }

    predicate Fits(leap: bool) {
      1 <= month <= 12 && 1 <= day <= MonthLen(leap, month)
    }

    // day of the year, counted from 0
    function YearDay(leap: bool): nat
      requires Fits(leap)
    {
      MonthsBetween(leap, 1, month) + day - 1
    }
  }

  // The day number of a date, counted from the first of January of the epoch year.
  function Join(r: Rule, epoch: nat, d: Date): nat
    requires d.Valid(r)
  {
    DaysBetween(r, epoch, d.year) + d.YearDay(Leap(r, d.year))
  }

  // Year and day of the year, by taking off one year after another.
  function SplitYear(r: Rule, y: nat, n: nat): (nat, nat)
    decreases n
  {
    if n < YearLen(r, y) then (y, n) else SplitYear(r, y + 1, n - YearLen(r, y))
  }

  // Month and day of the month, counted from 0, by taking off one month after another.
  function SplitMonth(leap: bool, m: nat, n: nat): (nat, nat)
    requires 1 <= m <= 12
    decreases 12 - m
  {
    if m == 12 || n < MonthLen(leap, m) then (m, n) else SplitMonth(leap, m + 1, n - MonthLen(leap, m))
  }

  function FromYearDay(leap: bool, y: nat, n: nat): Date {
    var (m, d) := SplitMonth(leap, 1, n);
    Date(y, m, d + 1)
  }

  function Split(r: Rule, epoch: nat, n: nat): Date {
    var (y, rem) := SplitYear(r, epoch, n);
    FromYearDay(Leap(r, y), y, rem)
  }

  // ---------------------------------------------------------------- split and join are inverse

  lemma {:induction false} SplitYearSums(r: Rule, y: nat, n: nat)
    ensures var (y', rem) := SplitYear(r, y, n);
            y <= y' && rem < YearLen(r, y') && n == DaysBetween(r, y, y') + rem
    decreases n
  {
    if n >= YearLen(r, y) {
      SplitYearSums(r, y + 1, n - YearLen(r, y));
    }
  }

  lemma {:induction false} SplitYearUnique(r: Rule, y: nat, y': nat, rem: nat)
    requires y <= y' && rem < YearLen(r, y')
    ensures SplitYear(r, y, DaysBetween(r, y, y') + rem) == (y', rem)
    decreases y' - y
  {
    if y < y' {
      SplitYearUnique(r, y + 1, y', rem);
    }
  }

  lemma {:induction false} SplitMonthSums(leap: bool, m: nat, n: nat)
    requires 1 <= m <= 12 && n < MonthsBetween(leap, m, 13)
    ensures var (m', d) := SplitMonth(leap, m, n);
            m <= m' <= 12 && d < MonthLen(leap, m') && n == MonthsBetween(leap, m, m') + d
    decreases 12 - m
  {
    if m < 12 && n >= MonthLen(leap, m) {
      SplitMonthSums(leap, m + 1, n - MonthLen(leap, m));
    }
  }

  lemma {:induction false} SplitMonthUnique(leap: bool, m: nat, m': nat, d: nat, n: nat)
    requires 1 <= m <= m' <= 12 && d < MonthLen(leap, m') && n == MonthsBetween(leap, m, m') + d
    ensures SplitMonth(leap, m, n) == (m', d)
    decreases m' - m
  {
    if m < m' {
      MonthsStep(leap, m, m');
      SplitMonthUnique(leap, m + 1, m', d, n - MonthLen(leap, m));
      SplitMonthStep(leap, m, n);
    }
  }

  lemma MonthsStep(leap: bool, a: nat, b: nat)
    requires 1 <= a < b <= 13
    ensures MonthsBetween(leap, a, b) == MonthLen(leap, a) + MonthsBetween(leap, a + 1, b)
  {
  }

  // A whole month is taken off.
  lemma SplitMonthStep(leap: bool, m: nat, n: nat)
    requires 1 <= m < 12 && n >= MonthLen(leap, m)
    ensures SplitMonth(leap, m, n) == SplitMonth(leap, m + 1, n - MonthLen(leap, m))
  {
  }

  lemma MonthsTotal(leap: bool)
    ensures MonthsBetween(leap, 1, 13) == if leap then 366 else 365
  {
    MonthsOfLeapYear();
    MonthsOfCommonYear();
  }

  lemma MonthsOfLeapYear()
    ensures MonthsBetween(true, 1, 13) == 366
  {
  }

  lemma MonthsOfCommonYear()
    ensures MonthsBetween(false, 1, 13) == 365
  {
  }

  lemma {:induction false} MonthsAddUp(leap: bool, a: nat, b: nat, c: nat)
    requires 1 <= a <= b <= c <= 13
    ensures MonthsBetween(leap, a, c) == MonthsBetween(leap, a, b) + MonthsBetween(leap, b, c)
    decreases b - a
  {
    if a < b {
      MonthsAddUp(leap, a + 1, b, c);
    }
  }

  lemma {:induction false} YearsAddUp(r: Rule, a: nat, b: nat, c: nat)
    requires a <= b <= c
    ensures DaysBetween(r, a, c) == DaysBetween(r, a, b) + DaysBetween(r, b, c)
    decreases b - a
  {
    if a < b {
      YearsAddUp(r, a + 1, b, c);
    }
  }

  // A date falls inside its year.
  lemma YearDayBound(leap: bool, d: Date)
    requires d.Fits(leap)
    ensures d.YearDay(leap) < if leap then 366 else 365
  {
    MonthsTotal(leap);
    MonthsAddUp(leap, 1, d.month, 13);
  }

  lemma YearDaySplit(leap: bool, y: nat, n: nat)
    requires n < if leap then 366 else 365
    ensures FromYearDay(leap, y, n).Fits(leap) && FromYearDay(leap, y, n).YearDay(leap) == n
  {
    MonthsTotal(leap);
    SplitMonthSums(leap, 1, n);
    var (m, d) := SplitMonth(leap, 1, n);
    assert FromYearDay(leap, y, n) == Date(y, m, d + 1);
  }

  lemma YearDayJoin(leap: bool, d: Date)
    requires d.Fits(leap)
    ensures FromYearDay(leap, d.year, d.YearDay(leap)) == d
  {
    SplitMonthUnique(leap, 1, d.month, d.day - 1, d.YearDay(leap));
  }

  lemma JoinSplit(r: Rule, epoch: nat, n: nat)
    ensures Split(r, epoch, n).Valid(r) && Split(r, epoch, n).year >= epoch
    ensures Join(r, epoch, Split(r, epoch, n)) == n
  {
    SplitYearSums(r, epoch, n);
    var (y, rem) := SplitYear(r, epoch, n);
    YearDaySplit(Leap(r, y), y, rem);
  }

  lemma SplitJoin(r: Rule, epoch: nat, d: Date)
    requires d.Valid(r) && d.year >= epoch
    ensures Split(r, epoch, Join(r, epoch, d)) == d
  {
    var leap := Leap(r, d.year);
    YearDayBound(leap, d);
    SplitYearUnique(r, epoch, d.year, d.YearDay(leap));
    YearDayJoin(leap, d);
  }

  // ---------------------------------------------------------------- day numbers follow the calendar

  // The date after d, as a calendar prints it.
  function Tomorrow(r: Rule, d: Date): Date
    requires d.Valid(r)
  {
    if d.day < MonthLen(Leap(r, d.year), d.month) then d.(day := d.day + 1)
    else if d.month < 12 then Date(d.year, d.month + 1, 1)
    else Date(d.year + 1, 1, 1)
  }

  lemma JoinTomorrow(r: Rule, epoch: nat, d: Date)
    requires d.Valid(r) && d.year >= epoch
    ensures Tomorrow(r, d).Valid(r) && Tomorrow(r, d).year >= epoch
    ensures Join(r, epoch, Tomorrow(r, d)) == Join(r, epoch, d) + 1
  {
    var leap := Leap(r, d.year);
    if d.day < MonthLen(leap, d.month) {
      assert Tomorrow(r, d) == d.(day := d.day + 1);
    } else if d.month < 12 {
      assert Tomorrow(r, d) == Date(d.year, d.month + 1, 1);
      NewMonth(leap, d);
    } else {
      assert Tomorrow(r, d) == Date(d.year + 1, 1, 1);
      NewYear(r, epoch, d);
    }
  }

  lemma NewMonth(leap: bool, d: Date)
    requires 1 <= d.month < 12 && d.day == MonthLen(leap, d.month)
    ensures Date(d.year, d.month + 1, 1).YearDay(leap) == d.YearDay(leap) + 1
  {
    MonthsAddUp(leap, 1, d.month, d.month + 1);
  }

  lemma NewYear(r: Rule, epoch: nat, d: Date)
    requires d.year >= epoch && d.month == 12 && d.day == 31
    ensures d.Valid(r) && Join(r, epoch, Date(d.year + 1, 1, 1)) == Join(r, epoch, d) + 1
  {
    MonthsTotal(Leap(r, d.year));
    MonthsAddUp(Leap(r, d.year), 1, 12, 13);
    YearsAddUp(r, epoch, d.year, d.year + 1);
  }

  // Day 0 is the first of January of the epoch year and each next day number is the next date.
  lemma SplitFollowsCalendar(r: Rule, epoch: nat, n: nat)
    ensures Split(r, epoch, 0) == Date(epoch, 1, 1)
    ensures Split(r, epoch, n).Valid(r)
    ensures Split(r, epoch, n + 1) == Tomorrow(r, Split(r, epoch, n))
  {
    JoinSplit(r, epoch, n);
    JoinTomorrow(r, epoch, Split(r, epoch, n));
    SplitJoin(r, epoch, Tomorrow(r, Split(r, epoch, n)));
  }

  predicate Before(a: Date, b: Date) {
    a.year < b.year || (a.year == b.year && (a.month < b.month || (a.month == b.month && a.day < b.day)))
  }

  lemma JoinGrows(r: Rule, epoch: nat, a: Date, b: Date)
    requires a.Valid(r) && b.Valid(r) && epoch <= a.year && Before(a, b)
    ensures Join(r, epoch, a) < Join(r, epoch, b)
  {
    if a.year < b.year {
      YearDayBound(Leap(r, a.year), a);
      YearsAddUp(r, epoch, a.year, a.year + 1);
      YearsAddUp(r, epoch, a.year + 1, b.year);
      YearsAddUp(r, epoch, a.year, b.year);
    } else if a.month < b.month {
      MonthsAddUp(Leap(r, a.year), 1, a.month, a.month + 1);
      MonthsAddUp(Leap(r, a.year), 1, a.month + 1, b.month);
    }
  }

  // ---------------------------------------------------------------- time of day

  lemma Quotients(t: nat)
    ensures t / 60 / 60 == t / 3600 && t / 60 / 60 / 24 == t / 86400
  {
  }

  // A number of seconds is made of its days, hours, minutes and seconds.
  lemma TimeParts(t: nat)
    ensures ((t / 86400 * 24 + t / 3600 % 24) * 60 + t / 60 % 60) * 60 + t % 60 == t
  {
    Quotients(t);
    var a, b := t / 60, t / 60 / 60;
    assert t == a * 60 + t % 60 && a == b * 60 + a % 60 && b == b / 24 * 24 + b % 24;
  }

  // And has no others.
  lemma PartsOf(days: nat, h: nat, m: nat, s: nat)
    requires h < 24 && m < 60 && s < 60
    ensures var t := ((days * 24 + h) * 60 + m) * 60 + s;
            t / 86400 == days && t / 3600 % 24 == h && t / 60 % 60 == m && t % 60 == s
  {
    var t := ((days * 24 + h) * 60 + m) * 60 + s;
    Quotients(t);
    assert t / 60 == (days * 24 + h) * 60 + m && t / 60 / 60 == days * 24 + h;
  }
}
