/** The Gregorian calendar in UTC, in the two forms src/devices/ds1307.cpp relies on: localtime, which finds
    the date of a count of days since the first of January 1970, and mktime, which counts the days up to a
    date and lets the day of the month run past the end of its month. */
module Calendar {

  datatype Date = Date(year: int, month: int, day: int)

  predicate Leap(y: int) {
    y % 4 == 0 && (y % 100 != 0 || y % 400 == 0)
  }

  function DaysInMonth(y: int, m: int): (n: nat)
    requires 1 <= m <= 12
    ensures 28 <= n <= 31
  {
    if m == 2 then (if Leap(y) then 29 else 28)
    else if m in {4, 6, 9, 11} then 30
    else 31
  }

  predicate IsDate(d: Date) {
    d.year >= 1970 && 1 <= d.month <= 12 && 1 <= d.day <= DaysInMonth(d.year, d.month)
  }

  const EPOCH := Date(1970, 1, 1)

  function NextDate(d: Date): (e: Date)
    requires IsDate(d)
    ensures IsDate(e)
  {
    if d.day < DaysInMonth(d.year, d.month) then d.(day := d.day + 1)
    else if d.month < 12 then Date(d.year, d.month + 1, 1)
    else Date(d.year + 1, 1, 1)
  }

  /** localtime: the date n days after the epoch, by counting through the calendar. */
  function DateOf(n: nat): (d: Date)
    ensures IsDate(d)
  {
    if n == 0 then EPOCH else NextDate(DateOf(n - 1))
  }

  function DaysInYear(y: int): nat {
    if Leap(y) then 366 else 365
  }

  function DaysBeforeYear(y: int): (n: nat)
    requires y >= 1970
    decreases y
  {
    if y == 1970 then 0 else DaysBeforeYear(y - 1) + DaysInYear(y - 1)
  }

  function DaysBeforeMonth(y: int, m: int): (n: nat)
    requires 1 <= m <= 12
    decreases m
  {
    if m == 1 then 0 else DaysBeforeMonth(y, m - 1) + DaysInMonth(y, m - 1)
  }

  /** mktime: linear in the day, so a thirtieth of February counts as a day of March. */
  function DayNumber(d: Date): nat
    requires d.year >= 1970 && 1 <= d.month <= 12 && d.day >= 1
  {
    DaysBeforeYear(d.year) + DaysBeforeMonth(d.year, d.month) + d.day - 1
  }

  /** tm_wday: the epoch was a Thursday. */
  function Weekday(n: nat): nat {
    (n + 4) % 7
  }

  lemma MonthsFillTheYear(y: int)
    ensures DaysBeforeMonth(y, 12) + 31 == DaysInYear(y)
  {
    assert DaysBeforeMonth(y, 2) == 31;
    assert DaysBeforeMonth(y, 3) == 59 + if Leap(y) then 1 else 0;
    assert DaysBeforeMonth(y, 4) == DaysBeforeMonth(y, 3) + 31;
    assert DaysBeforeMonth(y, 5) == DaysBeforeMonth(y, 4) + 30;
    assert DaysBeforeMonth(y, 6) == DaysBeforeMonth(y, 5) + 31;
    assert DaysBeforeMonth(y, 7) == DaysBeforeMonth(y, 6) + 30;
    assert DaysBeforeMonth(y, 8) == DaysBeforeMonth(y, 7) + 31;
    assert DaysBeforeMonth(y, 9) == DaysBeforeMonth(y, 8) + 31;
    assert DaysBeforeMonth(y, 10) == DaysBeforeMonth(y, 9) + 30;
    assert DaysBeforeMonth(y, 11) == DaysBeforeMonth(y, 10) + 31;
    assert DaysBeforeMonth(y, 12) == DaysBeforeMonth(y, 11) + 30;
  }

  lemma MultiplesUpTo(y: int, k: int)
    requires y > 0 && k in {4, 100, 400}
    ensures y / k == (y - 1) / k + if y % k == 0 then 1 else 0
  {
  }

  /** Every fourth year is a leap year, but of the years that end a century only every fourth. */
  lemma {:induction false} YearsCount(y: int)
    requires y >= 1970
    ensures DaysBeforeYear(y) == 365 * (y - 1970) + (y - 1) / 4 - (y - 1) / 100 + (y - 1) / 400 - 477
    decreases y
  {
    if y > 1970 {
      YearsCount(y - 1);
      MultiplesUpTo(y - 1, 4);
      MultiplesUpTo(y - 1, 100);
      MultiplesUpTo(y - 1, 400);
      CenturiesAreFourths(y - 1);
    }
  }

  lemma CenturiesAreFourths(y: int)
    ensures y % 400 == 0 ==> y % 100 == 0
    ensures y % 100 == 0 ==> y % 4 == 0
  {
  }

  /** The count of days in closed form, by the rules of the Gregorian calendar. */
  lemma DayNumberIs(d: Date)
    requires d.year >= 1970 && 1 <= d.month <= 12 && d.day >= 1
    ensures var (y, leap) := (d.year, if d.year % 100 == 0 then d.year / 100 % 4 == 0 else d.year % 4 == 0);
            DayNumber(d) == 365 * (y - 1970) + (y - 1) / 4 - (y - 1) / 100 + (y - 1) / 400 - 477
                            + [0, 31, 59, 90, 120, 151, 181, 212, 243, 273, 304, 334][d.month - 1]
                            + (if leap && d.month > 2 then 1 else 0) + d.day - 1
  {
    YearsCount(d.year);
    MonthsCount(d.year, d.month);
    LeapIff(d.year);
    hide DaysBeforeYear, DaysBeforeMonth, Leap;
  }

  lemma LeapIff(y: int)
    ensures Leap(y) <==> if y % 100 == 0 then y / 100 % 4 == 0 else y % 4 == 0
  {
    CenturiesAreFourths(y);
  }

  lemma MonthsCount(y: int, m: int)
    requires 1 <= m <= 12
    ensures DaysBeforeMonth(y, m) == [0, 31, 59, 90, 120, 151, 181, 212, 243, 273, 304, 334][m - 1]
                                     + if Leap(y) && m > 2 then 1 else 0
    decreases m
  {
    hide Leap;
    if m > 1 {
      MonthsCount(y, m - 1);
    }
  }

  lemma NextDateCounts(d: Date)
    requires IsDate(d)
    ensures DayNumber(NextDate(d)) == DayNumber(d) + 1
  {
    if d.day == DaysInMonth(d.year, d.month) && d.month == 12 {
      MonthsFillTheYear(d.year);
      assert DaysInMonth(d.year, 12) == 31;
    }
  }

  /** The count undoes the walk. */
  lemma {:induction false} CountUndoesWalk(n: nat)
    ensures DayNumber(DateOf(n)) == n
  {
    if n > 0 {
      CountUndoesWalk(n - 1);
      NextDateCounts(DateOf(n - 1));
    }
  }

  function PreviousDate(d: Date): (e: Date)
    requires IsDate(d) && d != EPOCH
    ensures IsDate(e) && NextDate(e) == d
  {
    if d.day > 1 then d.(day := d.day - 1)
    else if d.month > 1 then Date(d.year, d.month - 1, DaysInMonth(d.year, d.month - 1))
    else Date(d.year - 1, 12, 31)
  }

  /** And the walk undoes the count, on every date there is. */
  lemma {:induction false} WalkUndoesCount(d: Date)
    requires IsDate(d)
    ensures DateOf(DayNumber(d)) == d
    decreases DayNumber(d)
  {
    if d == EPOCH {
      assert DayNumber(EPOCH) == 0;
    } else {
      var e := PreviousDate(d);
      NextDateCounts(e);
      WalkUndoesCount(e);
    }
  }

  // ----- the hundred years 1970 to 2069 -----

  const CENTURY := 36525

  lemma {:induction false} YearStart(y: int)
    requires 1970 <= y <= 2100
    ensures DaysBeforeYear(y) == 365 * (y - 1970) + (y - 1969) / 4
    decreases y
  {
    if y > 1970 {
      YearStart(y - 1);
    }
  }

  lemma {:induction false} MonthStartBound(y: int, m: int)
    requires 1 <= m <= 12
    ensures DaysBeforeMonth(y, m) + 31 <= DaysInYear(y)
    decreases 12 - m
  {
    if m == 12 {
      MonthsFillTheYear(y);
    } else {
      MonthStartBound(y, m + 1);
      assert DaysBeforeMonth(y, m + 1) == DaysBeforeMonth(y, m) + DaysInMonth(y, m);
      assert m + 1 == 12 ==> DaysInMonth(y, 11) == 30;
    }
  }

  /** No day of the month up to 31 takes a date out of its year. */
  lemma StaysInYear(y: int, m: int, day: int)
    requires 1970 <= y && 1 <= m <= 12 && 1 <= day <= 31
    ensures DaysBeforeYear(y) <= DayNumber(Date(y, m, day)) < DaysBeforeYear(y + 1)
  {
    MonthStartBound(y, m);
  }

  lemma {:induction false} YearsAscend(y: int, z: int)
    requires 1970 <= y <= z
    ensures DaysBeforeYear(y) <= DaysBeforeYear(z)
    decreases z
  {
    if y < z {
      YearsAscend(y, z - 1);
    }
  }

  /** A day before the century ends falls in one of its years, and the day after it in 2070. */
  lemma YearOfDay(n: nat)
    requires n <= CENTURY
    ensures n < CENTURY ==> DateOf(n).year <= 2069
    ensures n == CENTURY ==> DateOf(n) == Date(2070, 1, 1)
  {
    hide DateOf, DaysBeforeYear, DaysBeforeMonth;
    YearStart(2070);
    CountUndoesWalk(n);
    var d := DateOf(n);
    if n < CENTURY {
      if d.year >= 2070 {
        YearsAscend(2070, d.year);
      }
    } else {
      FirstOf2070();
      WalkUndoesCount(Date(2070, 1, 1));
    }
  }

  lemma FirstOf2070()
    ensures DayNumber(Date(2070, 1, 1)) == CENTURY
  {
    hide DaysBeforeYear;
    YearStart(2070);
    assert DaysBeforeMonth(2070, 1) == 0;
  }
}
