/** Days of the proleptic Gregorian calendar (section 3.2.1 of ISO 8601:2004), counted from
    1970-01-01, and the date arithmetic of JavaScript's Date over them. */
module Calendar {

  predicate IsLeap(y: int) { y % 4 == 0 && (y % 100 != 0 || y % 400 == 0) }

  function DaysInYear(y: int): int { if IsLeap(y) then 366 else 365 }

  /** Day number of January 1st, counted year by year. */
  function DayFromYear(y: int): int
    decreases if y < 1970 then 1970 - y else y - 1970
  {
    if y == 1970 then 0
    else if y > 1970 then DayFromYear(y - 1) + DaysInYear(y - 1)
    else DayFromYear(y + 1) - DaysInYear(y)
  }

  /** Date's own closed form. */
  function ClosedDay(y: int): int { 365 * (y - 1970) + (y - 1969) / 4 - (y - 1901) / 100 + (y - 1601) / 400 }

  lemma {:induction false} DayFromYearClosed(y: int)
    ensures DayFromYear(y) == ClosedDay(y)
    decreases if y < 1970 then 1970 - y else y - 1970
  {
    if y > 1970 {
      DayFromYearClosed(y - 1);
      ClosedStep(y - 1);
    } else if y < 1970 {
      DayFromYearClosed(y + 1);
      ClosedStep(y);
    }
  }

  lemma ClosedStep(y: int)
    ensures ClosedDay(y + 1) == ClosedDay(y) + DaysInYear(y)
  {
    LeapsPassed(y);
  }

  lemma LeapsPassed(y: int)
    ensures (y - 1968) / 4 - (y - 1969) / 4 == if y % 4 == 0 then 1 else 0
    ensures (y - 1900) / 100 - (y - 1901) / 100 == if y % 100 == 0 then 1 else 0
    ensures (y - 1600) / 400 - (y - 1601) / 400 == if y % 400 == 0 then 1 else 0
    ensures y % 400 == 0 ==> y % 100 == 0
    ensures y % 100 == 0 ==> y % 4 == 0
  {
    FourthPassed(y);
    CenturyPassed(y);
    FourthCenturyPassed(y);
  }

  lemma FourthPassed(y: int)
    ensures (y - 1968) / 4 - (y - 1969) / 4 == if y % 4 == 0 then 1 else 0
  {
    assert y == 4 * (y / 4) + y % 4;
  }

  lemma CenturyPassed(y: int)
    ensures (y - 1900) / 100 - (y - 1901) / 100 == if y % 100 == 0 then 1 else 0
    ensures y % 100 == 0 ==> y % 4 == 0
  {
    assert y == 100 * (y / 100) + y % 100;
  }

  lemma FourthCenturyPassed(y: int)
    ensures (y - 1600) / 400 - (y - 1601) / 400 == if y % 400 == 0 then 1 else 0
    ensures y % 400 == 0 ==> y % 100 == 0
  {
    assert y == 400 * (y / 400) + y % 400;
  }

  /** Days of the year before month m, for m from 0 to 12. */
  function DaysBefore(leap: bool, m: int): int
    requires 0 <= m <= 12
  {
    (match m
     case 0 => 0 case 1 => 31 case 2 => 59 case 3 => 90 case 4 => 120 case 5 => 151 case 6 => 181
     case 7 => 212 case 8 => 243 case 9 => 273 case 10 => 304 case 11 => 334 case _ => 365)
    + if leap && m >= 2 then 1 else 0
  }

  /** Length of month m, counted from 1. */
  function MonthLength(y: int, m: int): (r: int)
    requires 1 <= m <= 12
    ensures 28 <= r <= 31
  {
    DaysBefore(IsLeap(y), m) - DaysBefore(IsLeap(y), m - 1)
  }

  /** A date by year, month from 1 and day from 1. */
  datatype Civil = Civil(y: int, m: int, d: int) {
    predicate Valid() { 1 <= m <= 12 && 1 <= d <= MonthLength(y, m) }

    predicate Before(other: Civil) {
      y < other.y || (y == other.y && (m < other.m || (m == other.m && d < other.d)))
    }
  }

  /** Date's MakeDay: the month counts from 0, and month and day may overflow either way. */
  function MakeDay(y: int, m: int, d: int): int
    decreases if m < 0 then 12 - m else m
  {
    if m < 0 then MakeDay(y - 1, m + 12, d)
    else if m >= 12 then MakeDay(y + 1, m - 12, d)
    else DayFromYear(y) + DaysBefore(IsLeap(y), m) + d - 1
  }

  function DayOf(c: Civil): int { MakeDay(c.y, c.m - 1, c.d) }

  /** Date's constructors read the years 0 to 99 as 1900 to 1999. */
  function JsYear(y: int): int { if 0 <= y <= 99 then 1900 + y else y }

  // ---- from day numbers back to dates

  lemma YearStep(y: int)
    ensures DayFromYear(y + 1) == DayFromYear(y) + DaysInYear(y)
  {
  }

  lemma {:induction false} YearsOrdered(y: int, z: int)
    requires y < z
    ensures DayFromYear(y) + 365 <= DayFromYear(z)
    decreases z - y
  {
    YearStep(z - 1);
    if y < z - 1 {
      YearsOrdered(y, z - 1);
    }
  }

  /** The year a day falls in, searched from a guess. */
  function YearFrom(n: int, y: int): (r: int)
    ensures DayFromYear(r) <= n < DayFromYear(r + 1)
    decreases if n < DayFromYear(y) then DayFromYear(y) - n else n - DayFromYear(y)
  {
    YearStep(y); YearStep(y - 1);
    if n < DayFromYear(y) then
      if n >= DayFromYear(y - 1) then y - 1 else YearFrom(n, y - 1)
    else if n >= DayFromYear(y + 1) then YearFrom(n, y + 1) else y
  }

  function YearOf(n: int): (y: int)
    ensures DayFromYear(y) <= n < DayFromYear(y + 1)
  {
    YearFrom(n, 1970)
  }

  lemma YearIs(n: int, y: int)
    requires DayFromYear(y) <= n < DayFromYear(y + 1)
    ensures YearOf(n) == y
  {
    var r := YearOf(n);
    if r < y { YearsOrdered(r + 1, y + 1); if r + 1 < y { YearsOrdered(r + 1, y); } }
    if y < r { if y + 1 < r { YearsOrdered(y + 1, r); } }
  }

  /** The month, at most m, that holds day k of a year. */
  function MonthUpTo(leap: bool, k: int, m: int): (r: int)
    requires 1 <= m <= 12 && 0 <= k < DaysBefore(leap, m)
    ensures 1 <= r <= m && DaysBefore(leap, r - 1) <= k < DaysBefore(leap, r)
  {
    if k >= DaysBefore(leap, m - 1) then m else MonthUpTo(leap, k, m - 1)
  }

  /** The date of a day number. */
  function CivilOf(n: int): (c: Civil)
    ensures c.Valid() && c.y == YearOf(n)
  {
    var y := YearOf(n);
    YearStep(y);
    var k := n - DayFromYear(y);
    var m := MonthUpTo(IsLeap(y), k, 12);
    Civil(y, m, k - DaysBefore(IsLeap(y), m - 1) + 1)
  }

  /** From a day to its date and back. */
  lemma DayInverts(n: int)
    ensures DayOf(CivilOf(n)) == n
  {
    DayOfInRange(CivilOf(n));
  }

  lemma DayOfInRange(c: Civil)
    requires 1 <= c.m <= 12
    ensures DayOf(c) == DayFromYear(c.y) + DaysBefore(IsLeap(c.y), c.m - 1) + c.d - 1
  {
  }

  lemma ValidWithinYear(c: Civil)
    requires c.Valid()
    ensures DayFromYear(c.y) <= DayOf(c) < DayFromYear(c.y + 1)
    ensures YearOf(DayOf(c)) == c.y
  {
    YearStep(c.y);
    DayOfInRange(c);
    assert DaysBefore(IsLeap(c.y), c.m) <= DaysInYear(c.y) by {
      if c.m < 12 { MonthsOrdered(IsLeap(c.y), c.m - 1, 12); }
    }
    YearIs(DayOf(c), c.y);
  }

  lemma MonthsOrdered(leap: bool, m: int, k: int)
    requires 0 <= m < k <= 12
    ensures DaysBefore(leap, m + 1) <= DaysBefore(leap, k)
  {
  }

  /** Date order is day-number order. */
  lemma DayOrder(a: Civil, b: Civil)
    requires a.Valid() && b.Valid()
    ensures a.Before(b) <==> DayOf(a) < DayOf(b)
    ensures a == b <==> DayOf(a) == DayOf(b)
  {
    OrderKept(a, b);
    OrderKept(b, a);
  }

  lemma OrderKept(a: Civil, b: Civil)
    requires a.Valid() && b.Valid()
    ensures a.Before(b) ==> DayOf(a) < DayOf(b)
  {
    if a.y < b.y {
      ValidWithinYear(a);
      ValidWithinYear(b);
      if a.y + 1 < b.y {
        YearsOrdered(a.y + 1, b.y);
      }
    } else if a.y == b.y {
      DayOfInRange(a);
      DayOfInRange(b);
      if a.m < b.m {
        MonthsOrdered(IsLeap(a.y), a.m - 1, b.m - 1);
      }
    }
  }

  /** From a date to its day and back. */
  lemma CivilInverts(c: Civil)
    requires c.Valid()
    ensures CivilOf(DayOf(c)) == c
  {
    DayInverts(DayOf(c));
    DayOrder(CivilOf(DayOf(c)), c);
  }

  /** An overflowing day of the month just counts on. */
  lemma {:induction false} DayOverflow(y: int, m: int, d: int, e: int)
    ensures MakeDay(y, m, e) == MakeDay(y, m, d) + e - d
    decreases if m < 0 then 12 - m else m
  {
    if m < 0 {
      DayOverflow(y - 1, m + 12, d, e);
    } else if m >= 12 {
      DayOverflow(y + 1, m - 12, d, e);
    }
  }

  // ---- weekdays

  /** 0 is Sunday, as in getDay. */
  function Weekday(n: int): (w: int)
    ensures 0 <= w < 7
  {
    (n + 4) % 7
  }

  // ---- what the tables say

  /** The months' lengths, February's by the Gregorian rule. */
  lemma MonthLengthIs(y: int, m: int)
    requires 1 <= m <= 12
    ensures MonthLength(y, m)
         == if m in {1, 3, 5, 7, 8, 10, 12} then 31 else if m in {4, 6, 9, 11} then 30
            else if y % 4 == 0 && (y % 100 != 0 || y % 400 == 0) then 29 else 28
  {
  }

  /** Years start on 1 January, and each later month after the month before. */
  lemma {:induction false} MonthStarts(y: int, m: int)
    requires 1 <= m <= 12
    ensures DayOf(Civil(y, m, 1))
         == if m == 1 then DayFromYear(y) else DayOf(Civil(y, m - 1, 1)) + MonthLength(y, m - 1)
  {
    DayOfInRange(Civil(y, m, 1));
    if m > 1 {
      DayOfInRange(Civil(y, m - 1, 1));
    }
  }

  /** Counting starts at 1 January 1970, a Thursday. */
  lemma {:induction false} Epoch(c: Civil)
    requires 1969 < c.y < 1971 && c.m == 1 && c.d == 1
    ensures DayOf(c) == 0 && Weekday(DayOf(c)) == 4
  {
    DayOfInRange(c);
  }

  /** The day after a date is the next of its month, or the first of the next month, or of the next year; and the
      next weekday. Together with Epoch this determines every day number and weekday. */
  lemma {:induction false} NextDate(c: Civil)
    requires c.Valid()
    ensures DayOf(if c.d < MonthLength(c.y, c.m) then Civil(c.y, c.m, c.d + 1)
                  else if c.m < 12 then Civil(c.y, c.m + 1, 1) else Civil(c.y + 1, 1, 1)) == DayOf(c) + 1
    ensures Weekday(DayOf(c) + 1) == if Weekday(DayOf(c)) == 6 then 0 else Weekday(DayOf(c)) + 1
  {
    NextWeekday(DayOf(c));
    if c.d < MonthLength(c.y, c.m) {
      NextInMonth(c);
    } else if c.m < 12 {
      MonthStarts(c.y, c.m + 1);
      FromFirst(c);
    } else {
      NextYear(c.y);
      FromFirst(c);
    }
  }

  lemma NextInMonth(c: Civil)
    requires 1 <= c.m <= 12
    ensures DayOf(Civil(c.y, c.m, c.d + 1)) == DayOf(c) + 1
  {
  }

  lemma FromFirst(c: Civil)
    requires 1 <= c.m <= 12
    ensures DayOf(c) == DayOf(Civil(c.y, c.m, 1)) + c.d - 1
  {
  }

  lemma NextYear(y: int)
    ensures DayOf(Civil(y + 1, 1, 1)) == DayOf(Civil(y, 12, 1)) + MonthLength(y, 12)
  {
    YearStep(y);
  }

  lemma NextWeekday(n: int)
    ensures Weekday(n + 1) == if Weekday(n) == 6 then 0 else Weekday(n) + 1
  {
  }

  /** JavaScript's mutable Date, at day granularity. */
  class JsDate {
    var day: int

    /** new Date(y, m, d) and Date.UTC(y, m, d): month from 0, two-digit years remapped. */
    constructor (y: int, m: int, d: int)
      ensures day == MakeDay(JsYear(y), m, d)
    {
      day := MakeDay(JsYear(y), m, d);
    }

    constructor Copy(other: JsDate)
      ensures day == other.day
    {
      day := other.day;
    }

    function GetDay(): int
      reads this
    {
      Weekday(day)
    }

    function Fields(): Civil
      reads this
    {
      CivilOf(day)
    }

    /** setDate keeps year and month and replaces the day of the month, which may overflow. */
    method SetDate(d: int)
      modifies this
      ensures day == old(day) + d - old(Fields().d)
    {
      var c := Fields();
      DayInverts(day);
      DayOverflow(c.y, c.m - 1, c.d, d);
      day := MakeDay(c.y, c.m - 1, d);
    }

    /** setDate(getDate() + k) moves k days, across month and year ends. */
    method AddDays(k: int)
      modifies this
      ensures day == old(day) + k
    {
      SetDate(Fields().d + k);
    }
  }
}
