/** getIsoWeekNumber against the calendar weeks of section 2.2.10 of ISO 8601:2004. */
module IsoWeek {
  import opened Calendar

  // ---- the standard's definition

  const THURSDAY := 4

  /** The first day of year y that is a Thursday (see FirstThursdayIsFirst). */
  function FirstThursday(y: int): int {
    DayFromYear(y) + (THURSDAY - Weekday(DayFromYear(y))) % 7
  }

  /** Weeks run from Monday; week 1 of a year is the one that holds its first Thursday. */
  function WeekOneMonday(y: int): int { FirstThursday(y) - 3 }

  /** Day n lies in calendar week w of year y. The last week of a year is the one before week 1 of the next. */
  predicate InIsoWeek(n: int, y: int, w: int) {
    1 <= w
    && WeekOneMonday(y) + 7 * (w - 1) <= n < WeekOneMonday(y) + 7 * w
    && n < WeekOneMonday(y + 1)
  }

  lemma {:induction false} FirstThursdayIsFirst(y: int, t: int)
    ensures YearOf(FirstThursday(y)) == y && Weekday(FirstThursday(y)) == THURSDAY
    ensures YearOf(t) == y && Weekday(t) == THURSDAY ==>
              FirstThursday(y) <= t && (t - FirstThursday(y)) % 7 == 0
    ensures DayFromYear(y) <= FirstThursday(y) < DayFromYear(y) + 7
  {
    FirstThursdayFrom(DayFromYear(y), t);
    YearStep(y);
    YearIs(FirstThursday(y), y);
  }

  lemma FirstThursdayFrom(start: int, t: int)
    ensures var f := start + (THURSDAY - Weekday(start)) % 7;
            start <= f < start + 7 && Weekday(f) == THURSDAY
            && (Weekday(t) == THURSDAY ==> (t - f) % 7 == 0 && (start <= t ==> f <= t))
  {
    var f := start + (THURSDAY - Weekday(start)) % 7;
    assert Weekday(f) == THURSDAY;
    if Weekday(t) == THURSDAY {
      ThursdaysApart(f, t);
    }
  }

  lemma ThursdaysApart(a: int, b: int)
    requires Weekday(a) == Weekday(b)
    ensures (b - a) % 7 == 0 && (a < b ==> a + 7 <= b)
  {
    assert b - a == 7 * ((b + 4) / 7 - (a + 4) / 7);
  }

  // ---- the code

  /** Monday is 1 and Sunday 7. */
  function IsoDay(n: int): int { if Weekday(n) == 0 then 7 else Weekday(n) }

  /** The Thursday of the week of day n. */
  function ThursdayOf(n: int): int { n + 4 - IsoDay(n) }

  /** The day getIsoWeekNumber really starts from: two-digit years are remapped. */
  function Remapped(n: int): int {
    var c := CivilOf(n);
    MakeDay(JsYear(c.y), c.m - 1, c.d)
  }

  function CeilDiv(a: int, b: int): int
    requires b > 0
  {
    (a + b - 1) / b
  }

  /** The weeks begun since the start of the year the code takes the Thursday to be in. */
  function WeeksBegun(thursday: int): int {
    CeilDiv(thursday - MakeDay(JsYear(YearOf(thursday)), 0, 1) + 1, 7)
  }

  function ComputedWeek(n: int): int { WeeksBegun(ThursdayOf(Remapped(n))) }

  /** The date moves in place to the Thursday of its week; the week number is the number of weeks
      begun since the start of that Thursday's year. */
  method GetIsoWeekNumber(date: int) returns (week: int)
    ensures week == ComputedWeek(date)
    ensures InIsoWeek(date, YearOf(ThursdayOf(date)), week) <==> RightWeek(date)
  {
    var c := CivilOf(date);
    var d := new JsDate(c.y, c.m - 1, c.d);
    var day := if d.GetDay() == 0 then 7 else d.GetDay();
    d.AddDays(4 - day);
    assert d.day == ThursdayOf(Remapped(date));
    var yearStart := new JsDate(d.Fields().y, 0, 1);
    week := CeilDiv(d.day - yearStart.day + 1, 7);
    assert week == WeeksBegun(d.day);
    IsoWeekRight(date);
  }

  // ---- the two agree

  predicate TwoDigit(y: int) { 0 <= y <= 99 }

  /** Neither the date nor the Thursday of its week falls in the years 0 to 99. */
  predicate Plain(n: int) {
    !TwoDigit(YearOf(n)) && !TwoDigit(YearOf(ThursdayOf(n)))
  }

  /** The standard's week, counted from the start of the Thursday's year. */
  lemma WeekFromStart(n: int)
    ensures var t := ThursdayOf(n);
            InIsoWeek(n, YearOf(t), (t - DayFromYear(YearOf(t)) + 7) / 7)
  {
    var t := ThursdayOf(n);
    var y := YearOf(t);
    ThursdayNear(n);
    FirstThursdayIsFirst(y, t);
    FirstThursdayIsFirst(y + 1, t);
    ThursdaysApart(t, FirstThursday(y + 1));
    WeekCount(DayFromYear(y), FirstThursday(y), t);
  }

  /** Weeks begun since the start of the Thursday's year are the standard's week. */
  lemma WeeksFromYearStart(n: int)
    ensures var t := ThursdayOf(n);
            !TwoDigit(YearOf(t)) ==> InIsoWeek(n, YearOf(t), WeeksBegun(t))
  {
    WeekFromStart(n);
    WeeksBegunIs(ThursdayOf(n));
  }

  lemma WeeksBegunIs(t: int)
    ensures WeeksBegun(t) == (t - DayFromYear(JsYear(YearOf(t))) + 7) / 7
  {
    YearStartDay(JsYear(YearOf(t)));
  }

  lemma RemappedIs(n: int)
    ensures !TwoDigit(YearOf(n)) ==> Remapped(n) == n
    ensures TwoDigit(YearOf(n)) ==> !TwoDigit(YearOf(ThursdayOf(Remapped(n))))
  {
    var c := CivilOf(n);
    if TwoDigit(c.y) {
      RemapLandsLate(c);
    }
  }

  /** With the Thursday in the years 0 to 99, the count is taken from 1900 years too late. */
  lemma TwoDigitThursday(t: int)
    requires TwoDigit(YearOf(t))
    ensures WeeksBegun(t) < 1
  {
    WeeksBegunIs(t);
    YearsOrdered(YearOf(t) + 1, YearOf(t) + 1900);
  }

  lemma ThursdayNear(n: int)
    ensures Weekday(ThursdayOf(n)) == THURSDAY && n - 3 <= ThursdayOf(n) <= n + 3
  {
  }

  lemma WeekCount(start: int, f: int, t: int)
    requires start <= f < start + 7 && f <= t && (t - f) % 7 == 0
    ensures t == f + 7 * ((t - start + 7) / 7 - 1)
  {
  }

  /** What the code computes, for every date: the ISO week of the date whenever years 0 to 99 stay out
      of it; in those years, the ISO week of the same month and day 1900 years later; and when only the
      Thursday falls in those years, a number that is no week at all. */
  lemma IsoWeekExactly(n: int)
    ensures Plain(n) ==> InIsoWeek(n, YearOf(ThursdayOf(n)), ComputedWeek(n))
    ensures TwoDigit(YearOf(n)) ==>
              InIsoWeek(Remapped(n), YearOf(ThursdayOf(Remapped(n))), ComputedWeek(n))
    ensures !TwoDigit(YearOf(n)) && TwoDigit(YearOf(ThursdayOf(n))) ==>
              forall y :: !InIsoWeek(n, y, ComputedWeek(n))
  {
    RemappedIs(n);
    WeeksFromYearStart(Remapped(n));
    if TwoDigit(YearOf(ThursdayOf(Remapped(n)))) {
      TwoDigitThursday(ThursdayOf(Remapped(n)));
    }
  }

  lemma {:induction false} YearStartDay(y: int)
    ensures MakeDay(y, 0, 1) == DayFromYear(y)
  {
  }

  /** A remapped date, and the Thursday of its week, lie between 1899 and 2000. */
  lemma RemapLandsLate(c: Civil)
    requires c.Valid() && TwoDigit(c.y)
    ensures YearOf(ThursdayOf(MakeDay(JsYear(c.y), c.m - 1, c.d))) > 99
  {
    var n := MakeDay(JsYear(c.y), c.m - 1, c.d);
    DayOfInRange(Civil(JsYear(c.y), c.m, c.d));
    assert n >= DayFromYear(JsYear(c.y)) by {
      if c.m > 1 { MonthsOrdered(IsLeap(JsYear(c.y)), 0, c.m - 1); }
    }
    var y := YearOf(ThursdayOf(n));
    if y <= 99 {
      YearsOrdered(y + 1, JsYear(c.y));
    }
  }

  /** A day lies in one ISO week only. */
  lemma {:induction false} IsoWeekUnique(n: int, y: int, w: int, z: int, x: int)
    requires InIsoWeek(n, y, w) && InIsoWeek(n, z, x)
    ensures y == z && w == x
  {
    if y < z {
      WeekOnesOrdered(y + 1, z);
    } else if z < y {
      WeekOnesOrdered(z + 1, y);
    }
  }

  lemma WeekOnesOrdered(y: int, z: int)
    requires y <= z
    ensures WeekOneMonday(y) <= WeekOneMonday(z)
  {
    if y < z {
      YearsOrdered(y, z);
    }
  }

  // ---- when a two-digit year gives the right week

  /** From a date of the years 0 to 99 to the same month and day 1900 years on, from March of year 0: one day
      more than whole weeks. The year 1900 lacks the leap day of year 0, so before that it is one day more. */
  const SHIFT := 693960

  /** 1 March of year 0. */
  const MARCH := -719468

  predicate StartsOnThursday(y: int) { Weekday(DayFromYear(y)) == THURSDAY }

  /** A date of the years 0 to 99 whose week keeps its number 1900 years on: before March of year 0 a Monday to
      Friday; later a Sunday exactly in a year of its Thursday that started on a Thursday and has not ended, and any
      other day exactly when that year did not start on a Thursday. */
  predicate KeepsWeek(n: int) {
    var y := YearOf(ThursdayOf(n));
    if n < MARCH then 1 <= Weekday(n) <= 5
    else if Weekday(n) == 0 then StartsOnThursday(y) && YearOf(n) == y
    else !StartsOnThursday(y)
  }

  predicate RightWeek(n: int) { Plain(n) || (TwoDigit(YearOf(n)) && KeepsWeek(n)) }

  lemma {:induction false} YearShift(y: int)
    requires 1 <= y <= 100
    ensures DayFromYear(y + 1900) == DayFromYear(y) + SHIFT
  {
    DayFromYearClosed(y);
    DayFromYearClosed(y + 1900);
    ClosedShift(y);
  }

  lemma ClosedShift(y: int)
    requires 1 <= y <= 100
    ensures (y - 69) / 4 == (y - 1969) / 4 + 475 && (y - 1) / 100 == (y - 1901) / 100 + 19
    ensures (y + 299) / 400 == (y - 1601) / 400 + 4
  {
  }

  lemma {:induction false} YearZero(y: int)
    requires -1 < y < 1
    ensures DayFromYear(y) == MARCH - 60 && DayFromYear(y + 1) == DayFromYear(y) + 366
    ensures DayFromYear(y - 1) == DayFromYear(y) - 365
    ensures DayFromYear(y + 1900) == DayFromYear(y) + SHIFT + 1
  {
    DayFromYearClosed(y);
    DayFromYearClosed(y + 1900);
    YearStep(y);
    YearStep(y - 1);
  }

  /** A year is negative, zero or later as its days are. */
  lemma YearSign(n: int, y: int, zero: int)
    requires y == YearOf(n) && -1 < zero < 1
    ensures y >= 0 <==> MARCH - 60 <= n
    ensures y >= 1 <==> MARCH + 306 <= n
  {
    YearZero(zero);
    if y + 1 < zero { YearsOrdered(y + 1, zero); }
    if zero < y { YearsOrdered(zero, y); }
    if zero + 1 < y { YearsOrdered(zero + 1, y); }
  }

  lemma {:induction false} RemapShift(n: int)
    requires TwoDigit(YearOf(n))
    ensures Remapped(n) == n + if n < MARCH then SHIFT + 1 else SHIFT
  {
    var c := CivilOf(n);
    DayInverts(n);
    YearSign(n, c.y, 0);
    RemappedCivil(c);
  }

  lemma RemappedCivil(c: Civil)
    requires c.Valid() && TwoDigit(c.y) && (c.y >= 1 ==> MARCH <= DayOf(c))
    ensures DayOf(Civil(c.y + 1900, c.m, c.d)) == DayOf(c) + if DayOf(c) < MARCH then SHIFT + 1 else SHIFT
  {
    if c.y < 1 {
      YearZero(c.y);
      SameMonthZero(c);
    } else {
      YearShift(c.y);
      SameLeap(c.y);
    }
  }

  lemma SameLeap(y: int)
    requires 1 <= y <= 99
    ensures IsLeap(y + 1900) == IsLeap(y)
  {
  }

  lemma SameMonthZero(c: Civil)
    requires -1 < c.y < 1 && c.Valid()
    ensures IsLeap(c.y) && !IsLeap(c.y + 1900)
    ensures DaysBefore(true, c.m - 1) - DaysBefore(false, c.m - 1)
         == if DaysBefore(true, c.m - 1) + c.d - 1 < 60 then 0 else 1
  {
  }

  /** Where the code finds the Thursday: a day before or six days after the shifted one. */
  lemma ThursdayShifted(n: int, early: bool)
    ensures var late := if early then Weekday(n) in {0, 6} else Weekday(n) == 0;
            ThursdayOf(n + if early then SHIFT + 1 else SHIFT) == ThursdayOf(n) + SHIFT + if late then 6 else -1
  {
    var k := if early then 2 else 1;
    assert SHIFT == 7 * 99137 + 1;
    WeekdayShift(n, 99137, k);
  }

  lemma WeekdayShift(n: int, weeks: int, k: int)
    ensures Weekday(n + 7 * weeks + k) == (Weekday(n) + k) % 7
  {
    assert (n + 4 + k + 7 * weeks) % 7 == (n + 4 + k) % 7;
    assert n + 4 + k == (n + 4) % 7 + k + 7 * ((n + 4) / 7);
  }

  lemma {:induction false} ThursdayInYear(t: int, y: int)
    requires Weekday(t) == THURSDAY
    ensures StartsOnThursday(y) <==> (t - DayFromYear(y)) % 7 == 0
  {
    var d := DayFromYear(y);
    assert t + 4 == 7 * ((t + 4) / 7) + 4;
    assert d + 4 == 7 * ((d + 4) / 7) + Weekday(d);
  }

  /** Six of seven days: the Thursday is found a day early, which matters only for the first day of its week count. */
  lemma FoundEarlier(t: int, y: int)
    requires 1 <= y <= 100 && DayFromYear(y) <= t < DayFromYear(y + 1) && Weekday(t) == THURSDAY
    ensures WeeksBegun(t + SHIFT - 1) == (t - DayFromYear(y) + 7) / 7 <==> !StartsOnThursday(y)
  {
    YearShift(y);
    YearStep(y);
    ThursdayInYear(t, y);
    var k := t - DayFromYear(y);
    if k == 0 {
      YearStep(y + 1899);
      WeeksBegunIn(t + SHIFT - 1, y + 1899);
    } else {
      YearStep(y + 1900);
      WeeksBegunIn(t + SHIFT - 1, y + 1900);
      CountBack(k);
    }
  }

  lemma CountBack(k: int)
    ensures (k - 1 + 7) / 7 == (k + 7) / 7 <==> k % 7 != 0
  {
  }

  /** Sundays: the Thursday found is that of the next week, six days on. */
  lemma FoundLater(t: int, y: int)
    requires 1 <= y <= 99 && DayFromYear(y) <= t < DayFromYear(y + 1) && Weekday(t) == THURSDAY
    ensures WeeksBegun(t + SHIFT + 6) == (t - DayFromYear(y) + 7) / 7
       <==> StartsOnThursday(y) && t + 3 < DayFromYear(y + 1)
  {
    var k, length := t - DayFromYear(y), DaysInYear(y);
    YearStep(y);
    ThursdayInYear(t, y);
    CountLater(t, y, k, length);
    CountOn(k);
    if k + 6 >= length {
      assert (k + 6 - length + 7) / 7 == 1 && (k + 7) / 7 >= 2;
    }
  }

  lemma {:induction false} CountLater(t: int, y: int, k: int, length: int)
    requires 1 <= y <= 99 && length == DaysInYear(y) && k == t - DayFromYear(y) && 0 <= k < length
    ensures WeeksBegun(t + SHIFT + 6) == if k + 6 < length then (k + 6 + 7) / 7 else (k + 6 - length + 7) / 7
  {
    YearShift(y);
    YearShift(y + 1);
    YearStep(y);
    if k + 6 < length {
      WeeksBegunIn(t + SHIFT + 6, y + 1900);
    } else {
      YearStep(y + 1901);
      WeeksBegunIn(t + SHIFT + 6, y + 1901);
    }
  }

  lemma CountOn(k: int)
    ensures (k + 6 + 7) / 7 == (k + 7) / 7 <==> k % 7 == 0
  {
  }

  /** Thursdays of year 0, which started on a Saturday. */
  lemma InYearZero(t: int, y: int)
    requires -1 < y < 1 && DayFromYear(y) <= t < DayFromYear(y + 1) && Weekday(t) == THURSDAY
    ensures !StartsOnThursday(y)
    ensures WeeksBegun(t + SHIFT - 1) == (t - DayFromYear(y) + 7) / 7
    ensures WeeksBegun(t + SHIFT + 6) != (t - DayFromYear(y) + 7) / 7
  {
    YearZero(y);
    FifthOfWeek(t - DayFromYear(y), t);
    ZeroEarlier(t, y);
    ZeroLater(t, y);
  }

  lemma ZeroEarlier(t: int, y: int)
    requires -1 < y < 1 && DayFromYear(y) + 2 <= t < DayFromYear(y + 1)
    ensures WeeksBegun(t + SHIFT - 1) == (t - DayFromYear(y) - 2 + 7) / 7
  {
    YearZero(y);
    YearStep(y + 1900);
    WeeksBegunIn(t + SHIFT - 1, y + 1900);
  }

  lemma ZeroLater(t: int, y: int)
    requires -1 < y < 1 && DayFromYear(y) <= t < DayFromYear(y + 1)
    ensures WeeksBegun(t + SHIFT + 6)
         == if t - DayFromYear(y) + 5 < 365 then (t - DayFromYear(y) + 5 + 7) / 7 else 1
  {
    YearZero(y);
    YearStep(y + 1900);
    YearStep(y + 1901);
    if t - DayFromYear(y) + 5 < 365 {
      WeeksBegunIn(t + SHIFT + 6, y + 1900);
    } else {
      WeeksBegunIn(t + SHIFT + 6, y + 1901);
    }
  }

  lemma FifthOfWeek(k: int, t: int)
    requires k == t + 719528 && Weekday(t) == THURSDAY
    ensures k % 7 == 5
    ensures (k - 2 + 7) / 7 == (k + 7) / 7 && (k + 5 + 7) / 7 != (k + 7) / 7
  {
    assert t == 7 * ((t + 4) / 7);
    assert k == 7 * ((t + 4) / 7 + 102789) + 5;
  }

  /** The Saturday and Sunday that open year 0 lie in week 52 and are given week 1. */
  lemma OpeningYearZero(t: int, y: int)
    requires -1 < y < 1 && t == DayFromYear(y) - 2
    ensures WeeksBegun(t + SHIFT + 6) == 1 && YearOf(t) == y - 1 && (t - DayFromYear(y - 1) + 7) / 7 == 52
  {
    YearZero(y);
    YearIs(t, y - 1);
    YearStep(y + 1900);
    WeeksBegunIn(t + SHIFT + 6, y + 1900);
  }

  /** The week number kept, before March of year 0. */
  lemma KeptEarly(n: int, t: int, y: int)
    requires t == ThursdayOf(n) && MARCH - 60 <= n < MARCH && -1 < y < 1
    ensures ComputedWeek(n) == (t - DayFromYear(YearOf(t)) + 7) / 7 <==> 1 <= Weekday(n) <= 5
  {
    FoundEarly(n, y);
    if t < MARCH - 60 {
      OpeningDays(n, t);
      OpeningWeek(t, y);
    } else {
      ThursdayNear(n);
      ZeroWeek(t, y);
    }
  }

  lemma OpeningWeek(t: int, y: int)
    requires -1 < y < 1 && t == MARCH - 62
    ensures WeeksBegun(t + SHIFT + 6) == 1 && (t - DayFromYear(YearOf(t)) + 7) / 7 == 52
  {
    YearZero(y);
    OpeningYearZero(t, y);
  }

  lemma ZeroWeek(t: int, y: int)
    requires -1 < y < 1 && MARCH - 60 <= t < MARCH + 306 && Weekday(t) == THURSDAY
    ensures WeeksBegun(t + SHIFT - 1) == (t - DayFromYear(YearOf(t)) + 7) / 7
    ensures WeeksBegun(t + SHIFT + 6) != (t - DayFromYear(YearOf(t)) + 7) / 7
  {
    YearZero(y);
    YearIs(t, y);
    InYearZero(t, y);
  }

  lemma FoundEarly(n: int, y: int)
    requires MARCH - 60 <= n < MARCH && -1 < y < 1
    ensures ComputedWeek(n) == WeeksBegun(ThursdayOf(n) + SHIFT + if Weekday(n) in {0, 6} then 6 else -1)
  {
    YearZero(y);
    YearIs(n, y);
    RemapShift(n);
    ThursdayShifted(n, true);
  }

  lemma OpeningDays(n: int, t: int)
    requires t == ThursdayOf(n) && t < MARCH - 60 <= n
    ensures t == MARCH - 62 && Weekday(n) in {0, 6}
  {
    ThursdayNear(n);
  }

  lemma KeptLater(n: int, t: int)
    requires t == ThursdayOf(n) && TwoDigit(YearOf(n)) && MARCH <= n
    ensures ComputedWeek(n) == (t - DayFromYear(YearOf(t)) + 7) / 7 <==> KeepsWeek(n)
  {
    var y := YearOf(t);
    RemapShift(n);
    ThursdayShifted(n, false);
    ThursdayNear(n);
    ThursdayYear(n, t);
    if y < 1 {
      InYearZero(t, y);
    } else if Weekday(n) == 0 {
      SundayOf(n, t);
      FoundLater(t, y);
      SundayYear(n, t, y);
    } else {
      FoundEarlier(t, y);
    }
  }

  lemma ThursdayYear(n: int, t: int)
    requires n - 3 <= t <= n + 3 && TwoDigit(YearOf(n)) && MARCH <= n
    ensures 0 <= YearOf(t) <= 100 && (t <= n ==> YearOf(t) <= 99)
  {
    YearSign(t, YearOf(t), 0);
    YearsNear(n, t, YearOf(n), YearOf(t));
  }

  lemma YearsNear(n: int, t: int, y: int, z: int)
    requires t <= n + 3 && y == YearOf(n) && z == YearOf(t)
    ensures z <= y + 1 && (t <= n ==> z <= y)
  {
    if z > y + 1 {
      YearsOrdered(y + 1, z);
    }
  }

  lemma SundayOf(n: int, t: int)
    requires t == ThursdayOf(n) && Weekday(n) == 0
    ensures t == n - 3
  {
  }

  lemma SundayYear(n: int, t: int, y: int)
    requires t == n - 3 && y == YearOf(t)
    ensures YearOf(n) == y <==> t + 3 < DayFromYear(y + 1)
  {
    if t + 3 < DayFromYear(y + 1) {
      YearIs(n, y);
    }
  }

  /** Exactly when the number is that of the date's own ISO week: outside the years 0 to 99 always, unless only
      the Thursday falls in them; inside them exactly on the dates whose week keeps its number 1900 years on. */
  lemma IsoWeekRight(n: int)
    ensures InIsoWeek(n, YearOf(ThursdayOf(n)), ComputedWeek(n)) <==> RightWeek(n)
  {
    IsoWeekExactly(n);
    if TwoDigit(YearOf(n)) {
      TwoDigitRight(n, ThursdayOf(n), ComputedWeek(n));
    }
  }

  lemma TwoDigitRight(n: int, t: int, w: int)
    requires TwoDigit(YearOf(n)) && t == ThursdayOf(n) && w == ComputedWeek(n)
    ensures InIsoWeek(n, YearOf(t), w) <==> KeepsWeek(n)
  {
    YearSign(n, YearOf(n), 0);
    if n < MARCH {
      KeptEarly(n, t, 0);
    } else {
      KeptLater(n, t);
    }
    OneNumber(n, YearOf(t), w);
  }

  lemma {:induction false} OneNumber(n: int, y: int, w: int)
    requires y == YearOf(ThursdayOf(n))
    ensures InIsoWeek(n, y, w) <==> w == (ThursdayOf(n) - DayFromYear(y) + 7) / 7
  {
    WeekFromStart(n);
    if InIsoWeek(n, y, w) {
      IsoWeekUnique(n, y, w, y, (ThursdayOf(n) - DayFromYear(y) + 7) / 7);
    }
  }

  /** Week w is the week of day n, in the year of its Thursday. */
  predicate IsWeekOf(n: int, w: int) { InIsoWeek(n, YearOf(ThursdayOf(n)), w) }

  /** The week number as the distance from the first Thursday. */
  lemma WeekFromThursday(n: int, t: int, y: int, w: int)
    requires t == ThursdayOf(n) && y == YearOf(t) && InIsoWeek(n, y, w)
    ensures t == FirstThursday(y) + 7 * (w - 1)
    ensures 1 <= w <= 53
  {
    ThursdayNear(n);
    FirstThursdayIsFirst(y, t);
    SameWeek(t - FirstThursday(y), n - t, w);
    YearStep(y);
  }

  lemma SameWeek(k: int, d: int, w: int)
    requires k % 7 == 0 && -3 <= d <= 3 && -3 + 7 * (w - 1) <= k + d < -3 + 7 * w
    ensures k == 7 * (w - 1)
  {
  }

  /** A week later is the next week of the same year, or week 1 of the next year. */
  lemma NextWeek(t: int, y: int, w: int, z: int, x: int)
    requires Weekday(t) == THURSDAY && YearOf(t) == y && YearOf(t + 7) == z
    requires t == FirstThursday(y) + 7 * (w - 1) && t + 7 == FirstThursday(z) + 7 * (x - 1)
    ensures x in {1, w + 1}
  {
    if z != y {
      FirstThursdayIsFirst(z, t + 7);
      FirstThursdayIsFirst(z, t);
      if t < DayFromYear(z) {
        assert t + 7 - FirstThursday(z) == 0;
      } else if DayFromYear(z + 1) <= t {
        assert false;
      } else {
        YearIs(t, z);
      }
    }
  }

  lemma ThursdayShift(n: int)
    ensures ThursdayOf(n + 7) == ThursdayOf(n) + 7
  {
  }

  /** The number lies in 1..53 except when the Thursday alone falls in the years 0 to 99. */
  lemma NumberInRange(n: int)
    ensures 1 <= ComputedWeek(n) <= 53 <==> TwoDigit(YearOf(n)) || !TwoDigit(YearOf(ThursdayOf(n)))
  {
    RemappedIs(n);
    var r := Remapped(n);
    var t := ThursdayOf(r);
    if TwoDigit(YearOf(t)) {
      TwoDigitThursday(t);
    } else {
      WeeksFromYearStart(r);
      WeekFromThursday(r, t, YearOf(t), WeeksBegun(t));
    }
  }

  /** Wherever the number is right: it lies in 1..53; a Monday-to-Sunday week has one number; the week of the year's
      first Thursday is week 1; every other week has the number of the week before plus one. */
  lemma WeekNumbersRun(n: int, k: int)
    requires RightWeek(n) && RightWeek(k)
    ensures 1 <= ComputedWeek(n) <= 53
    ensures ThursdayOf(n) == ThursdayOf(k) ==> ComputedWeek(n) == ComputedWeek(k)
    ensures ThursdayOf(n) == FirstThursday(YearOf(ThursdayOf(n))) <==> ComputedWeek(n) == 1
    ensures k == n + 7 && ComputedWeek(k) != 1 ==> ComputedWeek(k) == ComputedWeek(n) + 1
  {
    IsoWeekRight(n);
    IsoWeekRight(k);
    WeeksRun(n, ComputedWeek(n), k, ComputedWeek(k));
  }

  lemma WeeksRun(n: int, w: int, k: int, x: int)
    requires IsWeekOf(n, w) && IsWeekOf(k, x)
    ensures 1 <= w <= 53
    ensures ThursdayOf(n) == ThursdayOf(k) ==> w == x
    ensures ThursdayOf(n) == FirstThursday(YearOf(ThursdayOf(n))) <==> w == 1
    ensures k == n + 7 && x != 1 ==> x == w + 1
  {
    WeekFromThursday(n, ThursdayOf(n), YearOf(ThursdayOf(n)), w);
    WeekFromThursday(k, ThursdayOf(k), YearOf(ThursdayOf(k)), x);
    if k == n + 7 {
      ThursdayShift(n);
      ThursdayNear(n);
      NextWeek(ThursdayOf(n), YearOf(ThursdayOf(n)), w, YearOf(ThursdayOf(k)), x);
    }
  }

  /** Saturday 1 January 5 lies in week 53 of year 4; the code answers for 1 January 1905, a Sunday in
      week 52. */
  lemma {:induction false} TwoDigitYearGoesWrong(n: int, y: int)
    requires y == 5 && n == DayFromYear(y)
    ensures InIsoWeek(n, y - 1, 53) && ComputedWeek(n) == 52
  {
    NewYearWeek(n, y);
    RemappedNewYear(n, y);
    var r := Remapped(n);
    WeekOf1905(r, y + 1899);
  }

  lemma {:induction false} NewYearWeek(n: int, y: int)
    requires y == 5 && n == DayFromYear(y)
    ensures InIsoWeek(n, y - 1, 53)
  {
    WeekOneOf(y - 1, -718067);
    WeekOneOf(y, -717701);
    assert Weekday(-718067) == 4 && Weekday(-717701) == 6;
  }

  lemma RemappedDate(c: Civil)
    requires c.Valid() && TwoDigit(c.y)
    ensures Remapped(DayOf(c)) == DayOf(Civil(c.y + 1900, c.m, c.d))
  {
    CivilInverts(c);
  }

  lemma RemappedNewYear(n: int, y: int)
    requires n == DayFromYear(y) && TwoDigit(y)
    ensures Remapped(n) == DayFromYear(y + 1900)
  {
    var c := Civil(y, 1, 1);
    NewYearDay(c);
    NewYearDay(Civil(y + 1900, 1, 1));
    RemappedDate(c);
  }

  lemma NewYearDay(c: Civil)
    requires c.m == 1 && c.d == 1
    ensures c.Valid() && DayOf(c) == DayFromYear(c.y)
  {
    DayOfInRange(c);
  }

  lemma {:induction false} WeekOneOf(y: int, start: int)
    requires start == 365 * (y - 1970) + (y - 1969) / 4 - (y - 1901) / 100 + (y - 1601) / 400
    ensures DayFromYear(y) == start && WeekOneMonday(y) == start + (THURSDAY - Weekday(start)) % 7 - 3
  {
    DayFromYearClosed(y);
  }

  lemma WeekOf1905(r: int, y: int)
    requires y == 1904 && r == DayFromYear(y + 1)
    ensures WeeksBegun(ThursdayOf(r)) == 52
  {
    DayFromYearClosed(y);
    DayFromYearClosed(y + 1);
    assert ThursdayOf(r) == -23744;
    WeeksBegunIn(-23744, y);
  }

  lemma WeeksBegunIn(t: int, y: int)
    requires DayFromYear(y) <= t < DayFromYear(y + 1) && !TwoDigit(y)
    ensures WeeksBegun(t) == (t - DayFromYear(y) + 7) / 7
  {
    YearIs(t, y);
    WeeksBegunIs(t);
  }
}
