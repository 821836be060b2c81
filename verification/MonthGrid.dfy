/** The month grid of a date picker: rows of seven cells, padded with empty cells. */
module MonthGrid {
  import opened JsStrings
  import opened Text
  import opened Calendar
  import opened DateKeys

  type Cell = Option<string>

  function FirstDay(year: int, month: int): int { MakeDay(JsYear(year), month - 1, 1) }

  /** The day before the first of the next month gives the length. */
  function DaysInMonth(year: int, month: int): (r: int)
    ensures r >= 1
  {
    CivilOf(MakeDay(JsYear(year), month, 0)).d
  }

  /** The month that a year and a possibly overflowing month name, as its first date. */
  function MonthNamed(y: int, month: int): (c: Civil)
    ensures 1 <= c.m <= 12 && c.d == 1 && 12 * c.y + c.m == 12 * y + month
    decreases if month < 1 then 13 - month else month
  {
    if month < 1 then MonthNamed(y - 1, month + 12)
    else if month > 12 then MonthNamed(y + 1, month - 12)
    else Civil(y, month, 1)
  }

  lemma {:induction false} MonthNamedDays(y: int, month: int)
    ensures var c := MonthNamed(y, month);
            MakeDay(y, month - 1, 1) == DayOf(c)
            && MakeDay(y, month, 0) == DayOf(Civil(c.y, c.m, MonthLength(c.y, c.m)))
    decreases if month < 1 then 13 - month else month
  {
    if month < 1 {
      MonthNamedDays(y - 1, month + 12);
      MonthOverflow(y - 1, month + 12, 0);
    } else if month > 12 {
      MonthNamedDays(y + 1, month - 12);
    } else {
      YearStep(y);
      DayOfInRange(Civil(y, month, MonthLength(y, month)));
    }
  }

  /** Twelve months make a year. */
  lemma {:induction false} MonthOverflow(y: int, m: int, d: int)
    ensures MakeDay(y, m, d) == MakeDay(y + 1, m - 12, d)
    decreases if m < 0 then 12 - m else m
  {
    if m < 0 {
      MonthOverflow(y - 1, m + 12, d);
    }
  }

  lemma {:induction false} MonthSpan(year: int, month: int)
    ensures var c := MonthNamed(JsYear(year), month);
            FirstDay(year, month) == DayOf(c) && DaysInMonth(year, month) == MonthLength(c.y, c.m)
    ensures var c := MonthNamed(JsYear(year), month);
            DaysInMonth(year, month)
            == if c.m in {1, 3, 5, 7, 8, 10, 12} then 31 else if c.m in {4, 6, 9, 11} then 30
               else if c.y % 4 == 0 && (c.y % 100 != 0 || c.y % 400 == 0) then 29 else 28
  {
    var c := MonthNamed(JsYear(year), month);
    MonthLengthIs(c.y, c.m);
    MonthNamedDays(JsYear(year), month);
    CivilInverts(Civil(c.y, c.m, MonthLength(c.y, c.m)));
  }

  // ---- the grid

  /** What position k shows, counting cells row by row, when offset empty cells come first. */
  function CellAt(year: int, month: int, offset: int, length: int, k: int): Cell {
    if offset <= k < offset + length then Some(ToDateKey(year, month, k - offset + 1)) else None
  }

  predicate IsGrid(weeks: seq<seq<Cell>>, year: int, month: int, offset: int, length: int) {
    && 7 * (|weeks| - 1) <= offset + length - 1 < 7 * |weeks|
    && forall r | 0 <= r < |weeks| :: IsRow(weeks[r], year, month, offset, length, 7 * r)
  }

  /** Seven cells, for the positions from k. */
  predicate IsRow(row: seq<Cell>, year: int, month: int, offset: int, length: int, k: int) {
    |row| == 7 && forall c | 0 <= c < 7 :: row[c] == CellAt(year, month, offset, length, k + c)
  }

  /** The weekday of the first of the month, counted from the week start. */
  function Offset(year: int, month: int, weekStartsOn: int): (c: int)
    ensures 0 <= c < 7
  {
    Column(Weekday(FirstDay(year, month)), weekStartsOn)
  }

  predicate IsMonthGrid(weeks: seq<seq<Cell>>, year: int, month: int, weekStartsOn: int) {
    IsGrid(weeks, year, month, Offset(year, month, weekStartsOn), DaysInMonth(year, month))
  }

  method BuildMonthGrid(year: int, month: int, weekStartsOn: int) returns (weeks: seq<seq<Cell>>)
    requires weekStartsOn in {0, 1}
    ensures IsMonthGrid(weeks, year, month, weekStartsOn)
  {
    var firstDate := new JsDate(year, month - 1, 1);
    var offset := Column(firstDate.GetDay(), weekStartsOn);
    weeks := FillGrid(year, month, offset, DaysInMonth(year, month));
  }

  /** The column of a weekday, counted from the week start. */
  function Column(weekday: int, weekStartsOn: int): (c: int)
    ensures 0 <= c < 7
  {
    (weekday - weekStartsOn + 7) % 7
  }

  lemma OffsetIs(first: int, weekStartsOn: int)
    ensures Column(Weekday(first), weekStartsOn) == first - WeekStart(first, weekStartsOn)
  {
  }

  /** Offset padding, the days, padding up to whole weeks; then cut into rows. */
  method FillGrid(year: int, month: int, offset: nat, totalDays: nat) returns (weeks: seq<seq<Cell>>)
    requires totalDays > 0
    ensures IsGrid(weeks, year, month, offset, totalDays)
  {
    var days := seq(totalDays, i => Some(ToDateKey(year, month, i + 1)));
    var nones := seq(offset, _ => None);
    var padded := PadToWeeks(nones + days);
    weeks := CutIntoRows(padded);
    RowsOfDays(year, month, nones, days, padded, weeks);
  }

  lemma RowsOfDays(year: int, month: int, nones: seq<Cell>, days: seq<Cell>, cells: seq<Cell>, weeks: seq<seq<Cell>>)
    requires 7 * |weeks| == |cells| && |nones + days| <= |cells| < |nones + days| + 7
    requires forall i :: 0 <= i < |nones| ==> nones[i] == None
    requires forall i :: 0 <= i < |days| ==> days[i] == Some(ToDateKey(year, month, i + 1))
    requires forall i :: 0 <= i < |cells| ==> cells[i] == if i < |nones + days| then (nones + days)[i] else None
    requires forall r :: 0 <= r < |weeks| ==> weeks[r] == cells[7 * r..7 * r + 7]
    ensures days != [] ==> IsGrid(weeks, year, month, |nones|, |days|)
  {
    forall r | 0 <= r < |weeks| ensures IsRow(weeks[r], year, month, |nones|, |days|, 7 * r) {
      RowOfDays(year, month, nones, days, cells, 7 * r);
    }
  }

  lemma RowOfDays(year: int, month: int, nones: seq<Cell>, days: seq<Cell>, cells: seq<Cell>, k: nat)
    requires k + 7 <= |cells|
    requires forall i :: 0 <= i < |nones| ==> nones[i] == None
    requires forall i :: 0 <= i < |days| ==> days[i] == Some(ToDateKey(year, month, i + 1))
    requires forall i :: 0 <= i < |cells| ==> cells[i] == if i < |nones + days| then (nones + days)[i] else None
    ensures IsRow(cells[k..k + 7], year, month, |nones|, |days|, k)
  {
    var row := cells[k..k + 7];
    forall c | 0 <= c < 7 ensures row[c] == CellAt(year, month, |nones|, |days|, k + c) {
      assert row[c] == cells[k + c];
      var i := k + c - |nones|;
      if 0 <= i < |days| {
        assert (nones + days)[k + c] == days[i];
      }
    }
  }

  method PadToWeeks(days: seq<Cell>) returns (cells: seq<Cell>)
    ensures |cells| % 7 == 0 && |days| <= |cells| < |days| + 7
    ensures forall i :: 0 <= i < |cells| ==> cells[i] == if i < |days| then days[i] else None
  {
    cells := days;
    while |cells| % 7 != 0
      invariant |days| <= |cells| <= RoundUp(|days|)
      invariant forall i :: 0 <= i < |cells| ==> cells[i] == if i < |days| then days[i] else None
      decreases RoundUp(|days|) - |cells|
    {
      cells := cells + [None];
    }
  }

  method CutIntoRows(cells: seq<Cell>) returns (weeks: seq<seq<Cell>>)
    requires |cells| % 7 == 0
    ensures 7 * |weeks| == |cells|
    ensures forall r :: 0 <= r < |weeks| ==> weeks[r] == cells[7 * r..7 * r + 7]
  {
    weeks := [];
    var index := 0;
    while index < |cells|
      invariant 0 <= index <= |cells| && index == 7 * |weeks|
      invariant forall r :: 0 <= r < |weeks| ==> weeks[r] == cells[7 * r..7 * r + 7]
    {
      weeks := weeks + [cells[index..index + 7]];
      index := index + 7;
    }
  }

  function RoundUp(n: nat): (r: nat)
    ensures n <= r < n + 7 && r % 7 == 0
  {
    (n + 6) / 7 * 7
  }

  // ---- what the grid shows

  lemma KeysOfMonthDiffer(year: int, month: int, d: int, e: int)
    requires 1 <= d <= 31 && 1 <= e <= 31 && ToDateKey(year, month, d) == ToDateKey(year, month, e)
    ensures d == e
  {
    Pad2Value(d);
    Pad2Value(e);
    var front := Decimal(year) + "-" + Pad2(month) + "-";
    assert ToDateKey(year, month, d)[|front|..] == Pad2(d);
    assert ToDateKey(year, month, e)[|front|..] == Pad2(e);
  }

  predicate ShowsADay(row: seq<Cell>) { exists c | 0 <= c < |row| :: row[c].Some? }

  /** Every row shows a day: the first row at the offset, the others at their start. */
  lemma NoEmptyRow(weeks: seq<seq<Cell>>, year: int, month: int, offset: int, length: int)
    requires IsGrid(weeks, year, month, offset, length) && 0 <= offset < 7 && 28 <= length <= 31
    ensures 4 <= |weeks| <= 6
    ensures forall r :: 0 <= r < |weeks| ==> |weeks[r]| == 7 && ShowsADay(weeks[r])
  {
    forall r | 0 <= r < |weeks| ensures ShowsADay(weeks[r]) {
      var c := if r == 0 then offset else 0;
      assert weeks[r][c] == CellAt(year, month, offset, length, 7 * r + c);
    }
  }

  /** A cell stands at one position alone. */
  predicate OnlyAt(weeks: seq<seq<Cell>>, x: Cell, k: int) {
    (forall r | 0 <= r < |weeks| :: |weeks[r]| == 7)
    && forall r, c | 0 <= r < |weeks| && 0 <= c < 7 :: weeks[r][c] == x <==> 7 * r + c == k
  }

  /** Each day of the month has one cell, and the cells come in day order. */
  lemma OneCellADay(weeks: seq<seq<Cell>>, year: int, month: int, offset: int, length: int, d: int)
    requires IsGrid(weeks, year, month, offset, length) && 1 <= d <= length <= 31
    ensures OnlyAt(weeks, Some(ToDateKey(year, month, d)), offset + d - 1)
  {
    forall r, c | 0 <= r < |weeks| && 0 <= c < 7
      ensures weeks[r][c] == Some(ToDateKey(year, month, d)) <==> 7 * r + c == offset + d - 1
    {
      CellOfRow(weeks, year, month, offset, length, r, c);
      ShowsOneDay(year, month, offset, length, 7 * r + c, d);
    }
    forall r | 0 <= r < |weeks| ensures |weeks[r]| == 7 {
      assert IsRow(weeks[r], year, month, offset, length, 7 * r);
    }
  }

  lemma ShowsOneDay(year: int, month: int, offset: int, length: int, k: int, d: int)
    requires 1 <= d <= length <= 31
    ensures CellAt(year, month, offset, length, k) == Some(ToDateKey(year, month, d)) <==> k == offset + d - 1
  {
    var e := k - offset + 1;
    if 1 <= e <= length && ToDateKey(year, month, d) == ToDateKey(year, month, e) {
      KeysOfMonthDiffer(year, month, d, e);
    }
  }

  /** The month grid of every year, month and week start has four to six rows of seven cells, none of
      them all padding, and shows a month of 28 to 31 days. */
  lemma MonthGridShape(weeks: seq<seq<Cell>>, year: int, month: int, weekStartsOn: int)
    requires weekStartsOn in {0, 1} && IsMonthGrid(weeks, year, month, weekStartsOn)
    ensures 4 <= |weeks| <= 6 && 28 <= DaysInMonth(year, month) <= 31
    ensures forall r :: 0 <= r < |weeks| ==> |weeks[r]| == 7 && ShowsADay(weeks[r])
  {
    MonthSpan(year, month);
    NoEmptyRow(weeks, year, month, Offset(year, month, weekStartsOn), DaysInMonth(year, month));
  }

  lemma MonthLengths(year: int, month: int)
    ensures 28 <= DaysInMonth(year, month) <= 31
  {
    MonthSpan(year, month);
  }

  /** Each day of the month has exactly one cell, in day order, and its column is its weekday counted
      from the week start. */
  lemma DayPlace(weeks: seq<seq<Cell>>, year: int, month: int, weekStartsOn: int, first: int, d: int)
    requires weekStartsOn in {0, 1} && IsMonthGrid(weeks, year, month, weekStartsOn)
    requires first == FirstDay(year, month) && 1 <= d <= DaysInMonth(year, month)
    ensures exists r, c :: 0 <= r < |weeks| && 0 <= c < 7 && weeks[r][c] == Some(ToDateKey(year, month, d))
    ensures forall r, c :: 0 <= r < |weeks| && 0 <= c < 7 && weeks[r][c] == Some(ToDateKey(year, month, d)) ==>
              c == Column(Weekday(first + d - 1), weekStartsOn)
              && 7 * r + c == Offset(year, month, weekStartsOn) + d - 1
  {
    MonthLengths(year, month);
    GridPlace(weeks, year, month, weekStartsOn, first, Offset(year, month, weekStartsOn), DaysInMonth(year, month), d);
  }

  lemma GridPlace(weeks: seq<seq<Cell>>, year: int, month: int, weekStartsOn: int,
                  first: int, offset: int, length: int, d: int)
    requires IsGrid(weeks, year, month, offset, length) && 1 <= d <= length <= 31
    requires offset == Column(Weekday(first), weekStartsOn)
    ensures exists r, c :: 0 <= r < |weeks| && 0 <= c < 7 && weeks[r][c] == Some(ToDateKey(year, month, d))
    ensures forall r, c :: 0 <= r < |weeks| && 0 <= c < 7 && weeks[r][c] == Some(ToDateKey(year, month, d)) ==>
              c == Column(Weekday(first + d - 1), weekStartsOn) && 7 * r + c == offset + d - 1
  {
    OneCellADay(weeks, year, month, offset, length, d);
    CellPlace(weeks, Some(ToDateKey(year, month, d)), weekStartsOn, first, offset, d - 1);
  }

  lemma CellPlace(weeks: seq<seq<Cell>>, x: Cell, weekStartsOn: int, first: int, offset: int, i: nat)
    requires OnlyAt(weeks, x, offset + i) && offset + i < 7 * |weeks|
    requires offset == Column(Weekday(first), weekStartsOn)
    ensures exists r, c :: 0 <= r < |weeks| && 0 <= c < 7 && weeks[r][c] == x
    ensures forall r, c :: 0 <= r < |weeks| && 0 <= c < 7 && weeks[r][c] == x ==>
              c == Column(Weekday(first + i), weekStartsOn) && 7 * r + c == offset + i
  {
    OnePosition(weeks, x, offset + i);
    ColumnOfDay(first, i, weekStartsOn, offset);
  }

  lemma OnePosition(weeks: seq<seq<Cell>>, x: Cell, k: nat)
    requires OnlyAt(weeks, x, k) && k < 7 * |weeks|
    ensures exists r, c :: 0 <= r < |weeks| && 0 <= c < 7 && weeks[r][c] == x
    ensures forall r, c :: 0 <= r < |weeks| && 0 <= c < 7 && weeks[r][c] == x ==> c == k % 7 && 7 * r + c == k
  {
    assert weeks[k / 7][k % 7] == x;
  }

  lemma ColumnOfDay(first: int, i: int, weekStartsOn: int, offset: int)
    requires offset == Column(Weekday(first), weekStartsOn)
    ensures (offset + i) % 7 == Column(Weekday(first + i), weekStartsOn)
  {
    ModShift(first + 4, 7 - weekStartsOn);
    ModShift(first + 4 + 7 - weekStartsOn, i);
    ModShift(first + i + 4, 7 - weekStartsOn);
  }

  lemma ModShift(a: int, b: int)
    ensures (a % 7 + b) % 7 == (a + b) % 7
  {
    var q := a / 7;
    assert a + b == a % 7 + b + 7 * q;
    ModCycle(a % 7 + b, q);
  }

  lemma ModCycle(a: int, q: int)
    ensures (a + 7 * q) % 7 == a % 7
  {
  }

  /** Position 0 is the first day of the week that holds the first of the month. */
  lemma GridStart(year: int, month: int, weekStartsOn: int)
    ensures FirstDay(year, month) - Offset(year, month, weekStartsOn)
         == WeekStart(FirstDay(year, month), weekStartsOn)
  {
    OffsetIs(FirstDay(year, month), weekStartsOn);
  }

  /** For every year and month number, position k stands for the k-th day from the grid's start: it is filled exactly
      when that date is in the month that the numbers name, with the numbers as they were given and the date's day. */
  lemma {:induction false} GridIsCalendar(weeks: seq<seq<Cell>>, year: int, month: int, weekStartsOn: int,
                                        r: int, c: int, date: Civil)
    requires weekStartsOn in {0, 1} && IsMonthGrid(weeks, year, month, weekStartsOn)
    requires 0 <= r < |weeks| && 0 <= c < 7
    requires date.Valid() && DayOf(date) == FirstDay(year, month) - Offset(year, month, weekStartsOn) + 7 * r + c
    ensures var named := MonthNamed(JsYear(year), month);
            weeks[r][c] == if date.y == named.y && date.m == named.m then Some(ToDateKey(year, month, date.d)) else None
  {
    MonthSpan(year, month);
    GridCell(weeks, year, month, Offset(year, month, weekStartsOn), DaysInMonth(year, month), FirstDay(year, month),
             MonthNamed(JsYear(year), month), r, c, date);
  }

  /** What a filled position shows is its date's own key exactly when the month number is a calendar month's and the
      year is not read as 19xx. */
  lemma {:induction false} ShowsOwnKeyExactly(weeks: seq<seq<Cell>>, year: int, month: int, weekStartsOn: int,
                                            r: int, c: int, date: Civil)
    requires weekStartsOn in {0, 1} && IsMonthGrid(weeks, year, month, weekStartsOn)
    requires 0 <= r < |weeks| && 0 <= c < 7
    requires date.Valid() && DayOf(date) == FirstDay(year, month) - Offset(year, month, weekStartsOn) + 7 * r + c
    requires weeks[r][c].Some?
    ensures weeks[r][c] == Some(KeyOf(DayOf(date))) <==> 1 <= month <= 12 && !(0 <= year <= 99)
  {
    GridIsCalendar(weeks, year, month, weekStartsOn, r, c, date);
    KeyOfDate(date);
    OwnKey(year, month, date);
  }

  lemma KeyOfDate(date: Civil)
    requires date.Valid()
    ensures KeyOf(DayOf(date)) == ToDateKey(date.y, date.m, date.d)
  {
    CivilInverts(date);
  }

  lemma {:induction false} OwnKey(year: int, month: int, date: Civil)
    requires date.Valid() && date.y == MonthNamed(JsYear(year), month).y && date.m == MonthNamed(JsYear(year), month).m
    ensures ToDateKey(year, month, date.d) == ToDateKey(date.y, date.m, date.d)
       <==> 1 <= month <= 12 && !(0 <= year <= 99)
  {
    if ToDateKey(year, month, date.d) == ToDateKey(date.y, date.m, date.d) {
      SameNumbers(year, month, date.y, date.m, date.d);
    }
  }

  /** A key spells its year and month only one way, for calendar months. */
  lemma {:induction false} SameNumbers(year: int, month: int, y: int, m: int, d: int)
    requires 1 <= m <= 12 && 1 <= d <= 31 && ToDateKey(year, month, d) == ToDateKey(y, m, d)
    ensures year == y && month == m
  {
    Pad2Value(d);
    Pad2Value(m);
    NumeralHolds(Pad2(d), '-');
    NumeralHolds(Pad2(m), '-');
    LastField(Decimal(year) + "-" + Pad2(month), Decimal(y) + "-" + Pad2(m), Pad2(d), Pad2(d), '-');
    if month < 0 {
      NegativeMonth(year, month, y, m);
    } else {
      Pad2Dashless(month);
      LastField(Decimal(year), Decimal(y), Pad2(month), Pad2(m), '-');
      Pad2OfMonth(month, m);
      DecimalInjective(year, y);
    }
  }

  lemma {:induction false} Pad2Dashless(n: int)
    requires n >= 0
    ensures '-' !in Pad2(n)
  {
    NumeralHolds(Natural(n), '-');
  }

  lemma {:induction false} NegativeMonth(year: int, month: int, y: int, m: int)
    requires month < 0 && '-' !in Pad2(m)
    ensures Decimal(year) + "-" + Pad2(month) != Decimal(y) + "-" + Pad2(m)
  {
    var front, digits := Decimal(year) + "-", Natural(-month);
    NumeralHolds(digits, '-');
    assert Pad2(month) == "-" + digits;
    assert front + Pad2(month) == front + "-" + digits;
    if front + "-" + digits == Decimal(y) + "-" + Pad2(m) {
      LastField(front, Decimal(y), digits, Pad2(m), '-');
      DecimalEnds(y);
    }
  }

  /** Month 13 of 2024 is January 2025, and shows no cell under its own date's key. */
  lemma {:induction false} OverflowingMonthMisnamed(weeks: seq<seq<Cell>>, year: int, month: int,
                                                  r: int, c: int, date: Civil)
    requires year == 2024 && month == 13 && IsMonthGrid(weeks, year, month, 1) && 0 <= r < |weeks| && 0 <= c < 7
    requires date.Valid() && date.y == 2025 && date.m == 1
    requires DayOf(date) == FirstDay(year, month) - Offset(year, month, 1) + 7 * r + c
    ensures weeks[r][c] == Some(ToDateKey(2024, 13, date.d)) && weeks[r][c] != Some(KeyOf(DayOf(date)))
  {
    GridIsCalendar(weeks, year, month, 1, r, c, date);
    ShowsOwnKeyExactly(weeks, year, month, 1, r, c, date);
  }

  lemma GridCell(weeks: seq<seq<Cell>>, year: int, month: int, offset: int, length: int, first: int, named: Civil,
                 r: int, c: int, date: Civil)
    requires IsGrid(weeks, year, month, offset, length) && 0 <= r < |weeks| && 0 <= c < 7
    requires 1 <= named.m <= 12 && named.d == 1 && first == DayOf(named) && length == MonthLength(named.y, named.m)
    requires date.Valid() && DayOf(date) == first - offset + 7 * r + c
    ensures weeks[r][c] == if date.y == named.y && date.m == named.m then Some(ToDateKey(year, month, date.d)) else None
  {
    InMonth(named.y, named.m, date, first);
    CellOfRow(weeks, year, month, offset, length, r, c);
    CellOfDay(year, month, offset, length, 7 * r + c, DayOf(date) - first + 1);
  }

  lemma CellOfRow(weeks: seq<seq<Cell>>, year: int, month: int, offset: int, length: int, r: int, c: int)
    requires IsGrid(weeks, year, month, offset, length) && 0 <= r < |weeks| && 0 <= c < 7
    ensures |weeks[r]| == 7 && weeks[r][c] == CellAt(year, month, offset, length, 7 * r + c)
  {
    assert IsRow(weeks[r], year, month, offset, length, 7 * r);
  }

  lemma CellOfDay(year: int, month: int, offset: int, length: int, k: int, d: int)
    requires d == k - offset + 1
    ensures CellAt(year, month, offset, length, k) == if 1 <= d <= length then Some(ToDateKey(year, month, d)) else None
  {
  }

  lemma InMonth(year: int, month: int, date: Civil, first: int)
    requires 1 <= month <= 12 && first == DayOf(Civil(year, month, 1)) && date.Valid()
    ensures date.y == year && date.m == month <==> first <= DayOf(date) < first + MonthLength(year, month)
    ensures date.y == year && date.m == month ==> date.d == DayOf(date) - first + 1
  {
    DayOfInRange(Civil(year, month, 1));
    DayOfInRange(date);
    var same := Civil(year, month, DayOf(date) - first + 1);
    if same.Valid() {
      DayOfInRange(same);
      OneDate(same, date);
    }
  }

  lemma OneDate(a: Civil, b: Civil)
    requires a.Valid() && b.Valid() && DayOf(a) == DayOf(b)
    ensures a == b
  {
    CivilInverts(a);
    CivilInverts(b);
  }

  /** Every row is a week: a day shown in it has the week bounds that start at the row's first position. */
  lemma RowIsWeek(weeks: seq<seq<Cell>>, year: int, month: int, weekStartsOn: int, first: int, r: int, c: int, d: int)
    requires weekStartsOn in {0, 1} && IsMonthGrid(weeks, year, month, weekStartsOn) && first == FirstDay(year, month)
    requires 0 <= r < |weeks| && 0 <= c < 7 && 1 <= d <= DaysInMonth(year, month)
    requires |weeks[r]| == 7 && weeks[r][c] == Some(ToDateKey(year, month, d))
    ensures var start := first - Offset(year, month, weekStartsOn) + 7 * r;
            first + d - 1 == start + c && WeekStart(first + d - 1, weekStartsOn) == start
  {
    DayPlace(weeks, year, month, weekStartsOn, first, d);
    RowStart(first, r, c, weekStartsOn);
  }

  lemma RowStart(first: int, r: int, c: int, weekStartsOn: int)
    requires weekStartsOn in {0, 1} && 0 <= c < 7
    ensures var start := first - Column(Weekday(first), weekStartsOn) + 7 * r;
            WeekStart(start + c, weekStartsOn) == start
  {
    OffsetIs(first, weekStartsOn);
    var q := WeekStartForm(first, weekStartsOn);
    WeekOf(weekStartsOn, q + r, c);
  }

  lemma WeekStartForm(n: int, w: int) returns (q: int)
    ensures WeekStart(n, w) == w - 4 + 7 * q
  {
    q := (n + 4 - w) / 7;
    ModShift(n + 4, -w);
  }

  lemma WeekOf(w: int, q: int, c: int)
    requires w in {0, 1} && 0 <= c < 7
    ensures WeekStart(w - 4 + 7 * q + c, w) == w - 4 + 7 * q
  {
    ModCycle(w + c, q);
    assert Weekday(w - 4 + 7 * q + c) == (w + c + 7 * q) % 7;
  }

  // ---- moving by months

  datatype YearMonth = YearMonth(year: int, month: int)

  function AddMonths(year: int, month: int, delta: int): YearMonth {
    var c := CivilOf(MakeDay(JsYear(year), month - 1 + delta, 1));
    YearMonth(c.y, c.m)
  }

  /** Moving by months counts months: the result is a calendar month, delta months on. */
  lemma AddMonthsCounts(year: int, month: int, delta: int)
    ensures var r := AddMonths(year, month, delta);
            1 <= r.month <= 12 && 12 * r.year + r.month == 12 * JsYear(year) + month + delta
  {
    var c := MonthNamed(JsYear(year), month + delta);
    MonthNamedDays(JsYear(year), month + delta);
    CivilInverts(c);
  }

  /** Moving back undoes moving forth exactly when neither the year nor the year reached is read as 19xx. */
  lemma AddMonthsUndone(year: int, month: int, delta: int)
    requires 1 <= month <= 12
    ensures var r := AddMonths(year, month, delta);
            AddMonths(r.year, r.month, -delta) == YearMonth(year, month)
            <==> !(0 <= year <= 99) && !(0 <= (12 * JsYear(year) + month + delta - 1) / 12 <= 99)
  {
    var r := AddMonths(year, month, delta);
    AddMonthsCounts(year, month, delta);
    AddMonthsCounts(r.year, r.month, -delta);
    assert r.year == (12 * JsYear(year) + month + delta - 1) / 12;
  }

  /** A month of year 50 moved by nothing is in 1950. */
  lemma {:induction false} TwoDigitYearMoves(month: int)
    requires 1 <= month <= 12
    ensures AddMonths(50, month, 0) == YearMonth(1950, month)
  {
    AddMonthsCounts(50, month, 0);
  }
}
