/** Calendar keys YYYY-MM-DD: round trip, order, week bounds and the month grid. A local Date is
    its day number; None stands for an invalid Date. */
module DateKeys {
  import opened JsStrings
  import opened Text
  import opened Calendar

  const INVALID_KEY := "NaN-NaN-NaN"

  // ---- keys and dates

  function ToDateKey(year: int, month: int, day: int): string {
    Decimal(year) + "-" + Pad2(month) + "-" + Pad2(day)
  }

  datatype Parts = Parts(year: Option<int>, month: Option<int>, day: Option<int>)

  function ParseDateKey(key: string): Parts {
    var s := Split(key, '-');
    Parts(Number(s[0]),
          if |s| > 1 then Number(s[1]) else None,
          if |s| > 2 then Number(s[2]) else None)
  }

  function DateFromKey(key: string): Option<int> {
    var p := ParseDateKey(key);
    if p.year.None? || p.month.None? || p.day.None? then None
    else Some(MakeDay(JsYear(p.year.value), p.month.value - 1, p.day.value))
  }

  function DateKeyFromDate(date: Option<int>): string {
    if date.None? then INVALID_KEY
    else var c := CivilOf(date.value); ToDateKey(c.y, c.m, c.d)
  }

  function KeyOf(n: int): string { DateKeyFromDate(Some(n)) }

  function CompareDateKeys(a: string, b: string): int {
    if a == b then 0 else if Less(a, b) then -1 else 1
  }

  predicate IsDateKeyInRange(key: string, from: string, to: string) {
    var start := if CompareDateKeys(from, to) <= 0 then from else to;
    var end := if CompareDateKeys(from, to) <= 0 then to else from;
    CompareDateKeys(key, start) >= 0 && CompareDateKeys(key, end) <= 0
  }

  // ---- the round trip

  /** Four digits, dash, two digits, dash, two digits. */
  predicate IsShaped(key: string) {
    |key| == 10 && key[4] == '-' && key[7] == '-'
    && IsNumeral(key[..4]) && IsNumeral(key[5..7]) && IsNumeral(key[8..])
  }

  function Named(key: string): Civil
    requires IsShaped(key)
  {
    Civil(Value(key[..4]), Value(key[5..7]), Value(key[8..]))
  }

  /** A key that names a calendar date of a year from 1000. */
  predicate IsDateKey(key: string) {
    IsShaped(key) && Named(key).Valid() && Named(key).y >= 1000
  }

  /** The day a date key names. */
  function KeyDay(key: string): int
    requires IsDateKey(key)
  {
    DayOf(Named(key))
  }

  lemma {:induction false} JoinOfThree(a: string, b: string, c: string, sep: string)
    ensures Join([a, b, c], sep) == a + sep + b + sep + c
  {
    assert [a, b, c][1..] == [b, c] && [b, c][1..] == [c];
    assert Join([b, c], sep) == b + sep + c;
    assert a + sep + (b + sep + c) == a + sep + b + sep + c;
  }

  lemma {:induction false} SplitOfThree(a: string, b: string, c: string)
    requires IsNumeral(a) && IsNumeral(b) && IsNumeral(c)
    ensures Split(a + "-" + b + "-" + c, '-') == [a, b, c]
  {
    NumeralHolds(a, '-');
    NumeralHolds(b, '-');
    NumeralHolds(c, '-');
    JoinOfThree(a, b, c, "-");
    SplitInvertsJoin([a, b, c], '-');
  }

  lemma ParseShaped(key: string)
    requires IsShaped(key)
    ensures key == key[..4] + "-" + key[5..7] + "-" + key[8..]
    ensures var c := Named(key); ParseDateKey(key) == Parts(Some(c.y), Some(c.m), Some(c.d))
    ensures var c := Named(key); DateFromKey(key) == Some(MakeDay(JsYear(c.y), c.m - 1, c.d))
  {
    Dashed(key);
    SplitOfThree(key[..4], key[5..7], key[8..]);
  }

  lemma Dashed(key: string)
    requires |key| == 10 && key[4] == '-' && key[7] == '-'
    ensures key == key[..4] + "-" + key[5..7] + "-" + key[8..]
  {
    assert key == key[..4] + key[4..5] + key[5..7] + key[7..8] + key[8..];
  }

  lemma {:induction false} ValueStep(s: string)
    requires IsNumeral(s) && s != []
    ensures IsNumeral(s[..|s| - 1]) && Value(s) <= 10 * Value(s[..|s| - 1]) + 9
  {
  }

  lemma {:induction false} ValueBounds(s: string)
    requires IsNumeral(s)
    ensures |s| == 2 ==> Value(s) < 100
    ensures |s| == 4 ==> Value(s) < 10000
  {
    if |s| == 2 || |s| == 4 {
      ValueStep(s);
      ValueStep(s[..|s| - 1]);
      var u := s[..|s| - 1][..|s| - 2];
      if |s| == 4 {
        ValueStep(u);
        ValueStep(u[..1]);
      }
    }
  }

  /** The numerals of a valid date from year 1000 are those of its key. */
  lemma KeyOfNamed(key: string)
    requires IsDateKey(key)
    ensures ToDateKey(Named(key).y, Named(key).m, Named(key).d) == key
  {
    var c := Named(key);
    ParseShaped(key);
    ValueBounds(key[..4]);
    NaturalLength(c.y);
    ValueOfNatural(c.y);
    NumeralIsValue(Natural(c.y), key[..4]);
    Pad2Value(c.m);
    Pad2Value(c.d);
    NumeralIsValue(Pad2(c.m), key[5..7]);
    NumeralIsValue(Pad2(c.d), key[8..]);
  }

  /** Conversely, the key printed for a valid date of years 1000 to 9999 names it. */
  lemma NamedOfKey(c: Civil)
    requires c.Valid() && 1000 <= c.y <= 9999
    ensures IsDateKey(ToDateKey(c.y, c.m, c.d)) && Named(ToDateKey(c.y, c.m, c.d)) == c
  {
    var key := ToDateKey(c.y, c.m, c.d);
    NaturalLength(c.y);
    ValueOfNatural(c.y);
    Pad2Value(c.m);
    Pad2Value(c.d);
    assert key[..4] == Natural(c.y) && key[5..7] == Pad2(c.m) && key[8..] == Pad2(c.d);
  }

  /** A date's key: the year, and month and day in at least two digits. */
  lemma {:induction false} KeyWritten(c: Civil)
    requires c.Valid()
    ensures KeyOf(DayOf(c)) == Decimal(c.y) + "-" + (if c.m < 10 then "0" + Decimal(c.m) else Decimal(c.m))
                               + "-" + (if c.d < 10 then "0" + Decimal(c.d) else Decimal(c.d))
  {
    CivilInverts(c);
    PaddedBelowTen(c.m);
    PaddedBelowTen(c.d);
  }

  lemma {:induction false} PaddedBelowTen(n: nat)
    ensures Pad2(n) == if n < 10 then "0" + Decimal(n) else Decimal(n)
  {
    if n >= 10 {
      assert |Natural(n)| == |Natural(n / 10)| + 1;
    }
  }

  /** Printing a date with a year that has not four digits gives no shaped key. */
  lemma ShapeNeedsFourDigits(c: Civil)
    requires c.Valid() && IsShaped(ToDateKey(c.y, c.m, c.d))
    ensures 1000 <= c.y <= 9999
  {
    var key := ToDateKey(c.y, c.m, c.d);
    Pad2Value(c.m);
    Pad2Value(c.d);
    assert |key| == |Decimal(c.y)| + 6;
    var first := key[..4][0];
    if c.y < 0 {
      assert false;
    } else {
      NaturalLength(c.y);
    }
  }

  /** Key to date to key is the identity on a shaped key exactly when it names a calendar date of a
      year from 1000. */
  lemma KeyRoundTrip(key: string)
    requires IsShaped(key)
    ensures DateKeyFromDate(DateFromKey(key)) == key <==> IsDateKey(key)
    ensures IsDateKey(key) ==> DateFromKey(key) == Some(KeyDay(key))
  {
    ParseShaped(key);
    var n := DateFromKey(key).value;
    DayInverts(n);
    if IsDateKey(key) {
      CivilInverts(Named(key));
      KeyOfNamed(key);
    }
    if KeyOf(n) == key {
      ShapeNeedsFourDigits(CivilOf(n));
      NamedOfKey(CivilOf(n));
    }
  }

  /** Date to key to date is the identity on the years 1000 to 9999. */
  lemma DateRoundTrip(n: int)
    requires 1000 <= YearOf(n) <= 9999
    ensures IsDateKey(KeyOf(n)) && KeyDay(KeyOf(n)) == n && DateFromKey(KeyOf(n)) == Some(n)
  {
    NamedOfKey(CivilOf(n));
    KeyRoundTrip(KeyOf(n));
  }

  // ---- order

  lemma {:induction false} DashedOrder(a: string, b: string, c: string, d: string)
    ensures Less("-" + a, "-" + b) <==> Less(a, b)
    ensures "-" + a == "-" + b <==> a == b
  {
    assert ("-" + a)[1..] == a && ("-" + b)[1..] == b;
  }

  lemma {:induction false} ThreeOrder(a: string, b: string, c: string, x: string, y: string, z: string)
    requires |a| == |x| && |b| == |y|
    ensures Less(a + "-" + b + "-" + c, x + "-" + y + "-" + z)
       <==> Less(a, x) || (a == x && (Less(b, y) || (b == y && Less(c, z))))
  {
    assert a + "-" + b + "-" + c == a + (("-" + b) + ("-" + c));
    assert x + "-" + y + "-" + z == x + (("-" + y) + ("-" + z));
    LessOfParts(a, x, ("-" + b) + ("-" + c), ("-" + y) + ("-" + z));
    LessOfParts("-" + b, "-" + y, "-" + c, "-" + z);
    DashedOrder(b, y, c, z);
    DashedOrder(c, z, b, y);
  }

  lemma {:induction false} KeyOrder(a: string, b: string)
    requires IsDateKey(a) && IsDateKey(b)
    ensures Less(a, b) <==> Named(a).Before(Named(b))
  {
    ParseShaped(a);
    ParseShaped(b);
    ThreeOrder(a[..4], a[5..7], a[8..], b[..4], b[5..7], b[8..]);
    NumeralOrder(a[..4], b[..4]); NumeralOrder(a[5..7], b[5..7]); NumeralOrder(a[8..], b[8..]);
    NumeralIsValue(a[..4], b[..4]); NumeralIsValue(a[5..7], b[5..7]);
  }

  /** Comparing keys as strings compares days. */
  lemma KeysOrderDays(a: string, b: string)
    requires IsDateKey(a) && IsDateKey(b)
    ensures CompareDateKeys(a, b)
         == if KeyDay(a) < KeyDay(b) then -1 else if KeyDay(a) == KeyDay(b) then 0 else 1
  {
    KeyOrder(a, b);
    DayOrder(Named(a), Named(b));
    KeyOfNamed(a);
    KeyOfNamed(b);
  }

  /** String range tests are chronological, whichever way round the range is given. */
  lemma RangeIsChronological(key: string, from: string, to: string)
    requires IsDateKey(key) && IsDateKey(from) && IsDateKey(to)
    ensures IsDateKeyInRange(key, from, to)
       <==> KeyDay(from) <= KeyDay(key) <= KeyDay(to) || KeyDay(to) <= KeyDay(key) <= KeyDay(from)
  {
    KeysOrderDays(from, to);
    KeysOrderDays(key, from);
    KeysOrderDays(key, to);
  }

  // ---- weeks

  /** First day of the week of n; weeks start on Sunday (0) or Monday (1). */
  function WeekStart(n: int, weekStartsOn: int): int { n - (Weekday(n) - weekStartsOn) % 7 }

  /** Two dates are moved in place, one to each end of the week. */
  method WeekBoundDays(date: JsDate, weekStartsOn: int) returns (first: int, last: int)
    requires weekStartsOn in {0, 1}
    ensures first == WeekStart(date.day, weekStartsOn) && last == first + 6
    ensures Weekday(first) == weekStartsOn && first <= date.day <= last
  {
    var day := date.GetDay();
    var start := new JsDate.Copy(date);
    if weekStartsOn == 1 {
      start.AddDays(-(if day == 0 then 6 else day - 1));
    } else {
      start.AddDays(-day);
    }
    var end := new JsDate.Copy(start);
    end.AddDays(6);
    first, last := start.day, end.day;
    WeekStartIs(date.day, weekStartsOn, day);
    WeekStartFalls(date.day, weekStartsOn);
  }

  /** A week starts on its day of the week, on a day or at most six days before it. */
  lemma WeekStartFalls(n: int, weekStartsOn: int)
    requires weekStartsOn in {0, 1}
    ensures Weekday(WeekStart(n, weekStartsOn)) == weekStartsOn
    ensures WeekStart(n, weekStartsOn) <= n <= WeekStart(n, weekStartsOn) + 6
  {
  }

  method WeekBoundsForDateKey(key: string, weekStartsOn: int) returns (from: string, to: string)
    requires weekStartsOn in {0, 1}
    ensures DateFromKey(key).Some? ==>
              var start := WeekStart(DateFromKey(key).value, weekStartsOn);
              from == KeyOf(start) && to == KeyOf(start + 6)
    ensures DateFromKey(key).None? ==> from == to == "NaN-NaN-NaN"
  {
    var p := ParseDateKey(key);
    if p.year.None? || p.month.None? || p.day.None? {
      return INVALID_KEY, INVALID_KEY;
    }
    var date := new JsDate(p.year.value, p.month.value - 1, p.day.value);
    assert DateFromKey(key) == Some(date.day);
    var first, last := WeekBoundDays(date, weekStartsOn);
    from, to := KeyOf(first), KeyOf(last);
  }

  lemma WeekStartIs(n: int, weekStartsOn: int, day: int)
    requires weekStartsOn in {0, 1} && day == Weekday(n)
    ensures WeekStart(n, weekStartsOn)
         == if weekStartsOn == 1 then n - (if day == 0 then 6 else day - 1) else n - day
  {
  }

  /** Weeks start on the requested day, hold the day they were asked for, and partition the calendar:
      two days share a week exactly when one lies within the seven days of the other's. */
  lemma WeeksPartition(n: int, k: int, weekStartsOn: int)
    requires weekStartsOn in {0, 1}
    ensures var start := WeekStart(n, weekStartsOn);
            Weekday(start) == weekStartsOn && start <= n <= start + 6
            && (start <= k <= start + 6 <==> WeekStart(k, weekStartsOn) == start)
  {
    var w := weekStartsOn;
    assert WeekStart(n, w) == w - 4 + 7 * ((n + 4 - w) / 7);
    assert WeekStart(k, w) == w - 4 + 7 * ((k + 4 - w) / 7);
  }

  /** The same on keys: a key lies in the string range of another's week exactly when both have the
      same bounds. */
  lemma KeyWeeksPartition(a: string, b: string, weekStartsOn: int)
    requires IsDateKey(a) && IsDateKey(b) && weekStartsOn in {0, 1}
    requires var start := WeekStart(KeyDay(a), weekStartsOn);
             1000 <= YearOf(start) && YearOf(start + 6) <= 9999
    ensures var start, other := WeekStart(KeyDay(a), weekStartsOn), WeekStart(KeyDay(b), weekStartsOn);
            IsDateKeyInRange(a, KeyOf(start), KeyOf(start + 6))
            && (IsDateKeyInRange(b, KeyOf(start), KeyOf(start + 6))
                <==> KeyOf(other) == KeyOf(start) && KeyOf(other + 6) == KeyOf(start + 6))
  {
    var start, other := WeekStart(KeyDay(a), weekStartsOn), WeekStart(KeyDay(b), weekStartsOn);
    YearsMonotone(start, start + 6);
    InWeekRange(a, start);
    InWeekRange(b, start);
    WeeksPartition(KeyDay(a), KeyDay(b), weekStartsOn);
    if KeyOf(other) == KeyOf(start) {
      KeyOfInjective(other, start);
    }
  }

  lemma InWeekRange(key: string, start: int)
    requires IsDateKey(key) && 1000 <= YearOf(start) <= YearOf(start + 6) <= 9999
    ensures IsDateKeyInRange(key, KeyOf(start), KeyOf(start + 6)) <==> start <= KeyDay(key) <= start + 6
  {
    DateRoundTrip(start);
    DateRoundTrip(start + 6);
    RangeIsChronological(key, KeyOf(start), KeyOf(start + 6));
  }

  lemma YearsMonotone(n: int, k: int)
    requires n <= k
    ensures YearOf(n) <= YearOf(k)
  {
    if YearOf(k) < YearOf(n) && YearOf(k) + 1 < YearOf(n) {
      YearsOrdered(YearOf(k) + 1, YearOf(n));
    }
  }

  lemma KeyOfInjective(n: int, k: int)
    requires KeyOf(n) == KeyOf(k) && 1000 <= YearOf(k) <= 9999
    ensures n == k
  {
    NamedOfKey(CivilOf(k));
    ShapeNeedsFourDigits(CivilOf(n));
    NamedOfKey(CivilOf(n));
  }
}
