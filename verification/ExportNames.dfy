/** What export names and date-range labels show, stated on the dates as they are written. */
module ExportNames {
  import opened JsStrings
  import opened Text
  import opened Calendar
  import opened ExportFilename
  import DateKeys
  import MonthGrid

  // ---- dates as written

  const MONTHS := ["jan", "feb", "mar", "apr", "may", "jun", "jul", "aug", "sep", "oct", "nov", "dec"]

  /** Four digits, a month 01 to 12 and a day 01 to 31, and perhaps a time after them. */
  predicate IsDated(iso: string) {
    |iso| >= 10 && DateKeys.IsShaped(iso[..10])
    && 1 <= DateKeys.Named(iso[..10]).m <= 12 && 1 <= DateKeys.Named(iso[..10]).d <= 31
  }

  /** Ten characters that name a calendar date, and perhaps a time after them. */
  predicate StartsWithDate(iso: string) { IsDated(iso) && DateKeys.Named(iso[..10]).Valid() }

  /** The date written, days past the end of a month counting into the next one. */
  function DateOf(iso: string): Civil
    requires IsDated(iso)
  {
    var c := DateKeys.Named(iso[..10]);
    var n := MonthLength(c.y, c.m);
    if c.d <= n then c else Civil(c.y, c.m + 1, c.d - n)
  }

  lemma {:induction false} DayReads(c: Civil)
    requires 1 <= c.m <= 12 && 1 <= c.d <= 31
    ensures var n := MonthLength(c.y, c.m);
            CivilOf(DayOf(c)) == if c.d <= n then c else Civil(c.y, c.m + 1, c.d - n)
  {
    var n := MonthLength(c.y, c.m);
    MonthLengthIs(c.y, c.m);
    if c.d <= n {
      CivilInverts(c);
    } else {
      MonthLengthIs(c.y, c.m + 1);
      MonthStarts(c.y, c.m + 1);
      CivilInverts(Civil(c.y, c.m + 1, c.d - n));
    }
  }

  lemma ParsedIsWritten(iso: string)
    requires IsDated(iso)
    ensures Slice(iso, 10) == iso[..10] && ParseDateOnly(iso) == Some(DayOf(DateKeys.Named(iso[..10])))
    ensures CivilOf(DayOf(DateKeys.Named(iso[..10]))) == DateOf(iso)
  {
    assert |iso| == 10 ==> iso == iso[..10];
    DayReads(DateKeys.Named(iso[..10]));
  }

  /** A date is written only one way. */
  lemma WrittenOnce(a: string, b: string)
    requires DateKeys.IsShaped(a) && DateKeys.IsShaped(b) && DateKeys.Named(a) == DateKeys.Named(b)
    ensures a == b
  {
    NumeralIsValue(a[..4], b[..4]);
    NumeralIsValue(a[5..7], b[5..7]);
    NumeralIsValue(a[8..], b[8..]);
    DateKeys.ParseShaped(a);
    DateKeys.ParseShaped(b);
  }

  lemma SameDay(a: string, b: string)
    requires StartsWithDate(a) && StartsWithDate(b) && ParseDateOnly(a) == ParseDateOnly(b)
    ensures a[..10] == b[..10]
  {
    ParsedIsWritten(a);
    ParsedIsWritten(b);
    WrittenOnce(a[..10], b[..10]);
  }

  /** Equal labels are those of the same first and the same last date, as written. */
  lemma LabelsTellDatesApart(from: string, to: string, from': string, to': string)
    requires StartsWithDate(from) && StartsWithDate(to) && StartsWithDate(from') && StartsWithDate(to')
    requires FormatExportDateRange(from, to) == FormatExportDateRange(from', to')
    ensures from[..10] == from'[..10] && to[..10] == to'[..10]
  {
    ParsedIsWritten(from);
    ParsedIsWritten(to);
    ParsedIsWritten(from');
    ParsedIsWritten(to');
    LabelsInjective(from, to, from', to');
    SameDay(from, from');
    SameDay(to, to');
  }

  /** Exports that differ only in their dates have different names. */
  lemma NamesTellDatesApart(f: Folding, a: Input, b: Input)
    requires b == a.(from := b.from, to := b.to)
    requires StartsWithDate(a.from) && StartsWithDate(a.to) && StartsWithDate(b.from) && StartsWithDate(b.to)
    requires Name(f, a) == Name(f, b)
    ensures a.from[..10] == b.from[..10] && a.to[..10] == b.to[..10]
  {
    ParsedIsWritten(a.from);
    ParsedIsWritten(a.to);
    ParsedIsWritten(b.from);
    ParsedIsWritten(b.to);
    NamesTellRangesApart(f, a, b);
    SameDay(a.from, b.from);
    SameDay(a.to, b.to);
  }

  // ---- the forms of a label

  /** The last day of a month as the code finds it, years 0 to 99 read as 19xx. */
  lemma LastDay(y: int, m: int) returns (n: int)
    requires 1 <= m <= 12
    ensures n == MonthGrid.DaysInMonth(y, m)
    ensures var z := if 0 <= y <= 99 then 1900 + y else y;
            n
            == if m in {1, 3, 5, 7, 8, 10, 12} then 31 else if m in {4, 6, 9, 11} then 30
               else if z % 4 == 0 && (z % 100 != 0 || z % 400 == 0) then 29 else 28
  {
    MonthGrid.MonthSpan(y, m);
    n := MonthGrid.DaysInMonth(y, m);
  }

  lemma LabelShown(from: string, to: string)
    requires IsDated(from) && IsDated(to)
    ensures var s, e := DateOf(from), DateOf(to);
            var shown := LabelOfDates(s, e, MonthGrid.DaysInMonth(e.y, e.m), from[..10], to[..10]);
            shown.Proper() && FormatExportDateRange(from, to) == shown.Show()
  {
    LabelProper(from, to);
    ParsedIsWritten(from);
    ParsedIsWritten(to);
  }

  lemma DateOfValid(iso: string)
    requires IsDated(iso)
    ensures DateOf(iso).Valid()
  {
    ParsedIsWritten(iso);
  }

  lemma {:induction false} OneDayText(c: Civil)
    requires OneDay(c).Proper()
    ensures OneDay(c).Show() == MONTHS[c.m - 1] + "-" + Decimal(c.d) + "-" + Decimal(c.y)
  {
    DateKeys.JoinOfThree(MonthName(c.m), Decimal(c.d), Decimal(c.y), "-");
  }

  lemma {:induction false} WholeMonthText(c: Civil)
    requires WholeMonth(c).Proper()
    ensures WholeMonth(c).Show() == MONTHS[c.m - 1] + "-" + Decimal(c.y)
  {
    JoinOfTwo(MonthName(c.m), Decimal(c.y));
  }

  lemma {:induction false} WithinMonthText(c: Civil, last: int)
    requires WithinMonth(c, last).Proper()
    ensures WithinMonth(c, last).Show()
         == MONTHS[c.m - 1] + "-" + Decimal(c.d) + "-to-" + Decimal(last) + "-" + Decimal(c.y)
  {
    JoinOfFive(MonthName(c.m), Decimal(c.d), "to", Decimal(last), Decimal(c.y));
    ToBetween(MONTHS[c.m - 1] + "-" + Decimal(c.d), Decimal(last) + "-" + Decimal(c.y));
    FiveGrouped(MonthName(c.m), Decimal(c.d), Decimal(last), Decimal(c.y));
  }

  lemma {:induction false} JoinOfTwo(a: string, b: string)
    ensures Join([a, b], "-") == a + "-" + b
  {
    assert [a, b][1..] == [b];
  }

  lemma {:induction false} JoinOfFive(a: string, b: string, c: string, d: string, e: string)
    ensures Join([a, b, c, d, e], "-") == a + "-" + (b + "-" + (c + "-" + d + "-" + e))
  {
    assert [a, b, c, d, e][1..] == [b, c, d, e] && [b, c, d, e][1..] == [c, d, e];
    DateKeys.JoinOfThree(c, d, e, "-");
  }

  lemma {:induction false} ToBetween(a: string, b: string)
    ensures a + "-" + ("to" + "-" + b) == a + "-to-" + b
  {
  }

  lemma {:induction false} FiveGrouped(a: string, b: string, d: string, e: string)
    ensures a + "-" + (b + "-" + ("to" + "-" + d + "-" + e)) == a + "-" + b + "-" + ("to" + "-" + (d + "-" + e))
    ensures a + "-" + b + "-to-" + (d + "-" + e) == a + "-" + b + "-to-" + d + "-" + e
  {
  }

  /** One day: month, day and year. */
  lemma OneDayShown(from: string, to: string)
    requires IsDated(from) && IsDated(to) && DateOf(from) == DateOf(to)
    ensures var c := DateOf(from);
            1 <= c.m <= 12
            && FormatExportDateRange(from, to) == MONTHS[c.m - 1] + "-" + Decimal(c.d) + "-" + Decimal(c.y)
  {
    DateOfValid(from);
    LabelShown(from, to);
    OneDayText(DateOf(from));
  }

  /** The first to the last day of one month: month and year. */
  lemma WholeMonthShown(from: string, to: string)
    requires IsDated(from) && IsDated(to) && DateOf(from) != DateOf(to)
    requires var s, e := DateOf(from), DateOf(to);
             var z := if 0 <= e.y <= 99 then 1900 + e.y else e.y;
             s.y == e.y && s.m == e.m && s.d == 1
             && e.d == if e.m in {1, 3, 5, 7, 8, 10, 12} then 31 else if e.m in {4, 6, 9, 11} then 30
                       else if z % 4 == 0 && (z % 100 != 0 || z % 400 == 0) then 29 else 28
    ensures var c := DateOf(from);
            1 <= c.m <= 12 && FormatExportDateRange(from, to) == MONTHS[c.m - 1] + "-" + Decimal(c.y)
  {
    DateOfValid(from);
    var n := LastDay(DateOf(from).y, DateOf(from).m);
    WholeMonthForm(from, to, n);
  }

  lemma WholeMonthForm(from: string, to: string, n: int)
    requires IsDated(from) && IsDated(to) && DateOf(from) != DateOf(to)
    requires var s, e := DateOf(from), DateOf(to);
             s.y == e.y && s.m == e.m && s.d == 1 && e.d == n == MonthGrid.DaysInMonth(e.y, e.m)
    ensures var c := DateOf(from);
            1 <= c.m <= 12 && FormatExportDateRange(from, to) == MONTHS[c.m - 1] + "-" + Decimal(c.y)
  {
    DateOfValid(from);
    LabelShown(from, to);
    WholeMonthText(DateOf(from));
  }

  /** Any other days of one month: month, first day, last day, year. */
  lemma WithinMonthShown(from: string, to: string)
    requires IsDated(from) && IsDated(to) && DateOf(from) != DateOf(to)
    requires var s, e := DateOf(from), DateOf(to);
             var z := if 0 <= e.y <= 99 then 1900 + e.y else e.y;
             s.y == e.y && s.m == e.m
             && !(s.d == 1
                  && e.d == if e.m in {1, 3, 5, 7, 8, 10, 12} then 31 else if e.m in {4, 6, 9, 11} then 30
                            else if z % 4 == 0 && (z % 100 != 0 || z % 400 == 0) then 29 else 28)
    ensures var s, e := DateOf(from), DateOf(to);
            1 <= s.m <= 12
            && FormatExportDateRange(from, to)
               == MONTHS[s.m - 1] + "-" + Decimal(s.d) + "-to-" + Decimal(e.d) + "-" + Decimal(s.y)
  {
    DateOfValid(from);
    var n := LastDay(DateOf(from).y, DateOf(from).m);
    WithinMonthForm(from, to, n);
  }

  lemma WithinMonthForm(from: string, to: string, n: int)
    requires IsDated(from) && IsDated(to) && DateOf(from) != DateOf(to)
    requires var s, e := DateOf(from), DateOf(to);
             s.y == e.y && s.m == e.m && n == MonthGrid.DaysInMonth(e.y, e.m) && !(s.d == 1 && e.d == n)
    ensures var s, e := DateOf(from), DateOf(to);
            1 <= s.m <= 12
            && FormatExportDateRange(from, to)
               == MONTHS[s.m - 1] + "-" + Decimal(s.d) + "-to-" + Decimal(e.d) + "-" + Decimal(s.y)
  {
    DateOfValid(from);
    DateOfValid(to);
    LabelShown(from, to);
    WithinMonthText(DateOf(from), DateOf(to).d);
  }

  /** Days of different months: both dates as written. */
  lemma DatesShown(from: string, to: string)
    requires IsDated(from) && IsDated(to)
    requires DateOf(from).y != DateOf(to).y || DateOf(from).m != DateOf(to).m
    ensures FormatExportDateRange(from, to) == from[..10] + "_to_" + to[..10]
  {
    LabelShown(from, to);
  }

  /** A range with an end that is not dated is shown as unknown. */
  lemma UnknownShown(from: string, to: string)
    requires !IsDated(from) || !IsDated(to)
    ensures FormatExportDateRange(from, to) == "unknown-date"
  {
    LabelProper(from, to);
    Undated(from);
    Undated(to);
    JoinOfTwo("unknown", "date");
  }

  lemma Undated(iso: string)
    ensures IsDated(iso) <==> ParseDateOnly(iso).Some?
  {
    assert |iso| == 10 ==> iso == iso[..10];
  }

  // ---- segments and names

  lemma {:induction false} StripStep(c: char, s: string, t: string)
    requires t == [c] + s
    ensures StripMarks(t) == (if '\U{0300}' <= c <= '\U{036f}' then "" else [c]) + StripMarks(s)
  {
    assert t[1..] == s;
  }

  lemma {:induction false} StripSplits(a: string, b: string, ab: string)
    requires ab == a + b
    ensures StripMarks(ab) == StripMarks(a) + StripMarks(b)
  {
    if a == "" {
      Regroup("", a, b);
      assert ab == b;
    } else {
      StripSplits(a[1..], b, a[1..] + b);
      StripStep(a[0], a[1..], a);
      FirstApart(a, b);
      StripStep(a[0], a[1..] + b, ab);
      Associates(if '\U{0300}' <= a[0] <= '\U{036f}' then "" else [a[0]], StripMarks(a[1..]), StripMarks(b));
    }
  }

  lemma FirstApart(a: string, b: string)
    requires a != ""
    ensures a == [a[0]] + a[1..] && a + b == [a[0]] + (a[1..] + b)
  {
  }

  /** Combining marks are dropped, one by one. */
  lemma {:induction false} MarksDropped(a: string, c: char, b: string)
    ensures StripMarks(a + [c] + b)
         == StripMarks(a) + (if '\U{0300}' <= c <= '\U{036f}' then "" else [c]) + StripMarks(b)
  {
    Associates(a, [c], b);
    StripSplits(a, [c] + b, a + [c] + b);
    StripStep(c, b, [c] + b);
    Associates(StripMarks(a), if '\U{0300}' <= c <= '\U{036f}' then "" else [c], StripMarks(b));
  }

  /** A segment holds lower-case letters, digits and dashes only. */
  lemma SegmentCharacters(f: Folding, value: string, maxLen: nat, i: nat)
    requires i < |SanitizeFilenameSegment(f, value, maxLen)|
    ensures var c := SanitizeFilenameSegment(f, value, maxLen)[i]; 'a' <= c <= 'z' || '0' <= c <= '9' || c == '-'
  {
  }

  /** What is a segment already is kept: lower-case letters and digits with single dashes between them. */
  lemma {:induction false} SegmentKept(f: Folding, value: string, maxLen: nat)
    requires f.nfkd(value) == value && f.lower(value) == value && value != "" && |value| <= maxLen
    requires forall i :: 0 <= i < |value| ==> 'a' <= value[i] <= 'z' || '0' <= value[i] <= '9' || value[i] == '-'
    requires value[0] != '-' && value[|value| - 1] != '-'
    requires forall i :: 0 <= i < |value| - 1 ==> value[i] != '-' || value[i + 1] != '-'
    ensures SanitizeFilenameSegment(f, value, maxLen) == value
  {
    NoMarks(value);
    CollapseKeeps(value);
    assert "" + value + "" == value;
    TrimmedIs("", value, "");
  }

  lemma {:induction false} NoMarks(s: string)
    requires forall i :: 0 <= i < |s| ==> s[i] < '\U{0300}'
    ensures StripMarks(s) == s
  {
    if s != "" {
      NoMarks(s[1..]);
      assert s == [s[0]] + s[1..];
    }
  }

  lemma {:induction false} CollapseKeeps(s: string)
    requires forall i :: 0 <= i < |s| ==> 'a' <= s[i] <= 'z' || '0' <= s[i] <= '9' || s[i] == '-'
    requires forall i :: 0 <= i < |s| - 1 ==> s[i] != '-' || s[i + 1] != '-'
    ensures Collapse(s) == s
  {
    if s != "" {
      var t := s[1..];
      assert forall i :: 0 <= i < |t| ==> t[i] == s[i + 1];
      CollapseKeeps(t);
      assert s == [s[0]] + t;
    }
  }

  /** An extension of letters and digits is kept in lower case, with or without a dot; any other becomes bin. */
  lemma ExtensionShown(f: Folding, ext: string)
    requires ext == "" || ext[0] != '.'
    ensures var e := f.lower(ext);
            SafeExt(f, ext)
            == if e != "" && forall i :: 0 <= i < |e| ==> 'a' <= e[i] <= 'z' || '0' <= e[i] <= '9' then e else "bin"
    ensures SafeExt(f, "." + ext) == SafeExt(f, ext)
  {
    ExtensionKept(f, ext);
  }

  /** A name holds, joined by dashes: kloqra, the tenant when one is given, the workspace, the purpose, the hint when
      one is given, and the range; then the extension. The purpose is the one given, or my-timesheet for a member, or
      the report, or export. */
  lemma NameHolds(f: Folding, input: Input)
    ensures var tenant := if input.tenantSlug.Some? && input.tenantSlug.value != ""
                          then [SanitizeFilenameSegment(f, input.tenantSlug.value, 32)] else [];
            var hint := if input.scopeHint.Some? && input.scopeHint.value != ""
                        then [SanitizeFilenameSegment(f, input.scopeHint.value, 24)] else [];
            var purpose := if input.purposeSlug.Some? then input.purposeSlug.value
                           else if input.member then "my-timesheet"
                           else if input.reportSlug.Some? then input.reportSlug.value else "export";
            Name(f, input)
            == Join(["kloqra"] + tenant
                    + [SanitizeFilenameSegment(f, input.workspaceSlug, 32), SanitizeFilenameSegment(f, purpose, 32)]
                    + hint + [FormatExportDateRange(input.from, input.to)], "-")
               + "." + SafeExt(f, input.ext)
  {
  }

  /** Every generated name consists of lower-case letters, digits, dashes, underscores and dots. */
  lemma NameCharacters(f: Folding, input: Input, i: nat)
    requires i < |Name(f, input)|
    ensures var c := Name(f, input)[i]; 'a' <= c <= 'z' || '0' <= c <= '9' || c in "-_."
  {
    NameRoundTrip(f, input);
  }
}
