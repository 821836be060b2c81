/** Names of exported files: sanitised segments, a date-range label, and the name built from them. */
module ExportFilename {
  import opened JsStrings
  import opened Text
  import opened Calendar
  import DateKeys
  import MonthGrid
  import ContentDisposition

  const BRAND_SLUG := "kloqra"

  // ---- segments

  /** normalize("NFKD") and toLowerCase; nothing below depends on what they do. */
  datatype Folding = Folding(nfkd: string -> string, lower: string -> string)

  predicate IsSlugChar(c: char) { 'a' <= c <= 'z' || IsDigit(c) }

  predicate IsSlug(s: string) { forall i | 0 <= i < |s| :: IsSlugChar(s[i]) || s[i] == '-' }

  function StripMarks(s: string): string {
    if s == [] then [] else (if '\U{0300}' <= s[0] <= '\U{036f}' then [] else [s[0]]) + StripMarks(s[1..])
  }

  function DropRun(s: string): (r: string)
    ensures |r| <= |s| && (r == [] || IsSlugChar(r[0]))
  {
    if s == [] || IsSlugChar(s[0]) then s else DropRun(s[1..])
  }

  /** Every maximal run of other characters becomes one dash. */
  function Collapse(s: string): (r: string)
    ensures IsSlug(r)
    ensures forall i :: 0 <= i < |r| - 1 ==> r[i] != '-' || r[i + 1] != '-'
    ensures s != [] && IsSlugChar(s[0]) ==> r != [] && r[0] != '-'
    decreases |s|
  {
    if s == [] then []
    else if IsSlugChar(s[0]) then [s[0]] + Collapse(s[1..])
    else
      var rest := DropRun(s[1..]);
      "-" + Collapse(rest)
  }

  function TrimStart(s: string): (r: string)
    ensures IsSlug(s) ==> IsSlug(r)
    ensures r == [] || r[0] != '-'
  {
    if s != [] && s[0] == '-' then TrimStart(s[1..]) else s
  }

  function TrimEnd(s: string): (r: string)
    ensures r <= s && (r == [] || r[|r| - 1] != '-')
  {
    if s != [] && s[|s| - 1] == '-' then TrimEnd(s[..|s| - 1]) else s
  }

  function Slice(s: string, n: nat): string { if |s| <= n then s else s[..n] }

  /** A non-empty segment of lower-case letters, digits and dashes that starts with no dash. */
  function SanitizeFilenameSegment(f: Folding, value: string, maxLen: nat): (r: string)
    ensures r != [] && IsSlug(r) && r[0] != '-'
    ensures |r| <= maxLen || r == "export"
  {
    var slug := Slice(TrimEnd(TrimStart(Collapse(f.lower(StripMarks(f.nfkd(value)))))), maxLen);
    if slug == [] then "export" else slug
  }

  // ---- what a segment keeps

  /** The maximal runs of lower-case letters and digits. */
  function WordsOf(s: string): (r: seq<string>)
    ensures forall w :: w in r ==> w != "" && w[0] != '-' && w[|w| - 1] != '-'
  {
    if s == [] then []
    else if !IsSlugChar(s[0]) then WordsOf(s[1..])
    else if |s| == 1 || !IsSlugChar(s[1]) then [[s[0]]] + WordsOf(s[1..])
    else
      var rest := WordsOf(s[1..]);
      if rest == [] then [[s[0]]] else [[s[0]] + rest[0]] + rest[1..]
  }

  lemma {:induction false} WordsStart(s: string)
    requires s != [] && IsSlugChar(s[0])
    ensures WordsOf(s) != []
  {
  }

  lemma {:induction false} NoWords(s: string)
    requires s != [] && WordsOf(s) == []
    ensures !IsSlugChar(s[0]) && !IsSlugChar(s[|s| - 1])
  {
    if |s| > 1 {
      NoWords(s[1..]);
    }
  }

  lemma {:induction false} RunHasNoWords(s: string)
    ensures WordsOf(DropRun(s)) == WordsOf(s)
    ensures DropRun(s) == s[|s| - |DropRun(s)|..]
  {
    if s != [] && !IsSlugChar(s[0]) {
      RunHasNoWords(s[1..]);
    }
  }

  /** A dash if the character is no letter or digit. */
  function Edge(c: char): string { if IsSlugChar(c) then "" else "-" }

  /** The words joined by dashes, with a dash where the text starts or ends outside one. */
  function Framed(s: string): string
    requires s != []
  {
    if WordsOf(s) == [] then "-" else Edge(s[0]) + Join(WordsOf(s), "-") + Edge(s[|s| - 1])
  }

  lemma {:induction false} CollapseIsWords(s: string)
    requires s != []
    ensures Collapse(s) == Framed(s)
    decreases |s|
  {
    if |s| == 1 {
      CollapseOne(s[0], s);
    } else {
      var t := s[1..];
      if !IsSlugChar(s[0]) {
        if DropRun(t) != [] {
          CollapseIsWords(DropRun(t));
        }
        CollapseGap(s, t, DropRun(t));
      } else {
        CollapseIsWords(t);
        if IsSlugChar(t[0]) {
          CollapseWithin(s, t);
        } else {
          CollapseWordEnd(s, t);
        }
      }
    }
  }

  lemma {:induction false} CollapseOne(c: char, s: string)
    requires s == [c]
    ensures Collapse(s) == Framed(s)
  {
    assert WordsOf(s[1..]) == [] && DropRun(s[1..]) == [];
    assert IsSlugChar(c) ==> Join([[c]], "-") == [c];
  }

  lemma Regroup(lead: string, middle: string, trail: string)
    ensures lead + ("" + middle + trail) == lead + middle + trail
    ensures "" + (lead + middle) + trail == lead + ("" + middle + trail)
    ensures "" + (lead + "-" + middle) + trail == lead + ("-" + middle + trail)
  {
  }

  lemma {:induction false} CollapseGap(s: string, t: string, rest: string)
    requires |s| > 1 && !IsSlugChar(s[0]) && t == s[1..] && rest == DropRun(t)
    requires rest != [] ==> Collapse(rest) == Framed(rest)
    ensures Collapse(s) == Framed(s)
  {
    AfterGap(s, t, rest);
    if rest != [] {
      WordsStart(rest);
      Regroup("-", Join(WordsOf(rest), "-"), Edge(s[|s| - 1]));
    }
  }

  lemma {:induction false} AfterGap(s: string, t: string, rest: string)
    requires |s| > 1 && !IsSlugChar(s[0]) && t == s[1..] && rest == DropRun(t)
    ensures WordsOf(s) == WordsOf(rest) && (rest != [] ==> rest[|rest| - 1] == s[|s| - 1])
  {
    RunHasNoWords(t);
    if rest != [] {
      LastOfSuffix(s, t, rest);
    }
  }

  lemma LastOfSuffix(s: string, t: string, rest: string)
    requires s != [] && t == s[1..] && rest != [] && |rest| <= |t| && rest == t[|t| - |rest|..]
    ensures rest[|rest| - 1] == s[|s| - 1]
  {
  }

  lemma {:induction false} CollapseWithin(s: string, t: string)
    requires |s| > 1 && IsSlugChar(s[0]) && t == s[1..] && IsSlugChar(t[0]) && Collapse(t) == Framed(t)
    ensures Collapse(s) == Framed(s)
  {
    WordsStart(t);
    JoinGrows(s[0], WordsOf(t));
    Regroup([s[0]], Join(WordsOf(t), "-"), Edge(s[|s| - 1]));
  }

  lemma {:induction false} CollapseWordEnd(s: string, t: string)
    requires |s| > 1 && IsSlugChar(s[0]) && t == s[1..] && !IsSlugChar(t[0]) && Collapse(t) == Framed(t)
    ensures Collapse(s) == Framed(s)
  {
    var words := WordsOf(t);
    if words == [] {
      NoWords(t);
      OneWord([s[0]], words);
    } else {
      JoinNext([s[0]], words);
      Regroup([s[0]], Join(words, "-"), Edge(s[|s| - 1]));
    }
  }

  lemma {:induction false} OneWord(word: string, none: seq<string>)
    requires none == []
    ensures Join([word] + none, "-") == word
  {
  }

  lemma {:induction false} JoinNext(word: string, words: seq<string>)
    requires words != []
    ensures Join([word] + words, "-") == word + "-" + Join(words, "-")
  {
    assert ([word] + words)[1..] == words;
  }

  lemma {:induction false} JoinGrows(c: char, words: seq<string>)
    requires words != []
    ensures Join([[c] + words[0]] + words[1..], "-") == [c] + Join(words, "-")
  {
    assert ([[c] + words[0]] + words[1..])[1..] == words[1..];
  }

  lemma {:induction false} JoinEnds(words: seq<string>)
    requires words != [] && forall w :: w in words ==> w != "" && w[0] != '-' && w[|w| - 1] != '-'
    ensures var x := Join(words, "-"); x != "" && x[0] != '-' && x[|x| - 1] != '-'
  {
    if |words| > 1 {
      JoinEnds(words[1..]);
    }
  }

  lemma {:induction false} TrimmedIs(lead: string, x: string, trail: string)
    requires x != "" && x[0] != '-' && x[|x| - 1] != '-' && lead in {"", "-"} && trail in {"", "-"}
    ensures TrimEnd(TrimStart(lead + x + trail)) == x
  {
    assert lead + x + trail == lead + (x + trail);
    StartTrimmed(lead, x + trail);
    EndTrimmed(x, trail);
  }

  lemma {:induction false} StartTrimmed(lead: string, x: string)
    requires x != "" && x[0] != '-' && lead in {"", "-"}
    ensures TrimStart(lead + x) == x
  {
    if lead == "-" {
      assert (lead + x)[1..] == x;
    } else {
      assert lead + x == x;
    }
  }

  lemma {:induction false} EndTrimmed(x: string, trail: string)
    requires x != "" && x[|x| - 1] != '-' && trail in {"", "-"}
    ensures TrimEnd(x + trail) == x
  {
    if trail == "-" {
      assert (x + trail)[..|x|] == x;
    } else {
      assert x + trail == x;
    }
  }

  lemma TrimmedDash()
    ensures TrimEnd(TrimStart("-")) == ""
  {
  }

  function Folded(f: Folding, value: string): string { f.lower(StripMarks(f.nfkd(value))) }

  lemma {:induction false} TrimmedWords(s: string)
    ensures TrimEnd(TrimStart(Collapse(s))) == Join(WordsOf(s), "-")
  {
    TrimmedDash();
    if s != [] {
      CollapseIsWords(s);
      if WordsOf(s) != [] {
        JoinEnds(WordsOf(s));
        TrimmedIs(Edge(s[0]), Join(WordsOf(s), "-"), Edge(s[|s| - 1]));
      }
    }
  }

  /** A segment is the words of the folded value joined by single dashes, cut to its length, or the word export when
      there are none. */
  lemma SegmentIsWords(f: Folding, value: string, maxLen: nat)
    ensures var joined := Join(WordsOf(f.lower(StripMarks(f.nfkd(value)))), "-");
            var cut := if |joined| <= maxLen then joined else joined[..maxLen];
            SanitizeFilenameSegment(f, value, maxLen) == if cut == "" then "export" else cut
  {
    TrimmedWords(Folded(f, value));
  }

  // ---- the date-range label

  /** The day an ISO date names; the day of the month may overflow its month. */
  function ParseDateOnly(iso: string): Option<int> {
    var d := Slice(iso, 10);
    if !DateKeys.IsShaped(d) then None
    else
      var c := DateKeys.Named(d);
      if 1 <= c.m <= 12 && 1 <= c.d <= 31 then Some(DayOf(c)) else None
  }

  function MonthName(m: int): (s: string)
    requires 1 <= m <= 12
    ensures |s| == 3 && forall i :: 0 <= i < 3 ==> 'a' <= s[i] <= 'z'
  {
    match m
    case 1 => "jan" case 2 => "feb" case 3 => "mar" case 4 => "apr" case 5 => "may" case 6 => "jun"
    case 7 => "jul" case 8 => "aug" case 9 => "sep" case 10 => "oct" case 11 => "nov" case _ => "dec"
  }

  /** How a range is shown. */
  datatype Label = OneDay(c: Civil) | WholeMonth(c: Civil) | WithinMonth(c: Civil, last: int)
                 | Iso(from: string, to: string) | Unknown
  {
    predicate Proper() {
      match this
      case OneDay(c) => c.Valid() && 0 <= c.y <= 9999
      case WholeMonth(c) => c.Valid() && 0 <= c.y <= 9999 && c.d == 1
      case WithinMonth(c, last) => c.Valid() && 0 <= c.y <= 9999 && 1 <= last <= 31
      case Iso(f, t) => DateKeys.IsShaped(f) && DateKeys.IsShaped(t)
      case Unknown => true
    }

    /** The dash-separated parts of every form but the ISO one. */
    function Words(): seq<string>
      requires Proper() && !Iso?
    {
      match this
      case OneDay(c) => [MonthName(c.m), Decimal(c.d), Decimal(c.y)]
      case WholeMonth(c) => [MonthName(c.m), Decimal(c.y)]
      case WithinMonth(c, last) => [MonthName(c.m), Decimal(c.d), "to", Decimal(last), Decimal(c.y)]
      case Unknown => ["unknown", "date"]
    }

    function Show(): string
      requires Proper()
    {
      if Iso? then from + "_to_" + to else Join(Words(), "-")
    }
  }

  /** The label of a range between two dates; lastDay is the length of the end's month, as Date.UTC
      gives it. */
  function LabelOfDates(s: Civil, e: Civil, lastDay: int, from: string, to: string): Label {
    if s == e then OneDay(s)
    else if s.y == e.y && s.m == e.m then
      if s.d == 1 && e.d == lastDay then WholeMonth(s) else WithinMonth(s, e.d)
    else Iso(from, to)
  }

  function LabelOf(from: string, to: string): Label {
    var start, end := ParseDateOnly(from), ParseDateOnly(to);
    if start.None? || end.None? then Unknown
    else
      var s, e := CivilOf(start.value), CivilOf(end.value);
      LabelOfDates(s, e, MonthGrid.DaysInMonth(e.y, e.m), Slice(from, 10), Slice(to, 10))
  }

  /** A parsed day lies in the year it was written with. */
  lemma ParsedYear(iso: string)
    requires ParseDateOnly(iso).Some?
    ensures 0 <= CivilOf(ParseDateOnly(iso).value).y <= 9999
  {
    var c := DateKeys.Named(Slice(iso, 10));
    DateKeys.ValueBounds(Slice(iso, 10)[..4]);
    DayOfInRange(c);
    YearStep(c.y);
    YearIs(DayOf(c), c.y);
  }

  lemma LabelProper(from: string, to: string)
    ensures LabelOf(from, to).Proper()
  {
    var start, end := ParseDateOnly(from), ParseDateOnly(to);
    if start.Some? && end.Some? {
      ParsedYear(from);
      var s, e := CivilOf(start.value), CivilOf(end.value);
      LabelOfDatesProper(s, e, MonthGrid.DaysInMonth(e.y, e.m), Slice(from, 10), Slice(to, 10));
    }
  }

  lemma LabelOfDatesProper(s: Civil, e: Civil, n: int, from: string, to: string)
    requires s.Valid() && e.Valid() && 0 <= s.y <= 9999 && DateKeys.IsShaped(from) && DateKeys.IsShaped(to)
    ensures LabelOfDates(s, e, n, from, to).Proper()
  {
  }

  function FormatExportDateRange(from: string, to: string): string {
    LabelProper(from, to);
    LabelOf(from, to).Show()
  }

  // ---- labels tell ranges apart

  lemma WordsInjective(a: Label, b: Label)
    requires a.Proper() && !a.Iso? && b.Proper() && !b.Iso? && a.Words() == b.Words()
    ensures a == b
  {
    var v, w := a.Words(), b.Words();
    var n := |v| - 1;
    assert v[0] == w[0] && v[n] == w[n] && v[1] == w[1];
    if !a.Unknown? && !b.Unknown? {
      DecimalInjective(a.c.y, b.c.y);
      if n >= 2 {
        DecimalInjective(a.c.d, b.c.d);
      }
      if n == 4 {
        assert v[3] == w[3];
        DecimalInjective(a.last, b.last);
      }
    }
  }

  /** What a label starts with. */
  lemma FirstChar(l: Label)
    requires l.Proper()
    ensures l.Show() != [] && (l.Iso? <==> IsDigit(l.Show()[0]))
  {
    if l.Iso? {
      assert IsDigit(l.from[..4][0]);
    } else {
      assert l.Show()[0] == l.Words()[0][0];
    }
  }

  lemma IsoInjective(a: Label, b: Label)
    requires a.Iso? && b.Iso? && a.Proper() && b.Proper() && a.Show() == b.Show()
    ensures a == b
  {
    IsoParts(a.from, a.to);
    IsoParts(b.from, b.to);
  }

  lemma IsoParts(f: string, t: string)
    requires |f| == 10
    ensures (f + "_to_" + t)[..10] == f && (f + "_to_" + t)[14..] == t
  {
  }

  lemma DashFree(l: Label)
    requires l.Proper() && !l.Iso?
    ensures forall i :: 0 <= i < |l.Words()| ==> '-' !in l.Words()[i]
  {
  }

  lemma ShowInjective(a: Label, b: Label)
    requires a.Proper() && b.Proper() && a.Show() == b.Show()
    ensures a == b
  {
    FirstChar(a);
    FirstChar(b);
    if a.Iso? {
      IsoInjective(a, b);
    } else {
      DashFree(a);
      DashFree(b);
      SplitInvertsJoin(a.Words(), '-');
      SplitInvertsJoin(b.Words(), '-');
      WordsInjective(a, b);
    }
  }

  lemma LabelDates(s: Civil, e: Civil, n: int, s': Civil, e': Civil, n': int,
                   f: string, t: string, f': string, t': string)
    requires LabelOfDates(s, e, n, f, t) == LabelOfDates(s', e', n', f', t')
    requires e.y == e'.y && e.m == e'.m ==> n == n'
    ensures (s == s' && e == e') || (f == f' && t == t')
  {
  }

  /** Over parsed dates, labels are equal only for ranges with the same first and the same last day. */
  lemma LabelsInjective(from: string, to: string, from': string, to': string)
    requires ParseDateOnly(from).Some? && ParseDateOnly(to).Some?
    requires ParseDateOnly(from').Some? && ParseDateOnly(to').Some?
    requires FormatExportDateRange(from, to) == FormatExportDateRange(from', to')
    ensures ParseDateOnly(from) == ParseDateOnly(from') && ParseDateOnly(to) == ParseDateOnly(to')
  {
    LabelProper(from, to);
    LabelProper(from', to');
    ShowInjective(LabelOf(from, to), LabelOf(from', to'));
    var s, e := CivilOf(ParseDateOnly(from).value), CivilOf(ParseDateOnly(to).value);
    var s', e' := CivilOf(ParseDateOnly(from').value), CivilOf(ParseDateOnly(to').value);
    LabelDates(s, e, MonthGrid.DaysInMonth(e.y, e.m), s', e', MonthGrid.DaysInMonth(e'.y, e'.m),
               Slice(from, 10), Slice(to, 10), Slice(from', 10), Slice(to', 10));
    if s == s' && e == e' {
      SameCivil(ParseDateOnly(from).value, ParseDateOnly(from').value);
      SameCivil(ParseDateOnly(to).value, ParseDateOnly(to').value);
    }
  }

  lemma SameCivil(n: int, k: int)
    requires CivilOf(n) == CivilOf(k)
    ensures n == k
  {
    DayInverts(n);
    DayInverts(k);
  }

  // ---- the name

  datatype Input = Input(workspaceSlug: string, tenantSlug: Option<string>, from: string, to: string, ext: string,
                         reportSlug: Option<string>, purposeSlug: Option<string>, scopeHint: Option<string>,
                         member: bool)

  /** An optional field counts as given only when it is not empty. */
  function OptionalSegment(f: Folding, value: Option<string>, maxLen: nat): (r: string)
    ensures IsSlug(r) && (|r| <= maxLen || r == "export")
  {
    if value.None? || value.value == "" then "" else SanitizeFilenameSegment(f, value.value, maxLen)
  }

  function Purpose(input: Input): string {
    if input.purposeSlug.Some? then input.purposeSlug.value
    else if input.member then "my-timesheet"
    else if input.reportSlug.Some? then input.reportSlug.value
    else "export"
  }

  function SafeExt(f: Folding, ext: string): (r: string)
    ensures r != [] && forall i :: 0 <= i < |r| ==> IsSlugChar(r[i])
  {
    var e := f.lower(if ext != [] && ext[0] == '.' then ext[1..] else ext);
    if e != [] && forall i | 0 <= i < |e| :: IsSlugChar(e[i]) then e else "bin"
  }

  /** Everything before the date range, as segments: brand, tenant if given, workspace, purpose, hint if
      given. */
  function Parts(tenant: string, ws: string, purpose: string, hint: string): seq<string> {
    [BRAND_SLUG] + (if tenant == "" then [] else [tenant]) + [ws, purpose] + if hint == "" then [] else [hint]
  }

  function Segments(f: Folding, input: Input): seq<string> {
    Parts(OptionalSegment(f, input.tenantSlug, 32), SanitizeFilenameSegment(f, input.workspaceSlug, 32),
          SanitizeFilenameSegment(f, Purpose(input), 32), OptionalSegment(f, input.scopeHint, 24))
  }

  /** The name without its extension, uncut. */
  function Base(f: Folding, input: Input): string {
    Join(Segments(f, input) + [FormatExportDateRange(input.from, input.to)], "-")
  }

  function Truthy(parts: seq<string>): seq<string> {
    if parts == [] then [] else (if parts[0] == "" then [] else [parts[0]]) + Truthy(parts[1..])
  }

  lemma {:induction false} TruthyOfNonEmpty(parts: seq<string>)
    requires forall i :: 0 <= i < |parts| ==> parts[i] != ""
    ensures Truthy(parts) == parts
  {
    if parts != [] {
      TruthyOfNonEmpty(parts[1..]);
      assert parts == [parts[0]] + parts[1..];
    }
  }

  /** The parts are pushed one by one, joined and cut to 180 characters; the cut never shortens. */
  method BuildExportFilename(f: Folding, input: Input) returns (name: string)
    ensures name == Name(f, input)
  {
    var ws := SanitizeFilenameSegment(f, input.workspaceSlug, 32);
    var tenant := OptionalSegment(f, input.tenantSlug, 32);
    var dateRange := FormatExportDateRange(input.from, input.to);
    var purpose := SanitizeFilenameSegment(f, Purpose(input), 32);
    var hint := OptionalSegment(f, input.scopeHint, 24);
    var parts := [BRAND_SLUG] + (if tenant == "" then [] else [tenant]) + [ws, purpose];
    if hint != "" {
      parts := parts + [hint];
    }
    assert parts == Segments(f, input);
    parts := parts + [dateRange];
    SegmentsNonEmpty(f, input);
    TruthyOfNonEmpty(parts);
    var base := Join(Truthy(parts), "-");
    assert base == Base(f, input);
    BaseBounded(f, input);
    name := Slice(base, 180) + "." + SafeExt(f, input.ext);
  }

  /** An extension of letters and digits is kept, lower-cased, with or without its dot; any other becomes bin. */
  lemma ExtensionKept(f: Folding, ext: string)
    requires ext == "" || ext[0] != '.'
    ensures SafeExt(f, "." + ext) == SafeExt(f, ext)
    ensures SafeExt(f, ext) == f.lower(ext) || SafeExt(f, ext) == "bin"
    ensures f.lower(ext) != "" && (forall i :: 0 <= i < |f.lower(ext)| ==> IsSlugChar(f.lower(ext)[i])) ==>
              SafeExt(f, ext) == f.lower(ext)
  {
    assert ("." + ext)[1..] == ext;
  }

  lemma SegmentsNonEmpty(f: Folding, input: Input)
    ensures forall i :: 0 <= i < |Segments(f, input)| ==> Segments(f, input)[i] != ""
    ensures FormatExportDateRange(input.from, input.to) != ""
  {
    LabelText(input.from, input.to);
    PartsNonEmpty(OptionalSegment(f, input.tenantSlug, 32), SanitizeFilenameSegment(f, input.workspaceSlug, 32),
                  SanitizeFilenameSegment(f, Purpose(input), 32), OptionalSegment(f, input.scopeHint, 24));
  }

  lemma PartsNonEmpty(tenant: string, ws: string, purpose: string, hint: string)
    requires ws != "" && purpose != ""
    ensures var p := Parts(tenant, ws, purpose, hint); forall i :: 0 <= i < |p| ==> p[i] != ""
  {
  }

  // ---- its length and characters

  predicate IsPlainText(s: string) { forall i | 0 <= i < |s| :: IsSlugChar(s[i]) || s[i] in "-_" }

  lemma {:induction false} JoinAppend(p: seq<string>, x: string)
    requires p != []
    ensures Join(p + [x], "-") == Join(p, "-") + "-" + x
  {
    if |p| == 1 {
      assert (p + [x])[1..] == [x];
    } else {
      JoinAppend(p[1..], x);
      assert (p + [x])[1..] == p[1..] + [x];
      assert p[0] + "-" + (Join(p[1..], "-") + "-" + x) == p[0] + "-" + Join(p[1..], "-") + "-" + x;
    }
  }

  lemma {:induction false} JoinText(p: seq<string>)
    requires forall i :: 0 <= i < |p| ==> IsPlainText(p[i])
    ensures IsPlainText(Join(p, "-"))
  {
    if |p| > 1 {
      JoinText(p[1..]);
    }
  }

  lemma {:induction false} JoinShort(p: seq<string>)
    requires forall i :: 0 <= i < |p| ==> |p[i]| <= 4
    ensures p != [] ==> |Join(p, "-")| <= 5 * |p| - 1
  {
    if |p| > 1 {
      JoinShort(p[1..]);
    }
  }

  lemma DecimalShort(n: int)
    requires 0 <= n < 10000
    ensures |Decimal(n)| <= 4 && IsPlainText(Decimal(n))
  {
    if n >= 10 {
      NaturalDigits(n);
      if n >= 100 {
        NaturalDigits(n / 10);
        if n >= 1000 {
          NaturalDigits(n / 10 / 10);
        }
      }
    }
  }

  lemma {:induction false} NaturalDigits(n: nat)
    requires n >= 10
    ensures |Natural(n)| == 1 + |Natural(n / 10)|
  {
  }

  lemma WordsText(l: Label)
    requires l.Proper() && !l.Iso? && !l.Unknown?
    ensures forall i :: 0 <= i < |l.Words()| ==> |l.Words()[i]| <= 4 && IsPlainText(l.Words()[i])
    ensures 2 <= |l.Words()| <= 5
  {
    DecimalShort(l.c.y);
    DecimalShort(l.c.d);
    if l.WithinMonth? {
      DecimalShort(l.last);
    }
  }

  lemma ShowText(l: Label)
    requires l.Proper()
    ensures 1 <= |l.Show()| <= 24 && IsPlainText(l.Show())
  {
    FirstChar(l);
    if l.Iso? {
      assert IsPlainText(l.from) && IsPlainText(l.to) by { ShapedText(l.from); ShapedText(l.to); }
    } else if l.Unknown? {
      assert l.Words()[1..] == ["date"];
      assert l.Show() == "unknown-date";
    } else {
      WordsText(l);
      JoinText(l.Words());
      JoinShort(l.Words());
    }
  }

  lemma ShapedText(key: string)
    requires DateKeys.IsShaped(key)
    ensures IsPlainText(key)
  {
    DateKeys.ParseShaped(key);
    var a, b, c := key[..4], key[5..7], key[8..];
    assert IsPlainText(a + "-" + b + "-" + c);
  }

  lemma LabelText(from: string, to: string)
    ensures 1 <= |FormatExportDateRange(from, to)| <= 24
    ensures IsPlainText(FormatExportDateRange(from, to))
  {
    LabelProper(from, to);
    ShowText(LabelOf(from, to));
  }

  lemma SegmentsBounded(f: Folding, input: Input)
    ensures |Join(Segments(f, input), "-")| <= 130 && IsPlainText(Join(Segments(f, input), "-"))
  {
    PartsBounded(OptionalSegment(f, input.tenantSlug, 32), SanitizeFilenameSegment(f, input.workspaceSlug, 32),
                 SanitizeFilenameSegment(f, Purpose(input), 32), OptionalSegment(f, input.scopeHint, 24));
  }

  lemma PartsBounded(tenant: string, ws: string, purpose: string, hint: string)
    requires |tenant| <= 32 && |ws| <= 32 && |purpose| <= 32 && |hint| <= 24
    requires IsSlug(tenant) && IsSlug(ws) && IsSlug(purpose) && IsSlug(hint)
    ensures var s := Join(Parts(tenant, ws, purpose, hint), "-"); |s| <= 130 && IsPlainText(s)
  {
    var p := if tenant == "" then [BRAND_SLUG] else [BRAND_SLUG] + [tenant];
    var q := p + [ws] + [purpose];
    assert Parts(tenant, ws, purpose, hint) == if hint == "" then q else q + [hint];
    FrontBounded(tenant, ws, purpose, p);
    if hint != "" {
      JoinAppend(q, hint);
    }
    JoinText(Parts(tenant, ws, purpose, hint));
  }

  lemma {:induction false} FrontBounded(tenant: string, ws: string, purpose: string, p: seq<string>)
    requires |tenant| <= 32 && |ws| <= 32 && |purpose| <= 32
    requires p == if tenant == "" then [BRAND_SLUG] else [BRAND_SLUG] + [tenant]
    ensures |Join(p + [ws] + [purpose], "-")| <= 105
  {
    JoinAppend([BRAND_SLUG], tenant);
    JoinAppend(p, ws);
    JoinAppend(p + [ws], purpose);
  }

  lemma BaseSplits(f: Folding, input: Input)
    ensures Base(f, input)
         == Join(Segments(f, input), "-") + "-" + FormatExportDateRange(input.from, input.to)
  {
    JoinAppend(Segments(f, input), FormatExportDateRange(input.from, input.to));
  }

  /** At most 155 characters before the extension, all of them lower-case letters, digits, - and _. */
  lemma BaseBounded(f: Folding, input: Input)
    ensures |Base(f, input)| <= 155 && IsPlainText(Base(f, input))
  {
    BaseSplits(f, input);
    SegmentsBounded(f, input);
    LabelText(input.from, input.to);
    DashedText(Join(Segments(f, input), "-"), FormatExportDateRange(input.from, input.to));
  }

  lemma DashedText(a: string, b: string)
    requires IsPlainText(a) && IsPlainText(b)
    ensures |a + "-" + b| == |a| + |b| + 1 && IsPlainText(a + "-" + b)
  {
  }

  // ---- what follows for downloads

  function Name(f: Folding, input: Input): string { Base(f, input) + "." + SafeExt(f, input.ext) }

  /** Every generated name is made of lower-case letters, digits, - _ and . and survives the
      Content-Disposition header. */
  lemma NameRoundTrip(f: Folding, input: Input)
    ensures forall i :: 0 <= i < |Name(f, input)| ==> IsSlugChar(Name(f, input)[i]) || Name(f, input)[i] in "-_."
    ensures IsAscii(Name(f, input)) && Survives(Ascii(Name(f, input)))
  {
    BaseBounded(f, input);
    PlainSurvives(Base(f, input), SafeExt(f, input.ext));
  }

  predicate Survives(name: JsString) {
    var header := ContentDisposition.FormatContentDisposition(name);
    header.Success? && ContentDisposition.ParseContentDispositionFilename(Some(header.value)) == Some(name)
  }

  lemma PlainSurvives(base: string, ext: string)
    requires IsPlainText(base) && forall i :: 0 <= i < |ext| ==> IsSlugChar(ext[i])
    ensures var name := base + "." + ext; forall k :: 0 <= k < |name| ==> IsSlugChar(name[k]) || name[k] in "-_."
    ensures IsAscii(base + "." + ext) && Survives(Ascii(base + "." + ext))
  {
    var name := base + "." + ext;
    forall k | 0 <= k < |name| ensures IsSlugChar(name[k]) || name[k] in "-_." {
      assert name[k] == if k < |base| then base[k] else if k == |base| then '.' else ext[k - |base| - 1];
    }
    PlainUnits(name);
    ContentDisposition.PlainNameRoundTrip(Ascii(name));
  }

  lemma PlainUnits(name: string)
    requires forall k :: 0 <= k < |name| ==> IsSlugChar(name[k]) || name[k] in "-_."
    ensures IsAscii(name)
    ensures forall k :: 0 <= k < |name| ==> ContentDisposition.IsPlain(Ascii(name)[k])
  {
  }

  /** Exports that differ only in their range never share a name: equal names, the same days. */
  lemma NamesTellRangesApart(f: Folding, a: Input, b: Input)
    requires b == a.(from := b.from, to := b.to)
    requires ParseDateOnly(a.from).Some? && ParseDateOnly(a.to).Some?
    requires ParseDateOnly(b.from).Some? && ParseDateOnly(b.to).Some?
    requires Name(f, a) == Name(f, b)
    ensures ParseDateOnly(a.from) == ParseDateOnly(b.from) && ParseDateOnly(a.to) == ParseDateOnly(b.to)
  {
    NameSplits(f, a);
    NameSplits(f, b);
    SameSegments(f, a, b);
    Middle(Join(Segments(f, a), "-") + "-", FormatExportDateRange(a.from, a.to),
           FormatExportDateRange(b.from, b.to), "." + SafeExt(f, a.ext));
    LabelsInjective(a.from, a.to, b.from, b.to);
  }

  lemma NameSplits(f: Folding, a: Input)
    ensures Name(f, a)
         == Join(Segments(f, a), "-") + "-" + FormatExportDateRange(a.from, a.to) + ("." + SafeExt(f, a.ext))
  {
    BaseSplits(f, a);
    Associates(Base(f, a), ".", SafeExt(f, a.ext));
  }

  lemma Associates(a: string, b: string, c: string)
    ensures a + b + c == a + (b + c)
  {
  }

  lemma SameSegments(f: Folding, a: Input, b: Input)
    requires b == a.(from := b.from, to := b.to)
    ensures Segments(f, a) == Segments(f, b)
  {
  }

  lemma Middle(a: string, x: string, y: string, b: string)
    requires a + x + b == a + y + b
    ensures x == y
  {
    assert |x| == |y|;
    assert (a + x + b)[|a|..|a| + |x|] == x && (a + y + b)[|a|..|a| + |x|] == y;
  }
}
