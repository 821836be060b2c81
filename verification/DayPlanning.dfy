/** Planning time logs over a range of calendar days: four slots a day, placed from the local midnight. */
module DayPlanning {
  import opened Calendar
  import opened Overlap

  const MINUTE := 60 * 1000
  const HOUR := 60 * MINUTE

  /** Nine hours and a quarter: from the start of the first slot to the end of the last. */
  const WORKDAY := 9 * HOUR + 15 * MINUTE

  // ---- the days of a range

  function Range(first: int, last: int): seq<Civil> {
    seq(if first <= last then last - first + 1 else 0, i => CivilOf(first + i))
  }

  function CursorDay(c: Civil): int { MakeDay(JsYear(c.y), c.m - 1, c.d) }

  /** A generator: the cursor moves a day at a time, and what it yields is collected. */
  method IterateCalendarDays(from: Civil, to: Civil) returns (days: seq<Civil>)
    ensures days == Range(CursorDay(from), CursorDay(to))
  {
    var cursor, end := CursorDay(from), CursorDay(to);
    ghost var first := cursor;
    days := [];
    while cursor <= end
      invariant days == Range(first, cursor - 1) && (first <= end ==> cursor <= end + 1)
      invariant first <= cursor && (cursor == first || cursor <= end + 1)
      decreases end - cursor
    {
      days := days + [CivilOf(cursor)];
      cursor := cursor + 1;
    }
  }

  lemma RangeHolds(first: int, last: int, c: Civil)
    ensures c in Range(first, last) <==> c.Valid() && first <= DayOf(c) <= last
  {
    var days := Range(first, last);
    if c in days {
      var i :| 0 <= i < |days| && days[i] == c;
      DayInverts(first + i);
    }
    if c.Valid() && first <= DayOf(c) <= last {
      CivilInverts(c);
      assert days[DayOf(c) - first] == c;
    }
  }

  lemma RangeOrdered(first: int, last: int, i: int, j: int)
    requires 0 <= i < j < |Range(first, last)|
    ensures Range(first, last)[i].Before(Range(first, last)[j])
  {
    DatesOrdered(first + i, first + j);
  }

  lemma DatesOrdered(n: int, k: int)
    requires n < k
    ensures CivilOf(n).Before(CivilOf(k))
  {
    DayInverts(n);
    DayInverts(k);
    DayOrder(CivilOf(n), CivilOf(k));
  }

  /** Whatever the ends: exactly the valid dates between the two days they name come out, each once and in order;
      between valid dates outside the years 0 to 99 these are the dates from the first to the last. */
  lemma RangeIsCalendar(from: Civil, to: Civil)
    ensures var days := Range(CursorDay(from), CursorDay(to));
            (forall i, j :: 0 <= i < j < |days| ==> days[i].Before(days[j]))
            && forall c: Civil :: c in days <==> c.Valid() && CursorDay(from) <= DayOf(c) <= CursorDay(to)
    ensures from.Valid() && to.Valid() && JsYear(from.y) == from.y && JsYear(to.y) == to.y ==>
              forall c: Civil :: c in Range(CursorDay(from), CursorDay(to))
                                 <==> c.Valid() && !c.Before(from) && !to.Before(c)
  {
    var first, last := CursorDay(from), CursorDay(to);
    forall i, j | 0 <= i < j < |Range(first, last)|
      ensures Range(first, last)[i].Before(Range(first, last)[j])
    {
      RangeOrdered(first, last, i, j);
    }
    forall c: Civil ensures c in Range(first, last) <==> c.Valid() && first <= DayOf(c) <= last {
      RangeHolds(first, last, c);
    }
    if from.Valid() && to.Valid() && JsYear(from.y) == from.y && JsYear(to.y) == to.y {
      forall c: Civil ensures c in Range(first, last) <==> c.Valid() && !c.Before(from) && !to.Before(c) {
        Between(from, to, c);
      }
    }
  }

  lemma Between(from: Civil, to: Civil, c: Civil)
    requires from.Valid() && to.Valid() && JsYear(from.y) == from.y && JsYear(to.y) == to.y
    ensures c in Range(CursorDay(from), CursorDay(to)) <==> c.Valid() && !c.Before(from) && !to.Before(c)
  {
    RangeHolds(CursorDay(from), CursorDay(to), c);
    assert CursorDay(from) == DayOf(from) && CursorDay(to) == DayOf(to);
    if c.Valid() {
      DayOrder(c, from);
      DayOrder(to, c);
    }
  }

  // ---- one day's entries

  datatype Slot = Slot(startH: int, startM: int, durationMin: int)

  const WEEKDAY_ENTRY_SLOTS := [Slot(9, 0, 120), Slot(11, 30, 120), Slot(14, 0, 120), Slot(16, 15, 120)]

  datatype Plan = Plan(day: Civil, span: Span, durationSec: int)

  /** midnight gives the instant of local midnight of a day. */
  function LocalWallTimeUtc(midnight: Civil -> int, day: Civil, hour: int, minute: int): int {
    midnight(day) + (hour * 60 + minute) * MINUTE
  }

  function PlanSlot(midnight: Civil -> int, day: Civil, slot: Slot): Plan {
    var start := LocalWallTimeUtc(midnight, day, slot.startH, slot.startM);
    Plan(day, Span(start, start + slot.durationMin * MINUTE), slot.durationMin * 60)
  }

  function PlanDayEntries(midnight: Civil -> int, day: Civil): seq<Plan> {
    seq(|WEEKDAY_ENTRY_SLOTS|, i requires 0 <= i < |WEEKDAY_ENTRY_SLOTS| =>
      PlanSlot(midnight, day, WEEKDAY_ENTRY_SLOTS[i]))
  }

  function PlanDays(midnight: Civil -> int, days: seq<Civil>): seq<Plan> {
    if days == [] then [] else PlanDayEntries(midnight, days[0]) + PlanDays(midnight, days[1..])
  }

  function Batch(userId: string, plans: seq<Plan>): seq<Row> {
    seq(|plans|, i requires 0 <= i < |plans| => Row(userId, plans[i].span))
  }

  function TotalSeconds(plans: seq<Plan>): int {
    if plans == [] then 0 else plans[0].durationSec + TotalSeconds(plans[1..])
  }

  function TotalHours(plans: seq<Plan>): real { TotalSeconds(plans) as real / 3600.0 }

  function Spans(plans: seq<Plan>): seq<Span> {
    seq(|plans|, i requires 0 <= i < |plans| => plans[i].span)
  }

  // ---- when a batch is free of overlaps

  predicate Apart(a: int, b: int) { a + WORKDAY <= b || b + WORKDAY <= a }

  /** The slots of a day with midnight m. */
  function DaySpans(m: int): seq<Span> {
    [Span(m + 9 * HOUR, m + 11 * HOUR), Span(m + 11 * HOUR + 30 * MINUTE, m + 13 * HOUR + 30 * MINUTE),
     Span(m + 14 * HOUR, m + 16 * HOUR), Span(m + 16 * HOUR + 15 * MINUTE, m + 18 * HOUR + 15 * MINUTE)]
  }

  /** A day has four entries of two hours, from 9:00, 11:30, 14:00 and 16:15 local time. */
  lemma EntriesAre(midnight: Civil -> int, day: Civil)
    ensures Spans(PlanDayEntries(midnight, day)) == DaySpans(midnight(day))
    ensures var m := midnight(day);
            DaySpans(m) == [Span(m + 32_400_000, m + 39_600_000), Span(m + 41_400_000, m + 48_600_000),
                            Span(m + 50_400_000, m + 57_600_000), Span(m + 58_500_000, m + 65_700_000)]
    ensures |PlanDayEntries(midnight, day)| == 4
    ensures forall p :: p in PlanDayEntries(midnight, day) ==> p.day == day && p.durationSec == 7200
  {
  }

  predicate Clear(a: seq<Span>, b: seq<Span>) {
    forall x, y :: x in a && y in b ==> !Overlaps(x, y)
  }

  /** Two days' slots keep clear of each other exactly when their midnights are 9h15m apart. */
  lemma DaysClear(a: int, b: int)
    ensures Clear(DaySpans(a), DaySpans(b)) <==> Apart(a, b)
    ensures Apart(a, b) <==> a + 33_300_000 <= b || b + 33_300_000 <= a
  {
    if !Apart(a, b) {
      SomeSlotsMeet(a, b);
    }
  }

  lemma SomeSlotsMeet(a: int, b: int)
    requires !Apart(a, b)
    ensures !Clear(DaySpans(a), DaySpans(b))
  {
    var s, t := DaySpans(a), DaySpans(b);
    var g := b - a;
    if -2 * HOUR < g < 2 * HOUR {
      assert s[0] in s && t[0] in t && Overlaps(s[0], t[0]);
    } else if g >= 0 {
      MeetLater(a, b);
    } else {
      MeetLater(b, a);
      var x, y :| x in t && y in s && Overlaps(x, y);
      assert Overlaps(y, x);
    }
  }

  lemma MeetLater(a: int, b: int)
    requires 2 * HOUR <= b - a < WORKDAY
    ensures exists x, y :: x in DaySpans(a) && y in DaySpans(b) && Overlaps(x, y)
  {
    var s, t := DaySpans(a), DaySpans(b);
    var g := b - a;
    assert t[0] in t;
    if g < 4 * HOUR {
      assert s[1] in s && Overlaps(s[1], t[0]);
    } else if g < 6 * HOUR {
      assert s[2] in s && Overlaps(s[2], t[0]);
    } else {
      assert s[3] in s && Overlaps(s[3], t[0]);
    }
  }

  lemma DayAlone(m: int)
    ensures NoOverlap(DaySpans(m)) && forall x :: x in DaySpans(m) ==> x.start < x.end
  {
  }

  lemma NoOverlapConcat(a: seq<Span>, b: seq<Span>)
    ensures NoOverlap(a + b) <==> NoOverlap(a) && NoOverlap(b) && Clear(a, b)
  {
    var s := a + b;
    if NoOverlap(s) {
      forall x, y | x in a && y in b ensures !Overlaps(x, y) {
        var i :| 0 <= i < |a| && a[i] == x;
        var j :| 0 <= j < |b| && b[j] == y;
        assert s[i] == x && s[|a| + j] == y;
      }
      forall i, j | 0 <= i < j < |b| ensures !Overlaps(b[i], b[j]) {
        assert s[|a| + i] == b[i] && s[|a| + j] == b[j];
      }
      forall i, j | 0 <= i < j < |a| ensures !Overlaps(a[i], a[j]) {
        assert s[i] == a[i] && s[j] == a[j];
      }
    }
  }

  lemma {:induction false} SpansSplit(midnight: Civil -> int, days: seq<Civil>)
    requires days != []
    ensures Spans(PlanDays(midnight, days))
         == DaySpans(midnight(days[0])) + Spans(PlanDays(midnight, days[1..]))
  {
    EntriesAre(midnight, days[0]);
  }

  /** A day keeps clear of a list of days exactly when it is apart from each. */
  lemma {:induction false} ClearOfAll(midnight: Civil -> int, m: int, days: seq<Civil>)
    ensures Clear(DaySpans(m), Spans(PlanDays(midnight, days)))
       <==> forall i :: 0 <= i < |days| ==> Apart(m, midnight(days[i]))
  {
    if days != [] {
      ClearOfAll(midnight, m, days[1..]);
      SpansSplit(midnight, days);
      DaysClear(m, midnight(days[0]));
      ClearOfSum(DaySpans(m), DaySpans(midnight(days[0])), Spans(PlanDays(midnight, days[1..])));
      assert forall i :: 1 <= i < |days| ==> days[i] == days[1..][i - 1];
    }
  }

  lemma ClearOfSum(a: seq<Span>, b: seq<Span>, c: seq<Span>)
    ensures Clear(a, b + c) <==> Clear(a, b) && Clear(a, c)
  {
    forall y ensures y in b + c <==> y in b || y in c {
    }
  }

  predicate AllApart(midnight: Civil -> int, days: seq<Civil>) {
    forall i, j | 0 <= i < j < |days| :: Apart(midnight(days[i]), midnight(days[j]))
  }

  lemma AllApartCons(midnight: Civil -> int, days: seq<Civil>)
    requires days != []
    ensures AllApart(midnight, days) <==>
              (forall i :: 0 <= i < |days[1..]| ==> Apart(midnight(days[0]), midnight(days[1..][i])))
              && AllApart(midnight, days[1..])
  {
    var t := days[1..];
    if AllApart(midnight, days) {
      forall i | 0 <= i < |t| ensures Apart(midnight(days[0]), midnight(t[i])) {
        assert t[i] == days[i + 1];
      }
      forall i, j | 0 <= i < j < |t| ensures Apart(midnight(t[i]), midnight(t[j])) {
        assert t[i] == days[i + 1] && t[j] == days[j + 1];
      }
    }
  }

  lemma {:induction false} PlansExactly(midnight: Civil -> int, days: seq<Civil>)
    ensures NoOverlap(Spans(PlanDays(midnight, days))) <==> AllApart(midnight, days)
    ensures forall x :: x in Spans(PlanDays(midnight, days)) ==> x.start < x.end
    ensures TotalSeconds(PlanDays(midnight, days)) == 28800 * |days|
  {
    if days != [] {
      var m := midnight(days[0]);
      PlansExactly(midnight, days[1..]);
      SpansSplit(midnight, days);
      DayAlone(m);
      NoOverlapConcat(DaySpans(m), Spans(PlanDays(midnight, days[1..])));
      ClearOfAll(midnight, m, days[1..]);
      AllApartCons(midnight, days);
      EntriesAre(midnight, days[0]);
      DaySeconds(PlanDayEntries(midnight, days[0]), PlanDays(midnight, days[1..]));
    }
  }

  lemma {:induction false} DaySeconds(a: seq<Plan>, b: seq<Plan>)
    requires forall i :: 0 <= i < |a| ==> a[i].durationSec == 7200
    ensures TotalSeconds(a + b) == 7200 * |a| + TotalSeconds(b)
  {
    if a == [] {
      assert a + b == b;
    } else {
      DaySeconds(a[1..], b);
      assert (a + b)[1..] == a[1..] + b;
    }
  }

  lemma {:induction false} BatchSpans(userId: string, plans: seq<Plan>, u: string)
    ensures SpansOf(Batch(userId, plans), u) == if u == userId then Spans(plans) else []
  {
    if plans != [] {
      BatchSpans(userId, plans[1..], u);
      assert Batch(userId, plans)[1..] == Batch(userId, plans[1..]);
      assert Spans(plans) == [plans[0].span] + Spans(plans[1..]);
    }
  }

  /** For any list of days, the batch check reports nothing exactly when every two local midnights in
      the list are at least 9h15m apart; the plan totals eight hours a day either way. */
  lemma {:induction false} BatchExactly(userId: string, midnight: Civil -> int, days: seq<Civil>)
    ensures var rows := Batch(userId, PlanDays(midnight, days));
            AllClashes(rows, UsersOf(rows)) == [] <==> AllApart(midnight, days)
    ensures AllApart(midnight, days)
       <==> forall i, j :: 0 <= i < j < |days| ==>
              midnight(days[i]) + 33_300_000 <= midnight(days[j]) || midnight(days[j]) + 33_300_000 <= midnight(days[i])
    ensures TotalHours(PlanDays(midnight, days)) == 8.0 * |days| as real
  {
    PlansExactly(midnight, days);
    MillisecondsApart(midnight, days);
    BatchCheck(userId, PlanDays(midnight, days));
  }

  lemma MillisecondsApart(midnight: Civil -> int, days: seq<Civil>)
    ensures AllApart(midnight, days)
       <==> forall i, j :: 0 <= i < j < |days| ==>
              midnight(days[i]) + 33_300_000 <= midnight(days[j]) || midnight(days[j]) + 33_300_000 <= midnight(days[i])
  {
  }

  lemma BatchCheck(userId: string, plans: seq<Plan>)
    requires forall x :: x in Spans(plans) ==> x.start < x.end
    ensures var rows := Batch(userId, plans);
            AllClashes(rows, UsersOf(rows)) == [] <==> NoOverlap(Spans(plans))
  {
    var rows := Batch(userId, plans);
    BatchPositive(userId, plans);
    FastCheckRefinesSimple(rows);
    if NoOverlap(Spans(plans)) {
      forall u ensures NoOverlap(SpansOf(rows, u)) {
        BatchSpans(userId, plans, u);
      }
    }
    BatchSpans(userId, plans, userId);
  }

  lemma BatchPositive(userId: string, plans: seq<Plan>)
    requires forall x :: x in Spans(plans) ==> x.start < x.end
    ensures forall r :: r in Batch(userId, plans) ==> r.span.start < r.span.end
  {
    forall r | r in Batch(userId, plans) ensures r.span.start < r.span.end {
      var i :| 0 <= i < |plans| && Batch(userId, plans)[i] == r;
      assert Spans(plans)[i] == r.span;
    }
  }

  // ---- calendar days

  /** Local midnights of consecutive days at least 9h15m apart. */
  ghost predicate Spaced(midnight: Civil -> int) {
    forall n, k :: k == n + 1 ==> midnight(CivilOf(n)) + WORKDAY <= midnight(CivilOf(k))
  }

  lemma {:induction false} SpacedDays(midnight: Civil -> int, n: int, k: int)
    requires Spaced(midnight) && n < k
    ensures midnight(CivilOf(n)) + WORKDAY <= midnight(CivilOf(k))
    decreases k - n
  {
    if n + 1 < k {
      SpacedDays(midnight, n, k - 1);
      assert midnight(CivilOf(k - 1)) + WORKDAY <= midnight(CivilOf(k));
    }
  }

  lemma DifferentDays(midnight: Civil -> int, a: Civil, b: Civil)
    requires Spaced(midnight) && a.Valid() && b.Valid() && a != b
    ensures Apart(midnight(a), midnight(b))
  {
    CivilInverts(a);
    CivilInverts(b);
    if DayOf(a) < DayOf(b) {
      SpacedDays(midnight, DayOf(a), DayOf(b));
    } else {
      SpacedDays(midnight, DayOf(b), DayOf(a));
    }
  }

  /** The batch planned over any choice of different calendar days, in any order, has no overlaps. */
  lemma {:induction false} CalendarBatch(userId: string, midnight: Civil -> int, days: seq<Civil>)
    requires Spaced(midnight)
    requires forall i :: 0 <= i < |days| ==> days[i].Valid()
    requires forall i, j :: 0 <= i < j < |days| ==> days[i] != days[j]
    ensures var rows := Batch(userId, PlanDays(midnight, days));
            AllClashes(rows, UsersOf(rows)) == []
    ensures TotalHours(PlanDays(midnight, days)) == 8.0 * |days| as real
  {
    forall i, j | 0 <= i < j < |days| ensures Apart(midnight(days[i]), midnight(days[j])) {
      DifferentDays(midnight, days[i], days[j]);
    }
    BatchExactly(userId, midnight, days);
  }
}
