/** Overlap checks over planned time logs: the fast check (sort, then compare neighbours) against the
    simple one (compare all pairs). Times are in milliseconds. */
module Overlap {

  datatype Span = Span(start: int, end: int)

  datatype Row = Row(userId: string, span: Span)

  /** What an error line tells: the user and the two clashing neighbours. */
  datatype Clash = Clash(userId: string, prev: Span, curr: Span)

  // ---- the simple check

  /** Half-open spans that share an instant. */
  predicate Overlaps(a: Span, b: Span) { a.start < b.end && b.start < a.end }

  predicate NoOverlap(s: seq<Span>) {
    forall i, j | 0 <= i < j < |s| :: !Overlaps(s[i], s[j])
  }

  method EntriesHaveNoOverlap(plans: seq<Span>) returns (ok: bool)
    ensures ok <==> NoOverlap(plans)
  {
    for i := 0 to |plans|
      invariant forall k, j :: 0 <= k < i && k < j < |plans| ==> !Overlaps(plans[k], plans[j])
    {
      for j := i + 1 to |plans|
        invariant forall k :: i < k < j ==> !Overlaps(plans[i], plans[k])
      {
        var a, b := plans[i], plans[j];
        if a.start < b.end && b.start < a.end {
          return false;
        }
      }
    }
    return true;
  }

  // ---- the fast check

  function SpansOf(rows: seq<Row>, userId: string): seq<Span> {
    if rows == [] then []
    else (if rows[0].userId == userId then [rows[0].span] else []) + SpansOf(rows[1..], userId)
  }

  /** Users in order of first appearance. */
  function UsersOf(rows: seq<Row>): seq<string> {
    if rows == [] then []
    else
      var before := UsersOf(rows[..|rows| - 1]);
      var u := rows[|rows| - 1].userId;
      if u in before then before else before + [u]
  }

  /** Stable insertion before the first span that starts no earlier. */
  function Insert(x: Span, s: seq<Span>): seq<Span> {
    if s == [] || x.start <= s[0].start then [x] + s else [s[0]] + Insert(x, s[1..])
  }

  /** The stable sort by start time. */
  function SortByStart(s: seq<Span>): seq<Span> {
    if s == [] then [] else Insert(s[0], SortByStart(s[1..]))
  }

  /** Neighbours where the later starts before the earlier ends, up to position n. */
  function Clashes(userId: string, sorted: seq<Span>, n: nat): seq<Clash>
    requires n <= |sorted|
  {
    if n < 2 then []
    else
      Clashes(userId, sorted, n - 1)
      + if sorted[n - 1].start < sorted[n - 2].end then [Clash(userId, sorted[n - 2], sorted[n - 1])] else []
  }

  function ClashesOf(rows: seq<Row>, userId: string): seq<Clash> {
    var sorted := SortByStart(SpansOf(rows, userId));
    Clashes(userId, sorted, |sorted|)
  }

  function AllClashes(rows: seq<Row>, users: seq<string>): seq<Clash> {
    if users == [] then []
    else AllClashes(rows, users[..|users| - 1]) + ClashesOf(rows, users[|users| - 1])
  }

  lemma {:induction false} SpansOfAppend(rows: seq<Row>, r: Row, userId: string)
    ensures SpansOf(rows + [r], userId)
         == SpansOf(rows, userId) + if r.userId == userId then [r.span] else []
  {
    if rows == [] {
      assert rows + [r] == [r];
    } else {
      SpansOfAppend(rows[1..], r, userId);
      assert (rows + [r])[1..] == rows[1..] + [r];
    }
  }

  lemma {:induction false} UsersMore(rows: seq<Row>, row: Row)
    ensures var users := UsersOf(rows);
            UsersOf(rows + [row]) == if row.userId in users then users else users + [row.userId]
  {
    assert (rows + [row])[..|rows|] == rows;
  }

  /** What is listed of each user, nothing by default. */
  ghost predicate Holds(byUser: map<string, seq<Span>>, rows: seq<Row>) {
    forall u :: SpansOf(rows, u) == if u in byUser then byUser[u] else []
  }

  lemma HoldsMore(byUser: map<string, seq<Span>>, rows: seq<Row>, row: Row, list: seq<Span>)
    requires Holds(byUser, rows) && list == if row.userId in byUser then byUser[row.userId] else []
    ensures Holds(byUser[row.userId := list + [row.span]], rows + [row])
  {
    var more, after := rows + [row], byUser[row.userId := list + [row.span]];
    forall u ensures SpansOf(more, u) == if u in after then after[u] else [] {
      SpansOfAppend(rows, row, u);
      assert SpansOf(rows, u) == if u in byUser then byUser[u] else [];
    }
  }

  /** A map of lists, with its keys in insertion order. */
  ghost predicate Grouped(byUser: map<string, seq<Span>>, order: seq<string>, rows: seq<Row>) {
    order == UsersOf(rows) && Holds(byUser, rows) && forall u :: u in order <==> u in byUser
  }

  lemma GroupedMore(byUser: map<string, seq<Span>>, order: seq<string>, rows: seq<Row>, row: Row, list: seq<Span>)
    requires Grouped(byUser, order, rows) && list == if row.userId in byUser then byUser[row.userId] else []
    ensures Grouped(byUser[row.userId := list + [row.span]],
                    if row.userId in byUser then order else order + [row.userId], rows + [row])
  {
    UsersMore(rows, row);
    HoldsMore(byUser, rows, row, list);
  }

  lemma GroupedNone(byUser: map<string, seq<Span>>, order: seq<string>, rows: seq<Row>)
    requires |rows| == |order| == |byUser| == 0
    ensures Grouped(byUser, order, rows)
  {
  }

  lemma {:induction false} GroupedUser(byUser: map<string, seq<Span>>, order: seq<string>, rows: seq<Row>, u: string)
    requires Grouped(byUser, order, rows) && u in order
    ensures u in byUser && byUser[u] == SpansOf(rows, u)
  {
  }

  lemma TakeNext(rows: seq<Row>, i: nat)
    requires i < |rows|
    ensures rows[..i] + [rows[i]] == rows[..i + 1]
  {
  }

  lemma TakeAll(rows: seq<Row>)
    ensures rows[..|rows|] == rows
  {
  }

  method GroupByUser(rows: seq<Row>) returns (byUser: map<string, seq<Span>>, order: seq<string>)
    ensures Grouped(byUser, order, rows)
  {
    byUser, order := map[], [];
    GroupedNone(byUser, order, rows[..0]);
    for i := 0 to |rows|
      invariant Grouped(byUser, order, rows[..i])
    {
      byUser, order := AddRow(byUser, order, rows[i], rows[..i]);
      TakeNext(rows, i);
    }
    TakeAll(rows);
  }

  method AddRow(byUser: map<string, seq<Span>>, order: seq<string>, row: Row, ghost rows: seq<Row>)
    returns (after: map<string, seq<Span>>, users: seq<string>)
    requires Grouped(byUser, order, rows)
    ensures Grouped(after, users, rows + [row])
  {
    var list := if row.userId in byUser then byUser[row.userId] else [];
    users := if row.userId in byUser then order else order + [row.userId];
    after := byUser[row.userId := list + [row.span]];
    GroupedMore(byUser, order, rows, row, list);
  }

  /** The line that reports a clash; iso renders an instant. */
  function Line(iso: int -> string, c: Clash): string {
    c.userId + ": overlap " + iso(c.prev.start) + " \U{2013} " + iso(c.prev.end)
    + " with " + iso(c.curr.start) + " \U{2013} " + iso(c.curr.end)
  }

  function Lines(iso: int -> string, clashes: seq<Clash>): seq<string> {
    seq(|clashes|, i requires 0 <= i < |clashes| => Line(iso, clashes[i]))
  }

  lemma LinesJoined(iso: int -> string, a: seq<Clash>, b: seq<Clash>)
    ensures Lines(iso, a + b) == Lines(iso, a) + Lines(iso, b)
  {
  }

  method NeighbourClashes(iso: int -> string, userId: string, sorted: seq<Span>) returns (errors: seq<string>)
    ensures errors == Lines(iso, Clashes(userId, sorted, |sorted|))
  {
    errors := [];
    var i := 1;
    while i < |sorted|
      invariant 1 <= i && (i <= |sorted| || i == 1)
      invariant errors == if i <= |sorted| then Lines(iso, Clashes(userId, sorted, i)) else []
    {
      var prev, curr := sorted[i - 1], sorted[i];
      if curr.start < prev.end {
        LinesJoined(iso, Clashes(userId, sorted, i), [Clash(userId, prev, curr)]);
        errors := errors + [Line(iso, Clash(userId, prev, curr))];
      }
      i := i + 1;
    }
  }

  lemma {:induction false} AllClashesMore(rows: seq<Row>, users: seq<string>, k: nat)
    requires k < |users|
    ensures AllClashes(rows, users[..k + 1]) == AllClashes(rows, users[..k]) + ClashesOf(rows, users[k])
  {
    assert users[..k + 1][..k] == users[..k];
  }

  /** Rows are grouped by user, each group is sorted, and neighbours are compared. */
  method FindOverlapsInBatch(rows: seq<Row>, iso: int -> string) returns (errors: seq<string>)
    ensures errors == Lines(iso, AllClashes(rows, UsersOf(rows)))
    ensures (forall r :: r in rows ==> r.span.start < r.span.end) ==>
              (errors == [] <==> forall u :: NoOverlap(SpansOf(rows, u)))
  {
    var byUser, order := GroupByUser(rows);
    errors := [];
    for k := 0 to |order|
      invariant errors == Lines(iso, AllClashes(rows, order[..k]))
    {
      var userId := order[k];
      GroupedUser(byUser, order, rows, userId);
      var found := NeighbourClashes(iso, userId, SortByStart(byUser[userId]));
      AllClashesMore(rows, order, k);
      LinesJoined(iso, AllClashes(rows, order[..k]), ClashesOf(rows, userId));
      errors := errors + found;
    }
    assert order[..|order|] == order;
    if forall r :: r in rows ==> r.span.start < r.span.end {
      FastCheckRefinesSimple(rows);
    }
  }

  // ---- they agree

  predicate Sorted(s: seq<Span>) {
    forall i, j | 0 <= i < j < |s| :: s[i].start <= s[j].start
  }

  lemma {:induction false} InsertKeeps(x: Span, s: seq<Span>)
    ensures multiset(Insert(x, s)) == multiset(s) + multiset{x}
  {
    if s != [] && s[0].start < x.start {
      InsertKeeps(x, s[1..]);
      assert s == [s[0]] + s[1..];
    }
  }

  lemma {:induction false} InsertSorted(x: Span, s: seq<Span>)
    requires Sorted(s)
    ensures Sorted(Insert(x, s))
    ensures forall y :: y in Insert(x, s) ==> y == x || y in s
  {
    if s != [] && s[0].start < x.start {
      InsertSorted(x, s[1..]);
      SortedCons(s[0], Insert(x, s[1..]));
    } else {
      SortedCons(x, s);
    }
  }

  lemma SortedCons(x: Span, s: seq<Span>)
    requires Sorted(s) && forall y :: y in s ==> x.start <= y.start
    ensures Sorted([x] + s)
  {
  }

  lemma {:induction false} SortIsSorted(s: seq<Span>)
    ensures Sorted(SortByStart(s)) && multiset(SortByStart(s)) == multiset(s)
  {
    if s != [] {
      SortIsSorted(s[1..]);
      InsertSorted(s[0], SortByStart(s[1..]));
      InsertKeeps(s[0], SortByStart(s[1..]));
      assert s == [s[0]] + s[1..];
    }
  }

  /** The spans that start at a time, in list order. */
  function StartingAt(s: seq<Span>, time: int): seq<Span> {
    if s == [] then [] else (if s[0].start == time then [s[0]] else []) + StartingAt(s[1..], time)
  }

  lemma {:induction false} StartingCons(x: Span, s: seq<Span>, time: int)
    ensures StartingAt([x] + s, time) == (if x.start == time then [x] else []) + StartingAt(s, time)
  {
    assert ([x] + s)[1..] == s;
  }

  lemma Swapped(a: seq<Span>, b: seq<Span>, rest: seq<Span>)
    requires a == [] || b == []
    ensures a + (b + rest) == b + (a + rest)
  {
  }

  lemma {:induction false} InsertStable(x: Span, s: seq<Span>, time: int)
    ensures StartingAt(Insert(x, s), time) == (if x.start == time then [x] else []) + StartingAt(s, time)
  {
    if s != [] && s[0].start < x.start {
      InsertStable(x, s[1..], time);
      StartingCons(s[0], Insert(x, s[1..]), time);
      Swapped(if s[0].start == time then [s[0]] else [], if x.start == time then [x] else [], StartingAt(s[1..], time));
    } else {
      StartingCons(x, s, time);
    }
  }

  /** Spans that start together keep their order. */
  lemma {:induction false} SortIsStable(s: seq<Span>, time: int)
    ensures StartingAt(SortByStart(s), time) == StartingAt(s, time)
  {
    if s != [] {
      SortIsStable(s[1..], time);
      InsertStable(s[0], SortByStart(s[1..]), time);
    }
  }

  // ---- which neighbours are reported

  /** The positions up to n whose span starts before the one in front of it ends, first to last. */
  function Positions(s: seq<Span>, n: nat): seq<nat>
    requires n <= |s|
  {
    if n < 2 then []
    else Positions(s, n - 1) + if s[n - 1].start < s[n - 2].end then [n - 1] else []
  }

  lemma {:induction false} PositionsAre(s: seq<Span>, n: nat, i: nat)
    requires n <= |s|
    ensures i in Positions(s, n) <==> 1 <= i < n && s[i].start < s[i - 1].end
  {
    if n >= 2 {
      PositionsAre(s, n - 1, i);
    }
  }

  lemma {:induction false} PositionsIncrease(s: seq<Span>, n: nat, j: nat, k: nat)
    requires n <= |s| && j < k < |Positions(s, n)|
    ensures Positions(s, n)[j] < Positions(s, n)[k]
  {
    var before := Positions(s, n - 1);
    if k < |before| {
      PositionsIncrease(s, n - 1, j, k);
      assert Positions(s, n)[j] == before[j] && Positions(s, n)[k] == before[k];
    } else {
      assert Positions(s, n)[k] == n - 1 && Positions(s, n)[j] == before[j];
      PositionsAre(s, n - 1, before[j]);
    }
  }

  /** The clashes of a sorted list are those of its positions whose span starts before the one in front of it ends, one
      each and first to last. */
  lemma {:induction false} ClashesAt(userId: string, s: seq<Span>, n: nat, k: nat)
    requires n <= |s| && k < |Clashes(userId, s, n)|
    ensures k < |Positions(s, n)| && 1 <= Positions(s, n)[k] < n
    ensures var at := Positions(s, n)[k]; Clashes(userId, s, n)[k] == Clash(userId, s[at - 1], s[at])
  {
    SameCount(userId, s, n - 1);
    if k < |Clashes(userId, s, n - 1)| {
      ClashesAt(userId, s, n - 1, k);
      assert Positions(s, n)[k] == Positions(s, n - 1)[k];
      assert Clashes(userId, s, n)[k] == Clashes(userId, s, n - 1)[k];
    } else {
      assert Positions(s, n)[k] == n - 1;
    }
  }

  lemma {:induction false} SameCount(userId: string, s: seq<Span>, n: nat)
    requires n <= |s|
    ensures |Clashes(userId, s, n)| == |Positions(s, n)|
  {
    if n >= 2 {
      SameCount(userId, s, n - 1);
    }
  }

  lemma {:induction false} ClashOfUser(rows: seq<Row>, users: seq<string>, c: Clash)
    ensures c in AllClashes(rows, users) <==> c.userId in users && c in ClashesOf(rows, c.userId)
  {
    if users != [] {
      var k := |users| - 1;
      ClashOfUser(rows, users[..k], c);
      assert users == users[..k] + [users[k]];
      if c in ClashesOf(rows, users[k]) {
        ClashNamesUser(rows, users[k], c);
      }
    }
  }

  lemma {:induction false} ClashNamesUser(rows: seq<Row>, userId: string, c: Clash)
    requires c in ClashesOf(rows, userId)
    ensures c.userId == userId
  {
    var s := SortByStart(SpansOf(rows, userId));
    var k :| 0 <= k < |Clashes(userId, s, |s|)| && Clashes(userId, s, |s|)[k] == c;
    ClashesAt(userId, s, |s|, k);
  }

  /** Two spans, one right behind the other. */
  predicate Neighbours(s: seq<Span>, prev: Span, curr: Span) {
    exists i | 1 <= i < |s| :: s[i - 1] == prev && s[i] == curr
  }

  lemma {:induction false} ClashListed(s: seq<Span>, c: Clash)
    ensures c in Clashes(c.userId, s, |s|) <==> Neighbours(s, c.prev, c.curr) && c.curr.start < c.prev.end
  {
    var clashes := Clashes(c.userId, s, |s|);
    if c in clashes {
      var k :| 0 <= k < |clashes| && clashes[k] == c;
      ClashesAt(c.userId, s, |s|, k);
      PositionsAre(s, |s|, Positions(s, |s|)[k]);
    }
    if Neighbours(s, c.prev, c.curr) && c.curr.start < c.prev.end {
      var i :| 1 <= i < |s| && s[i - 1] == c.prev && s[i] == c.curr;
      PositionsAre(s, |s|, i);
      SameCount(c.userId, s, |s|);
      var k :| 0 <= k < |Positions(s, |s|)| && Positions(s, |s|)[k] == i;
      ClashesAt(c.userId, s, |s|, k);
      assert clashes[k] == c;
    }
  }

  /** A batch reports a clash exactly when its two spans are neighbours in the stable order of its user's entries and
      the second starts before the first ends. */
  lemma {:induction false} ReportedExactly(rows: seq<Row>, c: Clash)
    ensures c in AllClashes(rows, UsersOf(rows))
       <==> Neighbours(SortByStart(SpansOf(rows, c.userId)), c.prev, c.curr) && c.curr.start < c.prev.end
  {
    var s := SortByStart(SpansOf(rows, c.userId));
    ClashOfUser(rows, UsersOf(rows), c);
    ClashListed(s, c);
    UsersComplete(rows, c.userId);
  }

  /** The lines are those of the clashes, one each and in order. */
  lemma LineReads(iso: int -> string, clashes: seq<Clash>, k: nat)
    requires k < |clashes|
    ensures var c := clashes[k];
            |Lines(iso, clashes)| == |clashes|
            && Lines(iso, clashes)[k] == c.userId + ": overlap " + iso(c.prev.start) + " \U{2013} " + iso(c.prev.end)
                                         + " with " + iso(c.curr.start) + " \U{2013} " + iso(c.curr.end)
  {
  }

  // ---- when nothing is

  /** Of two spans in list order, the one that starts first (the earlier listed, on a tie) ends before the other
      starts. */
  predicate Fine(a: Span, b: Span) { if a.start <= b.start then a.end <= b.start else b.end <= a.start }

  /** For spans that do not end before they start: they do not overlap, and the later is not an empty span at the
      start of the earlier. */
  lemma FineIs(a: Span, b: Span)
    requires a.start <= a.end && b.start <= b.end
    ensures Fine(a, b) <==> !Overlaps(a, b) && !(a.start == b.start == b.end < a.end)
  {
  }

  /** Every span is fine before every later one. */
  predicate AllFine(s: seq<Span>) {
    forall i, j | 0 <= i < j < |s| :: Fine(s[i], s[j])
  }

  lemma AllFineCons(x: Span, s: seq<Span>)
    ensures AllFine([x] + s) <==> (forall y :: y in s ==> Fine(x, y)) && AllFine(s)
  {
    var t := [x] + s;
    if AllFine(t) {
      forall y | y in s ensures Fine(x, y) {
        var k :| 0 <= k < |s| && s[k] == y;
        assert t[0] == x && t[k + 1] == y;
      }
      forall i, j | 0 <= i < j < |s| ensures Fine(s[i], s[j]) {
        assert t[i + 1] == s[i] && t[j + 1] == s[j];
      }
    }
  }

  lemma {:induction false} InsertFine(x: Span, s: seq<Span>)
    ensures AllFine(Insert(x, s)) <==> AllFine([x] + s)
    ensures forall y :: y in Insert(x, s) <==> y == x || y in s
  {
    if s != [] && s[0].start < x.start {
      var h, t := s[0], s[1..];
      InsertFine(x, t);
      assert s == [h] + t;
      AllFineCons(h, Insert(x, t));
      AllFineCons(x, t);
      AllFineCons(x, s);
      AllFineCons(h, t);
      assert Fine(h, x) <==> Fine(x, h);
    }
  }

  /** Stable sorting keeps what is fine. */
  lemma {:induction false} SortFine(s: seq<Span>)
    ensures AllFine(SortByStart(s)) <==> AllFine(s)
    ensures forall y :: y in SortByStart(s) <==> y in s
  {
    if s != [] {
      SortFine(s[1..]);
      InsertFine(s[0], SortByStart(s[1..]));
      assert s == [s[0]] + s[1..];
      AllFineCons(s[0], s[1..]);
      AllFineCons(s[0], SortByStart(s[1..]));
    }
  }

  lemma {:induction false} ClashesEmpty(userId: string, s: seq<Span>, n: nat)
    requires n <= |s|
    ensures Clashes(userId, s, n) == [] <==> forall i :: 1 <= i < n ==> s[i - 1].end <= s[i].start
  {
    if n >= 2 {
      ClashesEmpty(userId, s, n - 1);
      assert s[n - 2].end <= s[n - 1].start <==> s[n - 1 - 1].end <= s[n - 1].start;
    }
  }

  /** In a sorted list of spans that do not end before they start, looking at neighbours is looking at
      all pairs. */
  lemma NeighboursSuffice(s: seq<Span>)
    requires Sorted(s)
    ensures (forall i :: 1 <= i < |s| ==> s[i - 1].end <= s[i].start) <==> AllFine(s)
  {
    if forall i :: 1 <= i < |s| ==> s[i - 1].end <= s[i].start {
      forall i, j | 0 <= i < j < |s| ensures Fine(s[i], s[j]) {
        EndsBefore(s, i, j);
      }
    }
    if AllFine(s) {
      forall i | 1 <= i < |s| ensures s[i - 1].end <= s[i].start {
        assert Fine(s[i - 1], s[i]);
      }
    }
  }

  lemma EndsBefore(s: seq<Span>, i: nat, j: nat)
    requires Sorted(s) && forall k :: 1 <= k < |s| ==> s[k - 1].end <= s[k].start
    requires i < j < |s|
    ensures s[i].end <= s[j].start
  {
    assert s[i].end <= s[i + 1].start <= s[j].start;
  }

  lemma {:induction false} UsersComplete(rows: seq<Row>, u: string)
    ensures u in UsersOf(rows) <==> SpansOf(rows, u) != []
  {
    if rows != [] {
      var k := |rows| - 1;
      UsersComplete(rows[..k], u);
      assert rows == rows[..k] + [rows[k]];
      SpansOfAppend(rows[..k], rows[k], u);
    }
  }

  lemma {:induction false} AllClashesEmpty(rows: seq<Row>, users: seq<string>)
    ensures AllClashes(rows, users) == [] <==> forall u :: u in users ==> ClashesOf(rows, u) == []
  {
    if users != [] {
      var k := |users| - 1;
      AllClashesEmpty(rows, users[..k]);
      assert users == users[..k] + [users[k]];
    }
  }

  lemma {:induction false} SpansFromRows(rows: seq<Row>, u: string)
    ensures forall x :: x in SpansOf(rows, u) ==> Row(u, x) in rows
  {
    if rows != [] {
      SpansFromRows(rows[1..], u);
    }
  }

  lemma {:induction false} UserExactly(rows: seq<Row>, u: string)
    ensures ClashesOf(rows, u) == [] <==> AllFine(SpansOf(rows, u))
    ensures u !in UsersOf(rows) ==> AllFine(SpansOf(rows, u))
  {
    var s := SpansOf(rows, u);
    var t := SortByStart(s);
    SortIsSorted(s);
    SortFine(s);
    ClashesEmpty(u, t, |t|);
    NeighboursSuffice(t);
    UsersComplete(rows, u);
  }

  /** The exact meaning of the fast check, for all rows: it is empty exactly when of every two entries of a user the
      one that starts first ends before the other starts. */
  lemma {:induction false} FastCheckExactly(rows: seq<Row>)
    ensures AllClashes(rows, UsersOf(rows)) == [] <==> forall u :: AllFine(SpansOf(rows, u))
  {
    var users := UsersOf(rows);
    AllClashesEmpty(rows, users);
    if AllClashes(rows, users) == [] {
      forall u ensures AllFine(SpansOf(rows, u)) {
        UserExactly(rows, u);
      }
    } else {
      var u :| u in users && ClashesOf(rows, u) != [];
      UserExactly(rows, u);
    }
  }

  /** Whatever the rows, an empty fast check means that no user's entries overlap. */
  lemma {:induction false} FastCheckSound(rows: seq<Row>, u: string)
    requires AllClashes(rows, UsersOf(rows)) == []
    ensures NoOverlap(SpansOf(rows, u))
  {
    AllClashesEmpty(rows, UsersOf(rows));
    UserExactly(rows, u);
    FineApart(SpansOf(rows, u));
  }

  lemma FineApart(s: seq<Span>)
    requires AllFine(s)
    ensures NoOverlap(s)
  {
    forall i, j | 0 <= i < j < |s| ensures !Overlaps(s[i], s[j]) {
      assert Fine(s[i], s[j]);
    }
  }

  /** For rows of positive duration the fast check is empty exactly when, for each user, every pair passes
      the simple one. */
  lemma {:induction false} FastCheckRefinesSimple(rows: seq<Row>)
    requires forall r :: r in rows ==> r.span.start < r.span.end
    ensures AllClashes(rows, UsersOf(rows)) == [] <==> forall u :: NoOverlap(SpansOf(rows, u))
  {
    FastCheckExactly(rows);
    forall u ensures AllFine(SpansOf(rows, u)) <==> NoOverlap(SpansOf(rows, u)) {
      var s := SpansOf(rows, u);
      SpansFromRows(rows, u);
      assert forall i :: 0 <= i < |s| ==> Row(u, s[i]) in rows;
    }
  }

  /** With an empty span the two part: the fast check reports one that starts where an earlier row starts,
      though the simple one finds no overlap. */
  lemma EmptySpanParts()
    ensures var rows := [Row("u", Span(0, 5)), Row("u", Span(0, 0))];
            NoOverlap(SpansOf(rows, "u")) && AllClashes(rows, UsersOf(rows)) != []
  {
    var rows := [Row("u", Span(0, 5)), Row("u", Span(0, 0))];
    assert SpansOf(rows[1..], "u") == [Span(0, 0)];
    assert SpansOf(rows, "u") == [Span(0, 5), Span(0, 0)];
    assert !Fine(SpansOf(rows, "u")[0], SpansOf(rows, "u")[1]);
    FastCheckExactly(rows);
  }
}
