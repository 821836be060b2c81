/** The presence store: subscriptions are counted by workspace, and one interval polls while any is held.
    live holds the browser's running intervals and the workspace each refreshes; subs and epoch are
    history (epoch counts the clears). */
module Presence {
  import opened JsStrings

  type Handle = nat

  datatype Entry = Entry(snapshot: Option<int>, loading: bool)

  datatype Sub = Sub(ws: string, epoch: nat, released: bool)

  datatype State = State(
    byWorkspace: map<string, Entry>, refCounts: map<string, nat>,
    pollTimer: Option<Handle>, pollWorkspaceId: Option<string>,
    live: map<Handle, string>, next: Handle, subs: seq<Sub>, epoch: nat)

  function Init(): State { State(map[], map[], None, None, map[], 0, [], 0) }

  datatype Step =
    | Subscribe(ws: string)
    | Unsubscribe(sub: nat)              // any returned function, at any time, any number of times
    | Clear
    | Tick(handle: Handle)
    | Refreshed(workspace: string, snapshot: Option<int>)

  function Refreshing(s: State, ws: string): State {
    if ws == "" then s
    else
      var snapshot := if ws in s.byWorkspace then s.byWorkspace[ws].snapshot else None;
      s.(byWorkspace := s.byWorkspace[ws := Entry(snapshot, snapshot.None?)])
  }

  function StopPolling(s: State): State {
    if s.pollTimer.None? then s
    else s.(live := s.live - {s.pollTimer.value}, pollTimer := None, pollWorkspaceId := None)
  }

  function CountOf(s: State, ws: string): nat { if ws in s.refCounts then s.refCounts[ws] else 0 }

  /** The stages of subscribing: count, drop another workspace's interval, refresh what is unknown, poll. */
  function Counting(s: State, ws: string): State {
    s.(refCounts := s.refCounts[ws := CountOf(s, ws) + 1], subs := s.subs + [Sub(ws, s.epoch, false)])
  }

  function Leaving(s: State, ws: string): State {
    if s.pollTimer.Some? && s.pollWorkspaceId != Some(ws) then StopPolling(s) else s
  }

  function FirstRefresh(s: State, ws: string): State { if ws !in s.byWorkspace then Refreshing(s, ws) else s }

  function StartPolling(s: State, ws: string): State {
    if s.pollTimer.Some? then s
    else s.(pollTimer := Some(s.next), pollWorkspaceId := Some(ws), live := s.live[s.next := ws], next := s.next + 1)
  }

  function SubscribeStep(s: State, ws: string): State {
    StartPolling(FirstRefresh(Leaving(Counting(s, ws), ws), ws), ws)
  }

  function UnsubscribeStep(s: State, sub: nat): State
    requires sub < |s.subs|
  {
    var ws := s.subs[sub].ws;
    var count := if ws in s.refCounts then s.refCounts[ws] else 1;
    var remaining := if count <= 1 then 0 else count - 1;
    var refCounts := if remaining == 0 then s.refCounts - {ws} else s.refCounts[ws := remaining];
    var t := s.(refCounts := refCounts, subs := s.subs[sub := s.subs[sub].(released := true)]);
    if remaining == 0 && refCounts == map[] then StopPolling(t) else t
  }

  function Next(s: State, a: Step): State {
    match a
    case Subscribe(ws) => SubscribeStep(s, ws)
    case Unsubscribe(sub) => if sub < |s.subs| then UnsubscribeStep(s, sub) else s
    case Clear =>
      var t := StopPolling(s);
      t.(byWorkspace := map[], refCounts := map[], pollTimer := None, pollWorkspaceId := None, epoch := s.epoch + 1)
    case Tick(handle) => if handle in s.live then Refreshing(s, s.live[handle]) else s
    case Refreshed(ws, snapshot) => s.(byWorkspace := s.byWorkspace[ws := Entry(snapshot, false)])
  }

  function Run(s: State, steps: seq<Step>): State {
    if steps == [] then s else Next(Run(s, steps[..|steps| - 1]), steps[|steps| - 1])
  }

  // ---- polling, in every run

  /** The timer is set exactly while something is counted, and so is the polled workspace; the running intervals are
      exactly the tracked one, refreshing that workspace; counts are at least 1; an entry is loading only while it
      has no snapshot. */
  ghost predicate Polls(s: State) {
    && (s.pollTimer.Some? <==> s.refCounts != map[])
    && (s.pollTimer.Some? <==> s.pollWorkspaceId.Some?)
    && s.live == (if s.pollTimer.Some? then map[s.pollTimer.value := s.pollWorkspaceId.value] else map[])
    && (s.pollTimer.Some? ==> s.pollTimer.value < s.next)
    && (forall ws :: ws in s.refCounts ==> s.refCounts[ws] >= 1)
    && (forall ws :: ws in s.byWorkspace && s.byWorkspace[ws].loading ==> s.byWorkspace[ws].snapshot.None?)
  }

  /** What holds while subscribing, when the count is already up and the timer may not be set yet. */
  ghost predicate Subscribing(s: State, ws: string) {
    ws in s.refCounts && (forall w :: w in s.refCounts ==> s.refCounts[w] >= 1)
    && (s.pollTimer.Some? <==> s.pollWorkspaceId.Some?)
    && s.live == (if s.pollTimer.Some? then map[s.pollTimer.value := s.pollWorkspaceId.value] else map[])
    && (s.pollTimer.Some? ==> s.pollTimer.value < s.next)
    && (forall w :: w in s.byWorkspace && s.byWorkspace[w].loading ==> s.byWorkspace[w].snapshot.None?)
  }

  lemma CountingStage(s: State, ws: string)
    requires Polls(s)
    ensures Subscribing(Counting(s, ws), ws)
  {
  }

  lemma LeavingStage(s: State, ws: string)
    requires Subscribing(s, ws)
    ensures Subscribing(Leaving(s, ws), ws)
  {
  }

  lemma RefreshStage(s: State, ws: string)
    requires Subscribing(s, ws)
    ensures Subscribing(FirstRefresh(s, ws), ws)
  {
  }

  lemma PollStage(s: State, ws: string)
    requires Subscribing(s, ws)
    ensures Polls(StartPolling(s, ws))
  {
    assert s.refCounts != map[];
  }

  lemma SubscribePolls(s: State, ws: string)
    requires Polls(s)
    ensures Polls(SubscribeStep(s, ws))
  {
    var s1 := Counting(s, ws);
    var s2 := Leaving(s1, ws);
    CountingStage(s, ws);
    LeavingStage(s1, ws);
    RefreshStage(s2, ws);
    PollStage(FirstRefresh(s2, ws), ws);
  }

  lemma UnsubscribePolls(s: State, sub: nat)
    requires Polls(s) && sub < |s.subs|
    ensures Polls(UnsubscribeStep(s, sub))
  {
    var t, ws := UnsubscribeStep(s, sub), s.subs[sub].ws;
    if ws !in s.refCounts {
      assert s.refCounts - {ws} == s.refCounts;
    }
    assert t.refCounts != map[] ==> s.refCounts != map[];
  }

  lemma NextPolls(s: State, a: Step)
    requires Polls(s)
    ensures Polls(Next(s, a))
  {
    match a
    case Subscribe(ws) => SubscribePolls(s, ws);
    case Unsubscribe(sub) => if sub < |s.subs| { UnsubscribePolls(s, sub); }
    case _ =>
  }

  /** Whatever is subscribed, unsubscribed (stale or twice included), cleared or refreshed. */
  lemma {:induction false} RunPolls(steps: seq<Step>)
    ensures Polls(Run(Init(), steps))
    ensures |Run(Init(), steps).live| <= 1
  {
    if steps != [] {
      RunPolls(steps[..|steps| - 1]);
      NextPolls(Run(Init(), steps[..|steps| - 1]), steps[|steps| - 1]);
    }
  }

  // ---- counts are outstanding subscriptions

  /** Subscriptions of a workspace made since the last clear and not yet released. */
  function Outstanding(subs: seq<Sub>, epoch: nat, ws: string): nat {
    if subs == [] then 0
    else Outstanding(subs[..|subs| - 1], epoch, ws)
         + if subs[|subs| - 1] == Sub(ws, epoch, false) then 1 else 0
  }

  ghost predicate Counted(s: State) {
    (forall ws :: CountOf(s, ws) == Outstanding(s.subs, s.epoch, ws))
    && forall i :: 0 <= i < |s.subs| ==> s.subs[i].epoch <= s.epoch
  }

  /** A subscription of an earlier epoch, or already released. */
  predicate Spent(s: State, sub: nat)
    requires sub < |s.subs|
  {
    s.subs[sub].epoch != s.epoch || s.subs[sub].released
  }

  /** A step that unbalances the counts: releasing a spent subscription whose workspace is counted. */
  predicate Unbalances(s: State, a: Step) {
    a.Unsubscribe? && a.sub < |s.subs| && Spent(s, a.sub) && s.subs[a.sub].ws in s.refCounts
  }

  lemma {:induction false} Released(subs: seq<Sub>, epoch: nat, i: nat, ws: string)
    requires i < |subs|
    ensures var after := Outstanding(subs[i := subs[i].(released := true)], epoch, ws);
            Outstanding(subs, epoch, ws) == after + if subs[i] == Sub(ws, epoch, false) then 1 else 0
  {
    var k := |subs| - 1;
    var t := subs[i := subs[i].(released := true)];
    if i < k {
      Released(subs[..k], epoch, i, ws);
      assert t[..k] == subs[..k][i := subs[i].(released := true)];
    } else {
      assert t[..k] == subs[..k];
    }
  }

  lemma {:induction false} NoneYet(subs: seq<Sub>, epoch: nat, ws: string)
    requires forall i :: 0 <= i < |subs| ==> subs[i].epoch < epoch
    ensures Outstanding(subs, epoch, ws) == 0
  {
    if subs != [] {
      NoneYet(subs[..|subs| - 1], epoch, ws);
    }
  }

  lemma {:induction false} OneMore(subs: seq<Sub>, ws: string, epoch: nat, w: string)
    ensures Outstanding(subs + [Sub(ws, epoch, false)], epoch, w)
         == Outstanding(subs, epoch, w) + if w == ws then 1 else 0
  {
    var t := subs + [Sub(ws, epoch, false)];
    assert t[..|t| - 1] == subs;
  }

  lemma SubscribeHistory(s: State, ws: string)
    ensures var t := SubscribeStep(s, ws);
            t.subs == s.subs + [Sub(ws, s.epoch, false)] && t.epoch == s.epoch
            && t.refCounts == s.refCounts[ws := CountOf(s, ws) + 1]
  {
  }

  lemma SubscribeCounted(s: State, t: State, ws: string)
    requires Counted(s)
    requires t.subs == s.subs + [Sub(ws, s.epoch, false)] && t.epoch == s.epoch
    requires t.refCounts == s.refCounts[ws := CountOf(s, ws) + 1]
    ensures Counted(t)
  {
    forall w ensures CountOf(t, w) == Outstanding(t.subs, t.epoch, w) {
      OneMore(s.subs, ws, s.epoch, w);
      assert CountOf(s, w) == Outstanding(s.subs, s.epoch, w);
    }
  }

  lemma UnsubscribeCount(s: State, sub: nat, ws: string)
    requires Polls(s) && sub < |s.subs|
    ensures CountOf(UnsubscribeStep(s, sub), ws)
         == if ws == s.subs[sub].ws && ws in s.refCounts then CountOf(s, ws) - 1 else CountOf(s, ws)
  {
  }

  lemma UnsubscribeCounted(s: State, sub: nat)
    requires Counted(s) && Polls(s) && sub < |s.subs|
    ensures Counted(UnsubscribeStep(s, sub)) <==> !Unbalances(s, Unsubscribe(sub))
  {
    var t, w := UnsubscribeStep(s, sub), s.subs[sub].ws;
    forall ws ensures CountOf(t, ws) - Outstanding(t.subs, t.epoch, ws)
                   == if ws == w && Unbalances(s, Unsubscribe(sub)) then -1 else 0
    {
      Released(s.subs, s.epoch, sub, ws);
      UnsubscribeCount(s, sub, ws);
      assert CountOf(s, ws) == Outstanding(s.subs, s.epoch, ws);
    }
    if Unbalances(s, Unsubscribe(sub)) {
      assert CountOf(t, w) != Outstanding(t.subs, t.epoch, w);
    }
  }

  lemma ClearCounted(s: State)
    requires Counted(s)
    ensures Counted(Next(s, Clear))
  {
    var t := Next(s, Clear);
    forall ws ensures CountOf(t, ws) == Outstanding(t.subs, t.epoch, ws) {
      NoneYet(t.subs, t.epoch, ws);
    }
  }

  /** One step keeps the counts equal to the outstanding subscriptions exactly when it does not release a
      spent subscription whose workspace is counted. */
  lemma CountedExactly(s: State, a: Step)
    requires Counted(s) && Polls(s)
    ensures Counted(Next(s, a)) <==> !Unbalances(s, a)
  {
    match a
    case Subscribe(ws) =>
      SubscribeHistory(s, ws);
      SubscribeCounted(s, Next(s, a), ws);
    case Unsubscribe(sub) => if sub < |s.subs| { UnsubscribeCounted(s, sub); }
    case Clear => ClearCounted(s);
    case _ => SameCounts(s, Next(s, a));
  }

  lemma SameCounts(s: State, t: State)
    requires Counted(s) && t.refCounts == s.refCounts && t.subs == s.subs && t.epoch == s.epoch
    ensures Counted(t)
  {
    forall ws ensures CountOf(t, ws) == Outstanding(t.subs, t.epoch, ws) {
      assert CountOf(s, ws) == Outstanding(s.subs, s.epoch, ws);
    }
  }

  predicate Balanced(s: State, steps: seq<Step>) {
    steps == [] || (Balanced(s, steps[..|steps| - 1]) && !Unbalances(Run(s, steps[..|steps| - 1]), steps[|steps| - 1]))
  }

  /** In every run without such a release, the counts are the outstanding subscriptions. */
  lemma {:induction false} RunCounted(steps: seq<Step>)
    requires Balanced(Init(), steps)
    ensures Counted(Run(Init(), steps))
  {
    if steps != [] {
      var k := |steps| - 1;
      RunCounted(steps[..k]);
      RunPolls(steps[..k]);
      CountedExactly(Run(Init(), steps[..k]), steps[k]);
    }
  }

  /** What such a release costs: while one subscription is outstanding, releasing a spent one of the same
      workspace stops the polling under it. */
  lemma {:induction false} SpentReleaseStopsPolling(s: State, sub: nat, ws: string)
    requires Polls(s) && Counted(s) && s.refCounts == map[ws := 1]
    requires sub < |s.subs| && s.subs[sub].ws == ws && Spent(s, sub)
    ensures var t := Next(s, Unsubscribe(sub));
            t.pollTimer.None? && t.live == map[] && Outstanding(t.subs, t.epoch, ws) == 1
  {
    Released(s.subs, s.epoch, sub, ws);
    assert CountOf(s, ws) == 1;
    assert s.refCounts - {ws} == map[];
  }

  /** Nobody polls, though someone is subscribed. */
  ghost predicate Starves(s: State) { s.pollTimer.None? && exists ws :: Outstanding(s.subs, s.epoch, ws) > 0 }

  lemma BalancedFeeds(s: State)
    requires Polls(s) && Counted(s)
    ensures !Starves(s)
  {
    if s.pollTimer.None? {
      forall ws ensures Outstanding(s.subs, s.epoch, ws) == 0 {
        assert CountOf(s, ws) == 0;
      }
    }
  }

  lemma UnbalancedStarves(s: State, sub: nat)
    requires Polls(s) && Counted(s) && Unbalances(s, Unsubscribe(sub))
    ensures Starves(UnsubscribeStep(s, sub)) <==> s.refCounts == map[s.subs[sub].ws := 1]
  {
    var t, ws := UnsubscribeStep(s, sub), s.subs[sub].ws;
    Released(s.subs, s.epoch, sub, ws);
    assert CountOf(s, ws) == Outstanding(s.subs, s.epoch, ws) == Outstanding(t.subs, t.epoch, ws);
    UnsubscribePolls(s, sub);
    LastCount(s.refCounts, ws);
  }

  /** Lowering a count empties the counts exactly when it is the only one, and 1. */
  lemma LastCount(counts: map<string, nat>, ws: string)
    requires ws in counts && counts[ws] >= 1
    ensures (if counts[ws] <= 1 then counts - {ws} else counts[ws := counts[ws] - 1]) == map[]
       <==> counts == map[ws := 1]
  {
    if counts == map[ws := 1] {
      assert counts - {ws} == map[];
    }
    if counts[ws] <= 1 && counts - {ws} == map[] {
      forall k | k in counts ensures k == ws {
        assert k !in counts - {ws};
      }
    }
  }

  /** Exactly when a step leaves someone subscribed with nobody polling: it releases a spent subscription, and its
      workspace's count is the only one and 1. */
  lemma PollingStopsExactly(s: State, a: Step)
    requires Polls(s) && Counted(s)
    ensures Starves(Next(s, a)) <==> Unbalances(s, a) && s.refCounts == map[s.subs[a.sub].ws := 1]
  {
    if Unbalances(s, a) {
      UnbalancedStarves(s, a.sub);
    } else {
      CountedExactly(s, a);
      NextPolls(s, a);
      BalancedFeeds(Next(s, a));
    }
  }

  /** In every run that releases no spent subscription of a counted workspace, whoever is subscribed is polled for. */
  lemma {:induction false} RunFeeds(steps: seq<Step>)
    requires Balanced(Init(), steps)
    ensures !Starves(Run(Init(), steps))
  {
    RunCounted(steps);
    RunPolls(steps);
    BalancedFeeds(Run(Init(), steps));
  }

  lemma {:induction false} Extend(s: State, steps: seq<Step>, a: Step, longer: seq<Step>)
    requires longer == steps + [a]
    ensures Run(s, longer) == Next(Run(s, steps), a)
  {
    assert longer[..|longer| - 1] == steps;
  }

  /** A run: a subscription is released after a clear, under the one made since. */
  lemma {:induction false} StaleReleaseRun(ws: string)
    ensures Starves(Run(Init(), [Subscribe(ws), Clear, Subscribe(ws), Unsubscribe(0)]))
  {
    var a, b, c := Subscribe(ws), Clear, Unsubscribe(0);
    Extend(Init(), [], a, [a]);
    Extend(Init(), [a], b, [a, b]);
    Extend(Init(), [a, b], a, [a, b, a]);
    Extend(Init(), [a, b, a], c, [a, b, a, c]);
    SubscribedTwice(ws);
    var s := Next(Next(Next(Init(), a), b), a);
    BalancedStart(ws);
    PollingStopsExactly(s, c);
  }

  lemma SubscribedTwice(ws: string)
    ensures var s := Next(Next(Next(Init(), Subscribe(ws)), Clear), Subscribe(ws));
            s.subs == [Sub(ws, 0, false), Sub(ws, 1, false)] && s.epoch == 1 && s.refCounts == map[ws := 1]
  {
    var s1 := Next(Init(), Subscribe(ws));
    assert s1.subs == [Sub(ws, 0, false)] && s1.epoch == 0;
    var s2 := Next(s1, Clear);
    assert s2.subs == [Sub(ws, 0, false)] && s2.epoch == 1 && s2.refCounts == map[];
  }

  lemma BalancedStart(ws: string)
    ensures var s := Next(Next(Next(Init(), Subscribe(ws)), Clear), Subscribe(ws)); Polls(s) && Counted(s)
  {
    var s1 := Next(Init(), Subscribe(ws));
    var s2 := Next(s1, Clear);
    NextPolls(Init(), Subscribe(ws));
    CountedExactly(Init(), Subscribe(ws));
    NextPolls(s1, Clear);
    CountedExactly(s1, Clear);
    NextPolls(s2, Subscribe(ws));
    CountedExactly(s2, Subscribe(ws));
  }

  // ---- what each step leaves, in every run

  lemma LeftLive(s: State, ws: string)
    requires Polls(s)
    ensures var t := Leaving(Counting(s, ws), ws);
            && t.next == s.next && t.byWorkspace == s.byWorkspace
            && (s.pollWorkspaceId == Some(ws) ==> t.pollTimer == s.pollTimer && t.pollWorkspaceId == Some(ws)
                                                  && t.pollTimer.Some? && t.live == map[t.pollTimer.value := ws])
            && (s.pollWorkspaceId != Some(ws) ==> t.pollTimer.None? && t.live == map[])
  {
  }

  lemma StartedLive(s: State, ws: string)
    requires s.pollTimer.None? && s.live == map[]
    ensures StartPolling(s, ws).live == map[s.next := ws]
  {
  }

  lemma SubscribePolled(s: State, ws: string)
    requires Polls(s)
    ensures var t := SubscribeStep(s, ws);
            && t.pollTimer.Some? && t.pollWorkspaceId == Some(ws) && t.live == map[t.pollTimer.value := ws]
            && (if s.pollWorkspaceId == Some(ws) then t.pollTimer == s.pollTimer else t.pollTimer == Some(s.next))
  {
    LeftLive(s, ws);
    var t := FirstRefresh(Leaving(Counting(s, ws), ws), ws);
    if s.pollWorkspaceId != Some(ws) {
      StartedLive(t, ws);
    }
  }

  lemma SubscribeLoads(s: State, ws: string)
    ensures SubscribeStep(s, ws).byWorkspace
         == if ws == "" || ws in s.byWorkspace then s.byWorkspace else s.byWorkspace[ws := Entry(None, true)]
  {
  }

  /** One interval refreshes ws, the old one if it already did; ws is marked as loading if nothing was known of it; and
      it is counted once more. */
  ghost predicate PolledFor(s: State, t: State, ws: string) {
    && t.pollTimer.Some? && t.pollWorkspaceId == Some(ws) && t.live == map[t.pollTimer.value := ws]
    && (if s.pollWorkspaceId == Some(ws) then t.pollTimer == s.pollTimer else t.pollTimer.value !in s.live)
    && t.byWorkspace == (if ws == "" || ws in s.byWorkspace then s.byWorkspace
                         else s.byWorkspace[ws := Entry(None, true)])
    && t.refCounts == s.refCounts[ws := (if ws in s.refCounts then s.refCounts[ws] else 0) + 1]
  }

  lemma SubscribeLeaves(s: State, ws: string)
    requires Polls(s)
    ensures PolledFor(s, SubscribeStep(s, ws), ws)
  {
    SubscribePolled(s, ws);
    SubscribeLoads(s, ws);
    SubscribeHistory(s, ws);
    NotLive(s);
  }

  /** Whoever subscribes is polled for. */
  lemma {:induction false} SubscribedIsPolled(steps: seq<Step>, ws: string)
    ensures PolledFor(Run(Init(), steps), Next(Run(Init(), steps), Subscribe(ws)), ws)
  {
    RunPolls(steps);
    SubscribeLeaves(Run(Init(), steps), ws);
  }

  lemma NotLive(s: State)
    requires Polls(s)
    ensures s.next !in s.live
  {
  }

  lemma ReleaseCounts(s: State, sub: nat)
    requires Polls(s) && sub < |s.subs|
    ensures var t, ws := UnsubscribeStep(s, sub), s.subs[sub].ws;
            && t.byWorkspace == s.byWorkspace
            && t.refCounts == if ws in s.refCounts && s.refCounts[ws] > 1
                              then s.refCounts[ws := s.refCounts[ws] - 1] else s.refCounts - {ws}
  {
  }

  lemma ReleasePolling(s: State, sub: nat)
    requires Polls(s) && sub < |s.subs|
    ensures var t := UnsubscribeStep(s, sub);
            if t.refCounts == map[] then t.pollTimer.None? && t.pollWorkspaceId.None? && t.live == map[]
            else t.pollTimer == s.pollTimer && t.pollWorkspaceId == s.pollWorkspaceId && t.live == s.live
  {
    UnsubscribePolls(s, sub);
  }

  /** A release lowers its workspace's count, drops it at none, and stops the polling exactly when no count is left. */
  lemma {:induction false} ReleasedExactly(steps: seq<Step>, sub: nat)
    requires sub < |Run(Init(), steps).subs|
    ensures var s := Run(Init(), steps);
            var t, ws := Next(s, Unsubscribe(sub)), s.subs[sub].ws;
            && t.refCounts == (if ws in s.refCounts && s.refCounts[ws] > 1
                               then s.refCounts[ws := s.refCounts[ws] - 1] else s.refCounts - {ws})
            && (if t.refCounts == map[] then t.pollTimer.None? && t.pollWorkspaceId.None? && t.live == map[]
                else t.pollTimer == s.pollTimer && t.pollWorkspaceId == s.pollWorkspaceId && t.live == s.live)
            && t.byWorkspace == s.byWorkspace
  {
    RunPolls(steps);
    ReleaseCounts(Run(Init(), steps), sub);
    ReleasePolling(Run(Init(), steps), sub);
  }

  /** A tick of the running interval keeps the polled workspace's snapshot while it is asked for again, and marks the
      workspace as loading exactly when there is none. */
  lemma {:induction false} TickExactly(steps: seq<Step>, handle: Handle)
    ensures var s := Run(Init(), steps);
            var t := Next(s, Tick(handle));
            if s.pollTimer != Some(handle) || s.pollWorkspaceId == Some("") then t == s
            else
              s.pollWorkspaceId.Some?
              && var ws := s.pollWorkspaceId.value;
                 var known := if ws in s.byWorkspace then s.byWorkspace[ws].snapshot else None;
                 t == s.(byWorkspace := s.byWorkspace[ws := Entry(known, known == None)])
  {
    RunPolls(steps);
  }

  /** The snapshot that arrives is the one shown, none after a failure; nothing is left after a clear. */
  lemma {:induction false} ArrivedIsShown(s: State, ws: string, snapshot: Option<int>)
    ensures Next(s, Refreshed(ws, snapshot)) == s.(byWorkspace := s.byWorkspace[ws := Entry(snapshot, false)])
  {
  }

  lemma {:induction false} ClearLeavesNothing(steps: seq<Step>)
    ensures var t := Next(Run(Init(), steps), Clear);
            t.byWorkspace == map[] && t.refCounts == map[] && t.live == map[]
            && t.pollTimer.None? && t.pollWorkspaceId.None?
  {
    RunPolls(steps);
  }

  // ---- the store

  class PresenceStore {
    var byWorkspace: map<string, Entry>
    var refCounts: map<string, nat>
    var pollTimer: Option<Handle>
    var pollWorkspaceId: Option<string>
    var live: map<Handle, string>
    var next: Handle
    ghost var subs: seq<Sub>
    ghost var epoch: nat

    ghost function Model(): State
      reads this
    {
      State(byWorkspace, refCounts, pollTimer, pollWorkspaceId, live, next, subs, epoch)
    }

    constructor ()
      ensures Model() == Init()
    {
      byWorkspace, refCounts, pollTimer, pollWorkspaceId := map[], map[], None, None;
      live, next, subs, epoch := map[], 0, [], 0;
    }

    method ClearInterval(handle: Handle)
      modifies this`live
      ensures live == old(live) - {handle}
    {
      live := live - {handle};
    }

    method SetInterval(ws: string) returns (handle: Handle)
      modifies this`live, this`next
      ensures handle == old(next) && next == old(next) + 1 && live == old(live)[handle := ws]
    {
      handle := next;
      next, live := next + 1, live[handle := ws];
    }

    /** refresh() up to its request. */
    method BeginRefresh(ws: string)
      modifies this`byWorkspace
      ensures Model() == Refreshing(old(Model()), ws)
    {
      if ws == "" {
        return;
      }
      var snapshot := if ws in byWorkspace then byWorkspace[ws].snapshot else None;
      byWorkspace := byWorkspace[ws := Entry(snapshot, snapshot.None?)];
    }

    /** refresh() when its request has succeeded with a snapshot, or failed. */
    method EndRefresh(ws: string, snapshot: Option<int>)
      modifies this`byWorkspace
      ensures Model() == Next(old(Model()), Refreshed(ws, snapshot))
    {
      byWorkspace := byWorkspace[ws := Entry(snapshot, false)];
    }

    /** sub names the returned unsubscribe function. */
    method Subscribe(ws: string) returns (ghost sub: nat)
      modifies this
      ensures Model() == Next(old(Model()), Step.Subscribe(ws)) && sub == |old(subs)|
    {
      var nextCount := (if ws in refCounts then refCounts[ws] else 0) + 1;
      refCounts := refCounts[ws := nextCount];
      sub, subs := |subs|, subs + [Sub(ws, epoch, false)];
      LeaveOther(ws);
      if ws !in byWorkspace {
        BeginRefresh(ws);
      }
      Poll(ws);
    }

    method LeaveOther(ws: string)
      modifies this
      ensures Model() == Leaving(old(Model()), ws)
    {
      if pollTimer.Some? && pollWorkspaceId != Some(ws) {
        ClearInterval(pollTimer.value);
        pollTimer, pollWorkspaceId := None, None;
      }
    }

    method Poll(ws: string)
      modifies this
      ensures Model() == StartPolling(old(Model()), ws)
    {
      if pollTimer.None? {
        var timer := SetInterval(ws);
        pollTimer, pollWorkspaceId := Some(timer), Some(ws);
      }
    }

    method Unsubscribe(ws: string, ghost sub: nat)
      requires sub < |subs| && subs[sub].ws == ws
      modifies this
      ensures Model() == Next(old(Model()), Step.Unsubscribe(sub))
    {
      var count := if ws in refCounts then refCounts[ws] else 1;
      var remaining := if count <= 1 then 0 else count - 1;
      var nextRefCounts := if remaining == 0 then refCounts - {ws} else refCounts[ws := remaining];
      refCounts := nextRefCounts;
      subs := subs[sub := subs[sub].(released := true)];
      if remaining == 0 && nextRefCounts == map[] && pollTimer.Some? {
        ClearInterval(pollTimer.value);
        pollTimer, pollWorkspaceId := None, None;
      }
    }

    method Clear()
      modifies this
      ensures Model() == Next(old(Model()), Step.Clear)
    {
      if pollTimer.Some? {
        ClearInterval(pollTimer.value);
      }
      byWorkspace, refCounts, pollTimer, pollWorkspaceId := map[], map[], None, None;
      epoch := epoch + 1;
    }
  }
}
