/** The active-timer session store with the stores a session boundary reaches: requests for the active
    timer are shared by member key, polled by one interval a subscription, and install what they bring.
    Requests and intervals are numbered in order of creation (an interval has its subscription's number).
    reqs, subs and installer are history: installer is the request whose answer is the timer shown. */
module ActiveTimer {
  import opened JsStrings
  import Presence
  import Session
  import Text
  import TimerStore

  type Id = nat

  datatype Request = Request(user: string, ws: string, key: string, done: bool)

  datatype Sub = Sub(key: string, ws: string, released: bool)

  datatype State = State(
    session: Option<Session.Session>, presence: Presence.State, timer: TimerStore.State,
    refCounts: map<string, nat>, initialized: set<string>, inflight: map<string, Id>,
    reqs: seq<Request>, subs: seq<Sub>, live: set<nat>, installer: Option<Id>)

  function Init(): State { State(None, Presence.Init(), TimerStore.Init(), map[], {}, map[], [], [], {}, None) }

  // ---- member keys

  function MemberKey(user: string, ws: string): string { user + ":" + ws }

  function WorkspaceOfKey(key: string): Option<string> {
    var parts := Text.Split(key, ':');
    if |parts| < 2 then None else Some(parts[1])
  }

  /** A key gives its workspace back, and two members share one only when they are the same. */
  lemma KeyRoundTrip(user: string, ws: string)
    requires ':' !in user && ':' !in ws
    ensures WorkspaceOfKey(MemberKey(user, ws)) == Some(ws)
  {
    var parts := [user, ws];
    assert MemberKey(user, ws) == Text.Join(parts, ":") by {
      assert parts[1..] == [ws];
    }
    Text.SplitInvertsJoin(parts, ':');
  }

  lemma KeyInjective(user: string, ws: string, user2: string, ws2: string)
    requires ':' !in user && ':' !in user2
    ensures MemberKey(user, ws) == MemberKey(user2, ws2) <==> user == user2 && ws == ws2
  {
    if MemberKey(user, ws) == MemberKey(user2, ws2) {
      Text.FirstField(user, user2, ws, ws2, ':');
    }
  }

  // ---- steps

  datatype Answer = Dto(timer: Option<TimerStore.Timer>) | AutoStopped | Failed

  datatype Step =
    | Refresh(ws: string)
    | Complete(id: Id, answer: Answer, now: int)
    | Subscribe(ws: string)
    | Unsubscribe(sub: nat)                    // any returned function, at any time, any number of times
    | Interval(handle: nat)
    | Invalidate(ws: string)
    | RemoveWorkspace(ws: string)
    | ClearStore
    | TimerDoes(action: TimerStore.Step)                // the timer page sets, ticks or clears the timer itself
    | PresenceDoes(act: Presence.Step)
    | SetSession(session: Session.Session, options: Session.Options)
    | EndSession

  function RefreshStep(s: State, ws: string): State {
    var user := Session.UserOf(s.session);
    var key := MemberKey(user, ws);
    if ws == "" || user == "" || key in s.inflight then s
    else s.(reqs := s.reqs + [Request(user, ws, key, false)], inflight := s.inflight[key := |s.reqs|])
  }

  predicate Outstanding(s: State, id: Id) { id < |s.reqs| && !s.reqs[id].done }

  /** What the answer to a request shows, when it shows anything. */
  function Install(s: State, id: Id, answer: Answer, now: int): State
    requires id < |s.reqs|
  {
    if answer.Failed? then s.(timer := TimerStore.Next(s.timer, TimerStore.SetActive(None, now)), installer := Some(id))
    else if Session.UserOf(s.session) != s.reqs[id].user then s
    else
      var t := if answer.AutoStopped? then None else answer.timer;
      s.(timer := TimerStore.Next(s.timer, TimerStore.SetActive(t, now)), installer := Some(id))
  }

  function CompleteStep(s: State, id: Id, answer: Answer, now: int): State
    requires Outstanding(s, id)
  {
    var t := Install(s, id, answer, now);
    var r := s.reqs[id];
    t.(reqs := s.reqs[id := r.(done := true)], initialized := s.initialized + {r.key}, inflight := s.inflight - {r.key})
  }

  function Count(s: State, key: string): nat { if key in s.refCounts then s.refCounts[key] else 0 }

  function SubscribeStep(s: State, ws: string): State {
    var user := Session.UserOf(s.session);
    var key := MemberKey(user, ws);
    if ws == "" || user == "" then s
    else
      var t := s.(refCounts := s.refCounts[key := Count(s, key) + 1]);
      var u := if key !in t.initialized && key !in t.inflight then RefreshStep(t, ws) else t;
      Polled(u, key, ws)
  }

  function Polled(s: State, key: string, ws: string): State {
    s.(subs := s.subs + [Sub(key, ws, false)], live := s.live + {|s.subs|})
  }

  function UnsubscribeStep(s: State, sub: nat): State
    requires sub < |s.subs|
  {
    var key := s.subs[sub].key;
    var count := if key in s.refCounts then s.refCounts[key] else 1;
    var remaining := if count <= 1 then 0 else count - 1;
    s.(refCounts := if remaining == 0 then s.refCounts - {key} else s.refCounts[key := remaining],
       subs := s.subs[sub := s.subs[sub].(released := true)], live := s.live - {sub})
  }

  function IntervalStep(s: State, handle: nat): State {
    if handle in s.live && handle < |s.subs| && Count(s, s.subs[handle].key) > 0 then RefreshStep(s, s.subs[handle].ws)
    else s
  }

  function InvalidateStep(s: State, ws: string): State {
    var user := Session.UserOf(s.session);
    if user == "" then s
    else
      var key := MemberKey(user, ws);
      var t := s.(initialized := s.initialized - {key});
      if Count(t, key) > 0 then RefreshStep(t, ws) else t
  }

  function KeysOf(keys: set<string>, ws: string): set<string> {
    set key | key in keys && WorkspaceOfKey(key) == Some(ws)
  }

  function Removing(s: State, ws: string): State {
    var keys := KeysOf(s.initialized, ws);
    s.(initialized := s.initialized - keys, refCounts := s.refCounts - keys)
  }

  function Cleared(s: State): State { s.(refCounts := map[], initialized := {}, inflight := map[]) }

  /** The workspace a workspace-level boundary trims. */
  function Trimmed(s: State): string {
    var id := Session.IdentityOf(s.session);
    if id.Some? && id.value.ws.Some? then id.value.ws.value else ""
  }

  function TimerCleared(s: State): State { s.(timer := TimerStore.Next(s.timer, TimerStore.Clear), installer := None) }

  function Boundary(s: State, level: Session.Level): State {
    var calm := s.(presence := Presence.Next(s.presence, Presence.Clear));
    if level.Full? then TimerCleared(Cleared(calm))
    else if level.Workspace? && Trimmed(s) != "" then TimerCleared(Removing(calm, Trimmed(s)))
    else s
  }

  function Next(s: State, a: Step): State {
    match a
    case Refresh(ws) => RefreshStep(s, ws)
    case Complete(id, answer, now) => if Outstanding(s, id) then CompleteStep(s, id, answer, now) else s
    case Subscribe(ws) => SubscribeStep(s, ws)
    case Unsubscribe(sub) => if sub < |s.subs| then UnsubscribeStep(s, sub) else s
    case Interval(handle) => IntervalStep(s, handle)
    case Invalidate(ws) => InvalidateStep(s, ws)
    case RemoveWorkspace(ws) => Removing(s, ws)
    case ClearStore => Cleared(s)
    case TimerDoes(action) =>
      s.(timer := TimerStore.Next(s.timer, action), installer := if action.Tick? then s.installer else None)
    case PresenceDoes(act) => s.(presence := Presence.Next(s.presence, act))
    case SetSession(session, options) =>
      Boundary(s, Session.LevelOf(s.session, session, options)).(session := Some(session))
    case EndSession => Boundary(s, Session.Full).(session := None)
  }

  function Run(s: State, steps: seq<Step>): State {
    if steps == [] then s else Next(Run(s, steps[..|steps| - 1]), steps[|steps| - 1])
  }

  /** A run is built one step at a time. */
  lemma {:induction false} RunOn(s: State, steps: seq<Step>, a: Step)
    ensures Run(s, steps + [a]) == Next(Run(s, steps), a)
  {
    assert (steps + [a])[..|steps + [a]| - 1] == steps;
  }

  // ---- ownership

  /** A timer that a request brought belongs to the current user. */
  predicate Owned(s: State) {
    s.timer.active.Some? && s.installer.Some?
    ==> s.installer.value < |s.reqs| && s.reqs[s.installer.value].user == Session.UserOf(s.session)
  }

  /** Requests are made by someone, for some workspace. */
  predicate ByUsers(s: State) { forall id | 0 <= id < |s.reqs| :: s.reqs[id].user != "" && s.reqs[id].ws != "" }

  /** A session change that carries a timer over to another user: an explicit level below full. */
  predicate CarriesOver(s: State, a: Step) {
    a.SetSession? && s.timer.active.Some? && s.installer.Some?
    && a.session.user != Session.UserOf(s.session)
    && a.options.level.Some? && a.options.level.value != Session.Full
    && (a.options.level.value == Session.Workspace ==> Trimmed(s) == "")
  }

  lemma RefreshOwned(s: State, ws: string)
    requires Owned(s) && ByUsers(s)
    ensures Owned(RefreshStep(s, ws)) && ByUsers(RefreshStep(s, ws))
  {
  }

  lemma CompleteOwned(s: State, id: Id, answer: Answer, now: int)
    requires Owned(s) && ByUsers(s) && Outstanding(s, id)
    ensures Owned(CompleteStep(s, id, answer, now)) && ByUsers(CompleteStep(s, id, answer, now))
  {
  }

  lemma SessionOwned(s: State, a: Step)
    requires Owned(s) && ByUsers(s) && a.SetSession?
    ensures Owned(Next(s, a)) <==> !CarriesOver(s, a)
    ensures ByUsers(Next(s, a))
  {
    var level := Session.LevelOf(s.session, a.session, a.options);
    if s.session.Some? && a.options.level.None? && s.session.value.user != a.session.user {
      Session.UserChangeIsFull(s.session.value, a.session, a.options);
    }
  }

  /** One step keeps the shown timer the current user's own exactly when it does not carry one over. */
  lemma OwnedExactly(s: State, a: Step)
    requires Owned(s) && ByUsers(s)
    ensures Owned(Next(s, a)) <==> !CarriesOver(s, a)
    ensures ByUsers(Next(s, a))
  {
    match a
    case Refresh(ws) => RefreshOwned(s, ws);
    case Complete(id, answer, now) => if Outstanding(s, id) { CompleteOwned(s, id, answer, now); }
    case SetSession(session, options) => SessionOwned(s, a);
    case _ =>
  }

  predicate NeverCarriesOver(s: State, steps: seq<Step>) {
    steps == []
    || (NeverCarriesOver(s, steps[..|steps| - 1])
        && !CarriesOver(Run(s, steps[..|steps| - 1]), steps[|steps| - 1]))
  }

  /** In every run in which no explicit level carries a timer over to another user, a timer brought by a request was
      requested by the current user. */
  lemma {:induction false} RunOwned(steps: seq<Step>)
    requires NeverCarriesOver(Init(), steps)
    ensures Owned(Run(Init(), steps)) && ByUsers(Run(Init(), steps))
  {
    if steps != [] {
      RunOwned(steps[..|steps| - 1]);
      OwnedExactly(Run(Init(), steps[..|steps| - 1]), steps[|steps| - 1]);
    }
  }

  /** Boundaries whose level is compared from the identities never carry over. */
  lemma {:induction false} ComparedLevelsSuffice(steps: seq<Step>)
    requires forall a :: a in steps && a.SetSession? ==> a.options.level.None?
    ensures NeverCarriesOver(Init(), steps)
  {
    if steps != [] {
      ComparedLevelsSuffice(steps[..|steps| - 1]);
      assert steps[|steps| - 1] in steps;
    }
  }

  // ---- the workspace a shown timer was asked for in

  function WorkspaceOf(session: Option<Session.Session>): Option<string> {
    if session.Some? then session.value.ws else None
  }

  /** A timer that a request brought was requested for the session's workspace. */
  predicate Placed(s: State) {
    s.timer.active.Some? && s.installer.Some?
    ==> s.installer.value < |s.reqs| && Some(s.reqs[s.installer.value].ws) == WorkspaceOf(s.session)
  }

  /** An answer to the current user's request for another workspace that brings a timer. */
  predicate InstallsElsewhere(s: State, a: Step) {
    a.Complete? && Outstanding(s, a.id) && a.answer.Dto? && a.answer.timer.Some?
    && TimerStore.WellFormed(a.answer.timer.value)
    && s.reqs[a.id].user == Session.UserOf(s.session) && Some(s.reqs[a.id].ws) != WorkspaceOf(s.session)
  }

  /** A change of workspace at an explicit level that leaves the timer in place. */
  predicate LeavesBehind(s: State, a: Step) {
    a.SetSession? && s.timer.active.Some? && s.installer.Some? && a.session.ws != WorkspaceOf(s.session)
    && a.options.level.Some? && a.options.level.value != Session.Full
    && (a.options.level.value == Session.Workspace ==> Trimmed(s) == "")
  }

  lemma SessionPlaced(s: State, a: Step)
    requires Placed(s) && ByUsers(s) && a.SetSession?
    ensures Placed(Next(s, a)) <==> !LeavesBehind(s, a)
  {
    if s.timer.active.Some? && s.installer.Some? {
      var id := s.installer.value;
      assert s.reqs[id].ws != "" && s.session.Some? && s.session.value.ws == Some(s.reqs[id].ws);
      if a.options.level.None? {
        Session.LevelExactly(s.session.value, a.session, a.options);
      }
    }
  }

  /** One step keeps the shown timer in the session's workspace exactly when it neither installs one asked for
      elsewhere nor changes the workspace under it at an explicit level. */
  lemma PlacedExactly(s: State, a: Step)
    requires Placed(s) && ByUsers(s)
    ensures Placed(Next(s, a)) <==> !InstallsElsewhere(s, a) && !LeavesBehind(s, a)
  {
    if a.SetSession? {
      SessionPlaced(s, a);
    } else if a.Complete? {
      if Outstanding(s, a.id) { CompletePlaced(s, a.id, a.answer, a.now); }
    } else {
      OthersPlaced(s, a);
    }
  }

  lemma CompletePlaced(s: State, id: Id, answer: Answer, now: int)
    requires Placed(s) && ByUsers(s) && Outstanding(s, id)
    ensures Placed(CompleteStep(s, id, answer, now)) <==> !InstallsElsewhere(s, Complete(id, answer, now))
  {
  }

  lemma OthersPlaced(s: State, a: Step)
    requires Placed(s) && !a.SetSession? && !a.Complete?
    ensures Placed(Next(s, a))
  {
  }

  lemma NextByUsers(s: State, a: Step)
    requires ByUsers(s)
    ensures ByUsers(Next(s, a))
  {
  }

  lemma {:induction false} RunByUsers(steps: seq<Step>)
    ensures ByUsers(Run(Init(), steps))
  {
    if steps != [] {
      RunByUsers(steps[..|steps| - 1]);
      NextByUsers(Run(Init(), steps[..|steps| - 1]), steps[|steps| - 1]);
    }
  }

  predicate NeverMisplaces(s: State, steps: seq<Step>) {
    steps == []
    || (NeverMisplaces(s, steps[..|steps| - 1])
        && !InstallsElsewhere(Run(s, steps[..|steps| - 1]), steps[|steps| - 1])
        && !LeavesBehind(Run(s, steps[..|steps| - 1]), steps[|steps| - 1]))
  }

  /** In every run without such steps a timer brought by a request was requested for the session's workspace. */
  lemma {:induction false} RunPlaced(steps: seq<Step>)
    requires NeverMisplaces(Init(), steps)
    ensures Placed(Run(Init(), steps))
  {
    if steps != [] {
      RunPlaced(steps[..|steps| - 1]);
      RunByUsers(steps[..|steps| - 1]);
      PlacedExactly(Run(Init(), steps[..|steps| - 1]), steps[|steps| - 1]);
    }
  }

  /** When an answer installs a timer, the timer is in the session's workspace exactly when that is the
      workspace it was requested for. */
  lemma InstalledExactly(s: State, id: Id, timer: TimerStore.Timer, now: int)
    requires Outstanding(s, id) && s.reqs[id].user == Session.UserOf(s.session) && TimerStore.WellFormed(timer)
    ensures var t := Next(s, Complete(id, Dto(Some(timer)), now));
            t.timer.active == Some(timer) && t.installer == Some(id)
            && (Placed(t) <==> Some(s.reqs[id].ws) == WorkspaceOf(s.session))
  {
  }

  predicate InWorkspace(s: State, id: Id, ws: string) {
    id < |s.reqs| && s.reqs[id].ws == ws && (s.session.Some? ==> s.session.value.ws == Some(ws))
  }

  lemma {:induction false} StaysInWorkspace(s: State, during: seq<Step>, id: Id, ws: string)
    requires InWorkspace(s, id, ws) && forall a :: a in during && a.SetSession? ==> a.session.ws == Some(ws)
    ensures InWorkspace(Run(s, during), id, ws)
  {
    if during != [] {
      var a := during[|during| - 1];
      StaysInWorkspace(s, during[..|during| - 1], id, ws);
      assert a in during;
      StepInWorkspace(Run(s, during[..|during| - 1]), a, id, ws);
    }
  }

  lemma StepInWorkspace(s: State, a: Step, id: Id, ws: string)
    requires InWorkspace(s, id, ws) && (a.SetSession? ==> a.session.ws == Some(ws))
    ensures InWorkspace(Next(s, a), id, ws)
  {
  }

  /** A refresh made for the session's workspace never installs its timer elsewhere, as long as every session set until
      its answer is in that workspace. */
  lemma {:induction false} RequestedHereInstallsHere(before: seq<Step>, ws: string, during: seq<Step>, answer: Answer,
                                                now: int)
    requires WorkspaceOf(Run(Init(), before).session) == Some(ws)
    requires |Next(Run(Init(), before), Refresh(ws)).reqs| > |Run(Init(), before).reqs|
    requires forall a :: a in during && a.SetSession? ==> a.session.ws == Some(ws)
    ensures var id := |Run(Init(), before).reqs|;
            var t := Run(Next(Run(Init(), before), Refresh(ws)), during);
            !InstallsElsewhere(t, Complete(id, answer, now))
  {
    var s := Run(Init(), before);
    RunByUsers(before);
    NextByUsers(s, Refresh(ws));
    StaysInWorkspace(Next(s, Refresh(ws)), during, |s.reqs|, ws);
    StaysByUsers(Next(s, Refresh(ws)), during);
  }

  lemma {:induction false} StaysByUsers(s: State, steps: seq<Step>)
    requires ByUsers(s)
    ensures ByUsers(Run(s, steps))
  {
    if steps != [] {
      StaysByUsers(s, steps[..|steps| - 1]);
      NextByUsers(Run(s, steps[..|steps| - 1]), steps[|steps| - 1]);
    }
  }

  // ---- answers to users who are gone

  /** No timer, no seconds. */
  predicate Idle(s: State) { s.timer.active.None? ==> s.timer == TimerStore.Init() }

  lemma NextIdle(s: State, a: Step)
    requires Idle(s)
    ensures Idle(Next(s, a))
  {
  }

  lemma {:induction false} RunIdle(steps: seq<Step>)
    ensures Idle(Run(Init(), steps))
  {
    if steps != [] {
      RunIdle(steps[..|steps| - 1]);
      NextIdle(Run(Init(), steps[..|steps| - 1]), steps[|steps| - 1]);
    }
  }

  /** After every run, the answer to a request of a user who is no longer signed in leaves the shown timer exactly as it
      was, unless it is a failure and a timer is shown; then it is taken away. */
  lemma {:induction false} GoneUserExactly(steps: seq<Step>, id: Id, answer: Answer, now: int)
    requires var s := Run(Init(), steps); Outstanding(s, id) && s.reqs[id].user != Session.UserOf(s.session)
    ensures var s := Run(Init(), steps);
            Next(s, Complete(id, answer, now)).timer == s.timer <==> !(answer.Failed? && s.timer.active.Some?)
    ensures answer.Failed? ==> Next(Run(Init(), steps), Complete(id, answer, now)).timer == TimerStore.Init()
  {
    RunIdle(steps);
  }

  // ---- one request a key

  /** The map leads to outstanding requests of the key it lists them under. */
  ghost predicate Keyed(s: State) {
    (forall id | 0 <= id < |s.reqs| :: s.reqs[id].key == MemberKey(s.reqs[id].user, s.reqs[id].ws))
    && (forall key | key in s.inflight :: Outstanding(s, s.inflight[key]) && s.reqs[s.inflight[key]].key == key)
  }

  /** Every outstanding request is the one its key leads to. */
  ghost predicate Tracked(s: State) {
    forall id: Id :: Outstanding(s, id) ==> s.reqs[id].key in s.inflight && s.inflight[s.reqs[id].key] == id
  }

  predicate ClearsInflight(s: State, a: Step) {
    a.ClearStore? || a.EndSession?
    || (a.SetSession? && Session.LevelOf(s.session, a.session, a.options) == Session.Full)
  }

  /** The in-flight map is emptied while a request is still out. */
  ghost predicate Forgets(s: State, a: Step) { ClearsInflight(s, a) && exists id: Id :: Outstanding(s, id) }

  lemma RefreshKeyed(s: State, ws: string)
    requires Keyed(s)
    ensures var t := RefreshStep(s, ws); Keyed(t) && (Tracked(s) ==> Tracked(t))
  {
    var t := RefreshStep(s, ws);
    forall id: Id | Outstanding(t, id) && Tracked(s)
      ensures t.reqs[id].key in t.inflight && t.inflight[t.reqs[id].key] == id
    {
      assert id < |s.reqs| ==> Outstanding(s, id);
    }
    forall key | key in t.inflight ensures Outstanding(t, t.inflight[key]) && t.reqs[t.inflight[key]].key == key {
      assert key in s.inflight ==> Outstanding(s, s.inflight[key]);
    }
  }

  lemma CompleteKeyed(s: State, id: Id, answer: Answer, now: int)
    requires Keyed(s) && Outstanding(s, id)
    ensures var t := CompleteStep(s, id, answer, now); Keyed(t) && (Tracked(s) ==> Tracked(t))
  {
    var t := CompleteStep(s, id, answer, now);
    forall j: Id | Outstanding(t, j) && Tracked(s)
      ensures t.reqs[j].key in t.inflight && t.inflight[t.reqs[j].key] == j
    {
      assert Outstanding(s, j) && Outstanding(s, id);
    }
    forall key | key in t.inflight ensures Outstanding(t, t.inflight[key]) && t.reqs[t.inflight[key]].key == key {
      assert Outstanding(s, s.inflight[key]);
    }
  }

  /** The requests and the map that two states share. */
  lemma SameRequests(s: State, t: State)
    requires Keyed(s) && t.reqs == s.reqs && t.inflight == s.inflight
    ensures Keyed(t) && (Tracked(s) ==> Tracked(t))
  {
    forall key | key in t.inflight ensures Outstanding(t, t.inflight[key]) && t.reqs[t.inflight[key]].key == key {
      assert Outstanding(s, s.inflight[key]);
    }
    forall id: Id | Outstanding(t, id) && Tracked(s)
      ensures t.reqs[id].key in t.inflight && t.inflight[t.reqs[id].key] == id
    {
      assert Outstanding(s, id);
    }
  }

  lemma ForgottenUntracked(s: State, t: State)
    requires Keyed(s) && t.reqs == s.reqs && t.inflight == map[]
    ensures Keyed(t) && (Tracked(t) <==> !exists id: Id :: Outstanding(s, id))
  {
    assert forall id: Id :: Outstanding(t, id) <==> Outstanding(s, id);
  }

  lemma SubscribeKeyed(s: State, ws: string)
    requires Keyed(s)
    ensures var t := SubscribeStep(s, ws); Keyed(t) && (Tracked(s) ==> Tracked(t))
  {
    var key := MemberKey(Session.UserOf(s.session), ws);
    var t := s.(refCounts := s.refCounts[key := Count(s, key) + 1]);
    SameRequests(s, t);
    RefreshKeyed(t, ws);
    SameRequests(if key !in t.initialized && key !in t.inflight then RefreshStep(t, ws) else t, SubscribeStep(s, ws));
  }

  lemma InvalidateKeyed(s: State, ws: string)
    requires Keyed(s)
    ensures var t := InvalidateStep(s, ws); Keyed(t) && (Tracked(s) ==> Tracked(t))
  {
    var t := s.(initialized := s.initialized - {MemberKey(Session.UserOf(s.session), ws)});
    SameRequests(s, t);
    RefreshKeyed(t, ws);
  }

  /** One step keeps every outstanding request in the map exactly when it does not empty the map under one. */
  lemma TrackedExactly(s: State, a: Step)
    requires Keyed(s)
    ensures Keyed(Next(s, a))
    ensures Tracked(s) ==> (Tracked(Next(s, a)) <==> !Forgets(s, a))
  {
    var t := Next(s, a);
    match a
    case Refresh(ws) => RefreshKeyed(s, ws);
    case Complete(id, answer, now) => if Outstanding(s, id) { CompleteKeyed(s, id, answer, now); }
    case Subscribe(ws) => SubscribeKeyed(s, ws);
    case Interval(handle) => IntervalKeyed(s, handle);
    case Invalidate(ws) => InvalidateKeyed(s, ws);
    case _ =>
      BoundaryRequests(s, a);
      if ClearsInflight(s, a) { ForgottenUntracked(s, t); } else { SameRequests(s, t); }
  }

  lemma IntervalKeyed(s: State, handle: nat)
    requires Keyed(s)
    ensures var t := IntervalStep(s, handle); Keyed(t) && (Tracked(s) ==> Tracked(t))
  {
    if handle in s.live && handle < |s.subs| {
      RefreshKeyed(s, s.subs[handle].ws);
    }
  }

  lemma BoundaryRequests(s: State, a: Step)
    requires !a.Refresh? && !a.Complete? && !a.Subscribe? && !a.Interval? && !a.Invalidate?
    ensures var t := Next(s, a);
            t.reqs == s.reqs && t.inflight == if ClearsInflight(s, a) then map[] else s.inflight
  {
  }

  ghost predicate NeverForgets(s: State, steps: seq<Step>) {
    steps == []
    || (NeverForgets(s, steps[..|steps| - 1]) && !Forgets(Run(s, steps[..|steps| - 1]), steps[|steps| - 1]))
  }

  /** In every run the map leads only to outstanding requests of its keys, so a settled one is never joined. */
  lemma {:induction false} RunKeyed(steps: seq<Step>)
    ensures Keyed(Run(Init(), steps))
  {
    if steps != [] {
      RunKeyed(steps[..|steps| - 1]);
      TrackedExactly(Run(Init(), steps[..|steps| - 1]), steps[|steps| - 1]);
    }
  }

  lemma {:induction false} RunTracked(steps: seq<Step>)
    requires NeverForgets(Init(), steps)
    ensures Tracked(Run(Init(), steps))
  {
    if steps != [] {
      RunTracked(steps[..|steps| - 1]);
      RunKeyed(steps[..|steps| - 1]);
      TrackedExactly(Run(Init(), steps[..|steps| - 1]), steps[|steps| - 1]);
    }
  }

  /** In every run that never empties the map under a request, at most one request a key is outstanding. */
  lemma {:induction false} OnePerKey(steps: seq<Step>, i: Id, j: Id)
    requires NeverForgets(Init(), steps)
    requires Outstanding(Run(Init(), steps), i) && Outstanding(Run(Init(), steps), j)
    ensures i != j ==> Run(Init(), steps).reqs[i].key != Run(Init(), steps).reqs[j].key
  {
    RunTracked(steps);
  }

  /** A joined request is for the caller's own user and workspace, when user ids hold no colon. */
  lemma {:induction false} JoinsOwn(steps: seq<Step>, ws: string)
    requires var s := Run(Init(), steps);
             var key := MemberKey(Session.UserOf(s.session), ws);
             key in s.inflight && s.inflight[key] < |s.reqs|
             && ':' !in Session.UserOf(s.session) && ':' !in s.reqs[s.inflight[key]].user
    ensures var s := Run(Init(), steps);
            var r := s.reqs[s.inflight[MemberKey(Session.UserOf(s.session), ws)]];
            r.user == Session.UserOf(s.session) && r.ws == ws && !r.done
  {
    RunKeyed(steps);
    var s := Run(Init(), steps);
    var key := MemberKey(Session.UserOf(s.session), ws);
    assert Outstanding(s, s.inflight[key]);
    var r := s.reqs[s.inflight[key]];
    KeyInjective(r.user, r.ws, Session.UserOf(s.session), ws);
  }

  // ---- intervals and counts

  /** The running intervals are those of the unreleased subscriptions. */
  ghost predicate LiveExactly(s: State) {
    forall h: nat :: h in s.live <==> h < |s.subs| && !s.subs[h].released
  }

  lemma NextLive(s: State, a: Step)
    requires LiveExactly(s)
    ensures LiveExactly(Next(s, a))
  {
    match a
    case Subscribe(ws) => SubscribeLive(s, ws);
    case Unsubscribe(sub) =>
    case Interval(handle) =>
    case Invalidate(ws) =>
    case _ => SubsStay(s, a);
  }

  lemma SubscribeLive(s: State, ws: string)
    requires LiveExactly(s)
    ensures LiveExactly(SubscribeStep(s, ws))
  {
    var t := SubscribeStep(s, ws);
    if t.subs != s.subs {
      var sub := Sub(MemberKey(Session.UserOf(s.session), ws), ws, false);
      assert t.subs == s.subs + [sub] && t.live == s.live + {|s.subs|};
    }
  }

  /** Only subscribing and unsubscribing move the subscriptions and the intervals. */
  lemma SubsStay(s: State, a: Step)
    requires !a.Subscribe? && !a.Unsubscribe?
    ensures Next(s, a).subs == s.subs && Next(s, a).live == s.live
  {
  }

  /** In every run, clears and workspace removals included, no interval outlives its subscription and none is lost. */
  lemma {:induction false} RunLive(steps: seq<Step>)
    ensures LiveExactly(Run(Init(), steps))
  {
    if steps != [] {
      RunLive(steps[..|steps| - 1]);
      NextLive(Run(Init(), steps[..|steps| - 1]), steps[|steps| - 1]);
    }
  }

  /** Unreleased subscriptions of a key. */
  function Held(subs: seq<Sub>, key: string): nat {
    if subs == [] then 0
    else Held(subs[..|subs| - 1], key) + if subs[|subs| - 1].key == key && !subs[|subs| - 1].released then 1 else 0
  }

  lemma {:induction false} HeldMore(subs: seq<Sub>, sub: Sub, key: string)
    ensures Held(subs + [sub], key) == Held(subs, key) + if sub.key == key && !sub.released then 1 else 0
  {
    assert (subs + [sub])[..|subs + [sub]| - 1] == subs;
  }

  lemma {:induction false} HeldLess(subs: seq<Sub>, i: nat, key: string)
    requires i < |subs|
    ensures Held(subs, key) == Held(subs[i := subs[i].(released := true)], key)
                               + if subs[i].key == key && !subs[i].released then 1 else 0
  {
    var k := |subs| - 1;
    var t := subs[i := subs[i].(released := true)];
    if i < k {
      HeldLess(subs[..k], i, key);
      assert t[..k] == subs[..k][i := subs[i].(released := true)];
    } else {
      assert t[..k] == subs[..k];
    }
  }

  /** A key is counted at least once while it is listed, and never more often than it is held. */
  ghost predicate Covered(s: State) {
    (forall key :: key in s.refCounts ==> s.refCounts[key] >= 1)
    && forall key :: Count(s, key) <= Held(s.subs, key)
  }

  lemma SubscribeCovered(s: State, t: State, ws: string)
    requires Covered(s)
    requires var key := MemberKey(Session.UserOf(s.session), ws);
             t.refCounts == s.refCounts[key := Count(s, key) + 1] && t.subs == s.subs + [Sub(key, ws, false)]
    ensures Covered(t)
  {
    var key := MemberKey(Session.UserOf(s.session), ws);
    forall k ensures Count(t, k) <= Held(t.subs, k) {
      HeldMore(s.subs, Sub(key, ws, false), k);
      assert Count(s, k) <= Held(s.subs, k);
    }
  }

  lemma UnsubscribeCovered(s: State, sub: nat)
    requires Covered(s) && sub < |s.subs|
    ensures Covered(UnsubscribeStep(s, sub))
  {
    var t := UnsubscribeStep(s, sub);
    forall k ensures Count(t, k) <= Held(t.subs, k) {
      HeldLess(s.subs, sub, k);
      assert Count(s, k) <= Held(s.subs, k);
    }
  }

  lemma FewerCovered(s: State, t: State)
    requires Covered(s) && t.subs == s.subs
    requires forall key :: key in t.refCounts ==> key in s.refCounts && t.refCounts[key] == s.refCounts[key]
    ensures Covered(t)
  {
    forall k ensures Count(t, k) <= Held(t.subs, k) {
      assert Count(s, k) <= Held(s.subs, k);
    }
  }

  lemma NextCovered(s: State, a: Step)
    requires Covered(s)
    ensures Covered(Next(s, a))
  {
    var t := Next(s, a);
    if a.Subscribe? {
      SubscribeChanges(s, a.ws);
      if t.subs != s.subs { SubscribeCovered(s, t, a.ws); } else { FewerCovered(s, t); }
    } else if a.Unsubscribe? {
      if a.sub < |s.subs| { UnsubscribeCovered(s, a.sub); }
    } else {
      SubsStay(s, a);
      CountsShrink(s, a);
      FewerCovered(s, t);
    }
  }

  lemma SubscribeChanges(s: State, ws: string)
    ensures var t := SubscribeStep(s, ws);
            var key := MemberKey(Session.UserOf(s.session), ws);
            (t.refCounts == s.refCounts && t.subs == s.subs)
            || (t.refCounts == s.refCounts[key := Count(s, key) + 1] && t.subs == s.subs + [Sub(key, ws, false)])
  {
  }

  lemma CountsShrink(s: State, a: Step)
    requires !a.Subscribe? && !a.Unsubscribe?
    ensures forall key :: key in Next(s, a).refCounts ==>
              key in s.refCounts && Next(s, a).refCounts[key] == s.refCounts[key]
  {
  }

  /** In every run a counted key is still held by someone, however stale or repeated the releases. */
  lemma {:induction false} RunCovered(steps: seq<Step>)
    ensures Covered(Run(Init(), steps))
  {
    if steps != [] {
      RunCovered(steps[..|steps| - 1]);
      NextCovered(Run(Init(), steps[..|steps| - 1]), steps[|steps| - 1]);
    }
  }

  // ---- boundaries

  lemma {:induction false} RunPresence(steps: seq<Step>)
    ensures Presence.Polls(Run(Init(), steps).presence)
  {
    if steps != [] {
      var s, a := Run(Init(), steps[..|steps| - 1]), steps[|steps| - 1];
      RunPresence(steps[..|steps| - 1]);
      Presence.NextPolls(s.presence, Presence.Clear);
      if a.PresenceDoes? { Presence.NextPolls(s.presence, a.act); }
      PresenceMoves(s, a);
    }
  }

  lemma PresenceMoves(s: State, a: Step)
    ensures var p := Next(s, a).presence;
            p == s.presence || p == Presence.Next(s.presence, Presence.Clear)
            || (a.PresenceDoes? && p == Presence.Next(s.presence, a.act))
  {
  }

  /** After every run, replacing one user's session by another's, or ending it, leaves nothing of the first: no timer,
      no shared request, no count, no presence polling; and no interval that is still running asks for anything. */
  lemma {:induction false} UserChangeClearsAll(steps: seq<Step>, a: Step)
    requires var s := Run(Init(), steps);
             a.EndSession? || (a.SetSession? && a.options.level.None? && s.session.Some?
                               && s.session.value.user != a.session.user)
    ensures var t := Next(Run(Init(), steps), a);
            t.timer == TimerStore.Init() && t.inflight == map[] && t.refCounts == map[] && t.initialized == {}
            && t.presence.pollTimer.None? && t.presence.live == map[] && t.presence.byWorkspace == map[]
            && forall h :: IntervalStep(t, h) == t
  {
    var s := Run(Init(), steps);
    RunPresence(steps);
    if a.SetSession? { Session.UserChangeIsFull(s.session.value, a.session, a.options); }
  }

  /** Removing a workspace drops exactly its initialised members' keys, and with them their counts. */
  lemma RemovesWorkspaceExactly(s: State, ws: string, user: string, other: string)
    requires ':' !in user && ':' !in other
    ensures var t := Next(s, RemoveWorkspace(ws));
            var key := MemberKey(user, other);
            (key in t.initialized <==> key in s.initialized && other != ws)
            && Count(t, key) == if key in s.initialized && other == ws then 0 else Count(s, key)
  {
    KeyRoundTrip(user, other);
  }

  // ---- what the code does not promise

  /** Emptying the map lets an older request's end drop the newer one listed under the same key, so that a
      third goes out beside it although nothing was cleared since the second. */
  lemma OldEndDropsNewer(user: string, tenant: string, ws: string, o: Session.Options)
    requires user != "" && ws != ""
    ensures var session := Session.Session(user, tenant, None, false, None);
            var steps := [SetSession(session, o), Refresh(ws), ClearStore, Refresh(ws),
                          Complete(0, AutoStopped, 0), Refresh(ws)];
            var t := Run(Init(), steps);
            Outstanding(t, 1) && Outstanding(t, 2) && t.reqs[1].key == t.reqs[2].key
  {
    var session := Session.Session(user, tenant, None, false, None);
    var a, b, c := SetSession(session, o), Refresh(ws), Complete(0, AutoStopped, 0);
    var r := Request(user, ws, MemberKey(user, ws), false);
    var s1 := Next(Init(), a);
    assert s1.session == Some(session) && s1.reqs == [] && s1.inflight == map[];
    var s3 := Next(Next(s1, b), ClearStore);
    assert s3.session == s1.session && s3.reqs == [r] && s3.inflight == map[];
    var s5 := Next(Next(s3, b), c);
    assert s5.session == s1.session && s5.reqs == [r.(done := true), r] && s5.inflight == map[];
    Chain6(a, b, ClearStore, b, c, b);
  }

  lemma Chain6(a: Step, b: Step, c: Step, d: Step, e: Step, f: Step)
    ensures Run(Init(), [a, b, c, d, e, f]) == Next(Next(Next(Next(Next(Next(Init(), a), b), c), d), e), f)
  {
    Chain4(a, b, c, d);
    Extend([a, b, c, d], e, [a, b, c, d, e]);
    Extend([a, b, c, d, e], f, [a, b, c, d, e, f]);
  }

  lemma {:induction false} Extend(steps: seq<Step>, a: Step, longer: seq<Step>)
    requires longer == steps + [a]
    ensures Run(Init(), longer) == Next(Run(Init(), steps), a)
  {
    RunOn(Init(), steps, a);
  }

  function OnlyUser(user: string): Session.Session { Session.Session(user, user, None, false, None) }

  function InOneWorkspace(user: string, tenant: string, ws: string): Session.Session {
    Session.Session(user, tenant, Some(ws), false, None)
  }

  /** A failed request of a user who is gone still takes the next user's timer away. */
  lemma FailureClearsAnothersTimer(user: string, other: string, ws: string, timer: TimerStore.Timer, o: Session.Options)
    requires user != other && user != "" && ws != "" && TimerStore.WellFormed(timer)
    ensures var first, second := OnlyUser(user), OnlyUser(other);
            var steps := [SetSession(first, o), Refresh(ws), SetSession(second, o),
                          TimerDoes(TimerStore.SetActive(Some(timer), 0))];
            var t := Run(Init(), steps);
            t.timer.active == Some(timer) && Outstanding(t, 0) && t.reqs[0].user != Session.UserOf(t.session)
            && Run(Init(), steps + [Complete(0, Failed, 0)]).timer == TimerStore.Init()
  {
    var first, second := OnlyUser(user), OnlyUser(other);
    var a, b, c := SetSession(first, o), Refresh(ws), SetSession(second, o);
    var d := TimerDoes(TimerStore.SetActive(Some(timer), 0));
    var r := Request(user, ws, MemberKey(user, ws), false);
    var s2 := Next(Next(Init(), a), b);
    assert s2.reqs == [r];
    var s3 := Next(s2, c);
    assert s3.reqs == [r] && s3.session == Some(second);
    Chain4(a, b, c, d);
    RunOn(Init(), [a, b, c, d], Complete(0, Failed, 0));
  }

  lemma Chain4(a: Step, b: Step, c: Step, d: Step)
    ensures Run(Init(), [a, b, c, d]) == Next(Next(Next(Next(Init(), a), b), c), d)
  {
    Extend([], a, [a]);
    Extend([a], b, [a, b]);
    Extend([a, b], c, [a, b, c]);
    Extend([a, b, c], d, [a, b, c, d]);
  }

  /** Ownership is by user, not by workspace: a request made in one workspace installs its timer after the
      same user has moved to another. */
  lemma OtherWorkspaceInstalls(user: string, tenant: string, w1: string, w2: string, timer: TimerStore.Timer,
                               o: Session.Options)
    requires user != "" && tenant != "" && w1 != "" && w2 != w1 && TimerStore.WellFormed(timer)
    requires o.level.None?
    ensures var first, second := InOneWorkspace(user, tenant, w1), InOneWorkspace(user, tenant, w2);
            var steps := [SetSession(first, o), Refresh(w1), SetSession(second, o), Complete(0, Dto(Some(timer)), 0)];
            var t := Run(Init(), steps);
            t.timer.active == Some(timer) && t.installer == Some(0) && |t.reqs| == 1
            && t.reqs[0].ws == w1 && t.session == Some(second)
  {
    var first, second := InOneWorkspace(user, tenant, w1), InOneWorkspace(user, tenant, w2);
    var a, b, c, d := SetSession(first, o), Refresh(w1), SetSession(second, o), Complete(0, Dto(Some(timer)), 0);
    var r := Request(user, w1, MemberKey(user, w1), false);
    var s2 := Next(Next(Init(), a), b);
    assert s2.reqs == [r] && s2.session == Some(first);
    var s3 := Next(s2, c);
    assert s3.reqs == [r] && s3.session == Some(second);
    Chain4(a, b, c, d);
  }

  // ---- the store

  class SessionStore {
    var session: Option<Session.Session>

    constructor ()
      ensures session == None
    {
      session := None;
    }
  }

  class ActiveTimerSessionStore {
    const sessions: SessionStore
    const timers: TimerStore.TimerStore
    const presence: Presence.PresenceStore
    var refCounts: map<string, nat>
    var initialized: set<string>
    var inflight: map<string, Id>
    var live: set<nat>
    ghost var reqs: seq<Request>
    ghost var subs: seq<Sub>
    ghost var installer: Option<Id>

    ghost function Model(): State
      reads this, sessions, timers, presence
    {
      State(sessions.session, presence.Model(), timers.Model(), refCounts, initialized, inflight,
            reqs, subs, live, installer)
    }

    constructor ()
      ensures Model() == Init() && fresh(sessions) && fresh(timers) && fresh(presence)
    {
      sessions := new SessionStore();
      timers := new TimerStore.TimerStore();
      presence := new Presence.PresenceStore();
      refCounts, initialized, inflight, live := map[], {}, map[], {};
      reqs, subs, installer := [], [], None;
    }

    function ResolveMemberUserId(): string
      reads this, sessions
    {
      Session.UserOf(sessions.session)
    }

    /** refreshActive() up to its request; id is the number the request gets. */
    method RefreshActive(ws: string, id: Id)
      requires id == |reqs|
      modifies this`inflight, this`reqs
      ensures Model() == Next(old(Model()), Step.Refresh(ws))
    {
      var userId := ResolveMemberUserId();
      if ws == "" || userId == "" {
        return;
      }
      var key := MemberKey(userId, ws);
      if key in inflight {
        return;
      }
      reqs := reqs + [Request(userId, ws, key, false)];
      inflight := inflight[key := id];
    }

    /** refreshActive() once its request has been answered, with the user and key it captured. */
    method AfterRequest(userId: string, key: string, answer: Answer, now: int, ghost id: Id)
      requires Outstanding(Model(), id) && reqs[id].user == userId && reqs[id].key == key
      modifies this`initialized, this`inflight, this`reqs, this`installer, timers
      ensures Model() == Next(old(Model()), Complete(id, answer, now))
    {
      if answer.Failed? {
        timers.SetActive(None, now);
        installer := Some(id);
      } else if ResolveMemberUserId() == userId {
        timers.SetActive(if answer.AutoStopped? then None else TimerStore.NormalizeActiveTimer(answer.timer), now);
        installer := Some(id);
      }
      reqs := reqs[id := reqs[id].(done := true)];
      inflight := inflight - {key};
      initialized := initialized + {key};
    }

    /** intervalId and id are the numbers a new interval and a new request get; the key is what the returned
        function captures. */
    method SubscribeActive(ws: string, intervalId: nat, id: Id) returns (captured: Option<string>)
      requires intervalId == |subs| && id == |reqs|
      modifies this
      ensures Model() == Next(old(Model()), Step.Subscribe(ws))
      ensures captured.Some? <==> |subs| == |old(subs)| + 1
      ensures captured.Some? ==> subs[intervalId] == Sub(captured.value, ws, false)
    {
      var userId := ResolveMemberUserId();
      if userId == "" || ws == "" {
        return None;
      }
      var key := MemberKey(userId, ws);
      var nextCount := (if key in refCounts then refCounts[key] else 0) + 1;
      refCounts := refCounts[key := nextCount];
      if key !in initialized && key !in inflight {
        RefreshActive(ws, id);
      }
      StartInterval(intervalId, key, ws);
      return Some(key);
    }

    method StartInterval(intervalId: nat, key: string, ws: string)
      requires intervalId == |subs|
      modifies this`live, this`subs
      ensures Model() == Polled(old(Model()), key, ws) && subs == old(subs) + [Sub(key, ws, false)]
    {
      live, subs := live + {intervalId}, subs + [Sub(key, ws, false)];
    }

    method OnInterval(handle: nat, key: string, ws: string, id: Id)
      requires id == |reqs| && handle in live && handle < |subs| && subs[handle].key == key && subs[handle].ws == ws
      modifies this`inflight, this`reqs
      ensures Model() == Next(old(Model()), Step.Interval(handle))
    {
      if (if key in refCounts then refCounts[key] else 0) > 0 {
        RefreshActive(ws, id);
      }
    }

    method UnsubscribeActive(intervalId: nat, key: string)
      requires intervalId < |subs| && subs[intervalId].key == key
      modifies this`refCounts, this`live, this`subs
      ensures Model() == Next(old(Model()), Step.Unsubscribe(intervalId))
    {
      live, subs := live - {intervalId}, subs[intervalId := subs[intervalId].(released := true)];
      var count := if key in refCounts then refCounts[key] else 1;
      var remaining := if count <= 1 then 0 else count - 1;
      if remaining == 0 {
        refCounts := refCounts - {key};
      } else {
        refCounts := refCounts[key := remaining];
      }
    }

    method InvalidateActive(ws: string, id: Id)
      requires id == |reqs|
      modifies this`initialized, this`inflight, this`reqs
      ensures Model() == Next(old(Model()), Step.Invalidate(ws))
    {
      var userId := ResolveMemberUserId();
      if userId == "" {
        return;
      }
      var key := MemberKey(userId, ws);
      initialized := initialized - {key};
      if (if key in refCounts then refCounts[key] else 0) > 0 {
        RefreshActive(ws, id);
      }
    }

    /** Deletes the listed workspace's keys one by one from both records. */
    method RemoveWorkspace(ws: string)
      modifies this`initialized, this`refCounts
      ensures Model() == Next(old(Model()), Step.RemoveWorkspace(ws))
    {
      ghost var all := KeysOf(initialized, ws);
      var keys := KeysOf(initialized, ws);
      while keys != {}
        invariant keys <= all
        invariant initialized == old(initialized) - (all - keys)
        invariant refCounts == old(refCounts) - (all - keys)
        decreases keys
      {
        var key :| key in keys;
        keys := keys - {key};
        initialized, refCounts := initialized - {key}, refCounts - {key};
      }
      assert all - keys == all;
    }

    method Clear()
      modifies this`refCounts, this`initialized, this`inflight
      ensures Model() == Next(old(Model()), ClearStore)
    {
      refCounts, initialized, inflight := map[], {}, map[];
    }

    /** The registered handler; prevWorkspaceId is the previous identity's, or empty. */
    method OnBoundary(level: Session.Level, prevWorkspaceId: string)
      requires prevWorkspaceId == Trimmed(Model()) && level != Session.Unchanged
      modifies this, presence, timers
      ensures Model() == Boundary(old(Model()), level)
    {
      if level.Full? {
        presence.Clear();
        Clear();
        ClearTimer();
        return;
      }
      if prevWorkspaceId != "" {
        presence.Clear();
        RemoveWorkspace(prevWorkspaceId);
        ClearTimer();
      }
    }

    method ClearTimer()
      modifies this`installer, timers
      ensures Model() == TimerCleared(old(Model()))
    {
      timers.Clear();
      installer := None;
    }

    /** setSession: the boundary first, then the session. */
    method ReplaceSession(session: Session.Session, options: Session.Options)
      modifies this, sessions, presence, timers
      ensures Model() == Next(old(Model()), SetSession(session, options))
    {
      var level := Session.LevelOf(sessions.session, session, options);
      var prev := Session.IdentityOf(sessions.session);
      if level != Session.Unchanged {
        OnBoundary(level, if prev.Some? && prev.value.ws.Some? then prev.value.ws.value else "");
      }
      sessions.session := Some(session);
    }

    method ClearSession()
      modifies this, sessions, presence, timers
      ensures Model() == Next(old(Model()), EndSession)
    {
      var prev := Session.IdentityOf(sessions.session);
      OnBoundary(Session.Full, if prev.Some? && prev.value.ws.Some? then prev.value.ws.value else "");
      sessions.session := None;
    }
  }
}
