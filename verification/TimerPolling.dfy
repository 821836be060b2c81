/** What the active-timer store promises: what an answer shows, who asks when, how counts move, and what a change of
    session leaves. */
module TimerPolling {
  import opened JsStrings
  import opened ActiveTimer
  import Presence
  import Session
  import TimerStore

  /** In any state, so in every run, an answer to a request of the user signed in shows a timer exactly when it brings
      one with all its ids and a start, and then shows that one; an auto-stopped timer, a malformed one, none and a
      failure each leave no timer and no seconds. */
  lemma AnswerShowsExactly(s: State, id: Id, answer: Answer, now: int)
    requires id < |s.reqs| && !s.reqs[id].done && s.session.Some? && s.session.value.user == s.reqs[id].user
    ensures var t := Next(s, Complete(id, answer, now)).timer;
            var shows := answer.Dto? && answer.timer.Some? && answer.timer.value.taskId != ""
                         && answer.timer.value.userId != "" && answer.timer.value.workspaceId != ""
                         && answer.timer.value.startedAt.Some?;
            if shows then t.active == answer.timer && t.isPaused == answer.timer.value.paused
            else t == TimerStore.State(None, 0, false)
  {
  }

  /** Whoever asked, an answer ends its request and lists its key as initialised and no longer in flight; counts,
      subscriptions, intervals, session and presence stay. */
  lemma AnswerEndsRequest(s: State, id: Id, answer: Answer, now: int)
    requires id < |s.reqs| && !s.reqs[id].done
    ensures var t, key := Next(s, Complete(id, answer, now)), s.reqs[id].key;
            && t.reqs == s.reqs[id := s.reqs[id].(done := true)]
            && t.initialized == s.initialized + {key} && t.inflight == s.inflight - {key}
            && t.refCounts == s.refCounts && t.subs == s.subs && t.live == s.live
            && t.session == s.session && t.presence == s.presence
  {
  }

  /** In every run a refresh by a user, whose id holds no colon, in a workspace leaves exactly one request on the map
      for the two: the one already out, or a new one; without a user or a workspace it asks for nothing. Nothing else
      on the map, and no other store, changes. */
  lemma {:induction false} RefreshAsks(steps: seq<Step>, ws: string, user: string)
    requires var s := Run(Init(), steps); user == if s.session.Some? then s.session.value.user else ""
    requires ':' !in user && forall r :: r in Run(Init(), steps).reqs ==> ':' !in r.user
    ensures var s := Run(Init(), steps);
            var t, key := Next(s, Refresh(ws)), user + ":" + ws;
            && t == s.(reqs := t.reqs, inflight := t.inflight)
            && (user == "" || ws == "" ==> t == s)
            && (user != "" && ws != "" ==>
                  && key in t.inflight && t.inflight[key] < |t.reqs|
                  && t.reqs[t.inflight[key]] == Request(user, ws, key, false)
                  && (if key in s.inflight then t.reqs == s.reqs && t.inflight == s.inflight
                      else t.reqs == s.reqs + [Request(user, ws, key, false)]
                           && t.inflight == s.inflight[key := |s.reqs|]))
  {
    var s := Run(Init(), steps);
    RunKeyed(steps);
    if MemberKey(user, ws) in s.inflight {
      assert s.reqs[s.inflight[MemberKey(user, ws)]] in s.reqs;
      JoinsOwn(steps, ws);
    }
  }

  /** Subscribing counts the member once more, starts an interval of its own, and leaves the member's timer asked for
      or already initialised; without a user or a workspace it does nothing. */
  lemma SubscribeExactly(s: State, ws: string)
    ensures var t, user := Next(s, Subscribe(ws)), if s.session.Some? then s.session.value.user else "";
            var key := user + ":" + ws;
            if user == "" || ws == "" then t == s
            else
              && t.refCounts == s.refCounts[key := (if key in s.refCounts then s.refCounts[key] else 0) + 1]
              && t.subs == s.subs + [Sub(key, ws, false)] && t.live == s.live + {|s.subs|}
              && (key in t.initialized || key in t.inflight)
              && (if key in s.initialized || key in s.inflight then t.reqs == s.reqs && t.inflight == s.inflight
                  else t.reqs == s.reqs + [Request(user, ws, key, false)]
                       && t.inflight == s.inflight[key := |s.reqs|])
              && t.timer == s.timer && t.initialized == s.initialized
  {
  }

  /** Releasing a subscription stops its interval and lowers the count of its member, which is dropped at none. */
  lemma UnsubscribeExactly(s: State, sub: nat)
    requires sub < |s.subs|
    ensures var t, key := Next(s, Unsubscribe(sub)), s.subs[sub].key;
            && t.live == s.live - {sub} && t.subs == s.subs[sub := s.subs[sub].(released := true)]
            && t.refCounts == (if key in s.refCounts && s.refCounts[key] > 1
                               then s.refCounts[key := s.refCounts[key] - 1] else s.refCounts - {key})
            && t.reqs == s.reqs && t.inflight == s.inflight && t.timer == s.timer && t.initialized == s.initialized
  {
  }

  /** In every run the interval of an unreleased subscription refreshes its own workspace as long as its member is
      counted, and one that was released does nothing. */
  lemma {:induction false} IntervalExactly(steps: seq<Step>, handle: nat)
    requires handle < |Run(Init(), steps).subs|
    ensures var s := Run(Init(), steps);
            var sub := s.subs[handle];
            Next(s, Interval(handle))
            == if !sub.released && sub.key in s.refCounts then Next(s, Refresh(sub.ws)) else s
  {
    RunLive(steps);
    RunCovered(steps);
  }

  /** Invalidating forgets that the member's timer was initialised, and asks for it again while somebody is counted. */
  lemma {:induction false} InvalidateExactly(steps: seq<Step>, ws: string)
    ensures var s := Run(Init(), steps);
            var user := if s.session.Some? then s.session.value.user else "";
            var key := user + ":" + ws;
            var forgotten := s.(initialized := s.initialized - {key});
            Next(s, Invalidate(ws))
            == if user == "" then s else if key in s.refCounts then Next(forgotten, Refresh(ws)) else forgotten
  {
    RunCovered(steps);
  }

  /** With no explicit level, replacing a session by one of the same user, tenant and impersonator: the same workspace
      and setup flag leave every store as it was; otherwise the timer, the presence and the listed members of the old
      workspace go, and the requests in flight, the subscriptions and the intervals stay. */
  lemma SameUserBoundary(s: State, next: Session.Session, o: Session.Options)
    requires o.level.None? && s.session.Some? && next.user == s.session.value.user != ""
    requires next.tenant == s.session.value.tenant != "" && next.impersonator == s.session.value.impersonator
    ensures var t, prev := Next(s, SetSession(next, o)), s.session.value;
            if (next.ws == prev.ws && next.requiresSetup == prev.requiresSetup)
               || prev.ws.None? || prev.ws.value == ""
            then t == s.(session := Some(next))
            else
              var gone := set key | key in s.initialized && WorkspaceOfKey(key) == prev.ws;
              t == s.(session := Some(next), timer := TimerStore.State(None, 0, false), installer := None,
                      presence := Presence.Next(s.presence, Presence.Clear),
                      initialized := s.initialized - gone, refCounts := s.refCounts - gone)
  {
    Session.LevelExactly(s.session.value, next, o);
    if s.session.value.ws.Some? {
      assert KeysOf(s.initialized, s.session.value.ws.value)
          == set key | key in s.initialized && WorkspaceOfKey(key) == s.session.value.ws;
    }
  }
}
