/** What the request protocol promises its callers: who joins whom, what is never shared, and what an abort reaches. */
module ReadSharing {
  import opened JsStrings
  import opened SingleFlight
  import Text

  // ---- whom a call speaks for

  /** Whoever calls, and for whatever: the caller is the session's user, or else the token's, and its workspace is the
      token's claim, or else the option without the white space around it. */
  lemma {:induction false} CallerIs(s: State, verb: string, path: string, option: string, hasBody: bool,
                                    signal: Option<nat>)
    ensures var t := Next(s, Call(verb, path, option, hasBody, signal));
            |t.callers| == |s.callers| + 1 && t.callers[..|s.callers|] == s.callers
            && var c := t.callers[|s.callers|];
               && c.verb == verb && c.path == path
               && c.user == (if s.user != "" then s.user else if s.token.Token? then s.token.owner else "")
               && c.ws == (if s.token.Token? && s.token.claim != "" then s.token.claim else Text.Trim(option))
  {
  }

  /** A request issued by a call is for its caller, and goes out with a token at hand that is still good, without one
      when there is none, and not yet when the token has expired. */
  lemma IssuedIs(s: State, verb: string, path: string, option: string, hasBody: bool, signal: Option<nat>)
    ensures var t := Next(s, Call(verb, path, option, hasBody, signal));
            t.reqs == s.reqs || (|t.reqs| == |s.reqs| + 1 && t.reqs[..|s.reqs|] == s.reqs)
    ensures var t := Next(s, Call(verb, path, option, hasBody, signal));
            |t.reqs| > |s.reqs| ==>
              var r, c := t.reqs[|s.reqs|], t.callers[|s.callers|];
              && c.req == |s.reqs| && r.verb == verb && r.path == path && r.option == option
              && r.user == c.user && r.ws == c.ws && r.callerSignal == signal && !r.isRetry
              && r.child.None? && r.barrier.None? && r.outcome.None? && !r.finalised
              && r.sentAs == (if s.token.NoToken? then Some("") else if s.token.expired then None
                              else Some(s.token.owner))
  {
  }

  // ---- who joins

  /** The same read twice in a row: the second call issues nothing and waits for the same request, for every user,
      token, path and workspace. */
  lemma SecondCallJoins(s: State, path: string, option: string, signal: Option<nat>, signal': Option<nat>)
    ensures var t := Next(s, Call("GET", path, option, false, signal));
            var u := Next(t, Call("GET", path, option, false, signal'));
            && u.reqs == t.reqs && u.inflight == t.inflight && |u.callers| == |s.callers| + 2
            && u.callers[|s.callers| + 1].req == u.callers[|s.callers|].req
            && u.callers[|s.callers|].guard == signal && u.callers[|s.callers| + 1].guard == signal'
  {
    var t := Next(s, Call("GET", path, option, false, signal));
    assert t.user == s.user && t.token == s.token;
  }

  lemma {:induction false} RunGrows(s: State, steps: seq<Step>)
    ensures Grows(s, Run(s, steps))
  {
    if steps != [] {
      var k := |steps| - 1;
      RunGrows(s, steps[..k]);
      NextGrows(Run(s, steps[..k]), steps[k]);
      GrowsOn(s, Run(s, steps[..k]), Run(s, steps));
    }
  }

  lemma GrowsOn(s: State, t: State, u: State)
    requires Grows(s, t) && Grows(t, u)
    ensures Grows(s, u)
  {
    forall id | 0 <= id < |s.reqs| ensures Refines(s.reqs[id], u.reqs[id]) {
      assert Refines(s.reqs[id], t.reqs[id]) && Refines(t.reqs[id], u.reqs[id]);
    }
  }

  lemma {:induction false} RunFromKeepsInv(s: State, steps: seq<Step>)
    requires Inv(s)
    ensures Inv(Run(s, steps))
  {
    if steps != [] {
      var k := |steps| - 1;
      RunFromKeepsInv(s, steps[..k]);
      NextKeepsInv(Run(s, steps[..k]), steps[k]);
    }
  }

  /** The map entry a read leaves. */
  lemma ReadIsListed(s: State, path: string, option: string, signal: Option<nat>) returns (key: string, id: Id)
    requires Inv(s)
    ensures var t := Next(s, Call("GET", path, option, false, signal));
            && |t.callers| == |s.callers| + 1 && t.callers[|s.callers|].req == id < |t.reqs|
            && t.reqs[id].key == Some(key) && key == InflightKey(Identity(s), "GET", path, Workspace(s, option))
  {
    key := InflightKey(Identity(s), "GET", path, Workspace(s, option));
    id := if key in s.inflight then s.inflight[key] else |s.reqs|;
  }

  /** In every run, whatever happens after a read was called: as long as its request is neither finalised nor evicted,
      the same read by the same user in the same workspace issues nothing and waits for that request. */
  lemma {:induction false} LaterCallJoins(s: State, user: string, steps: seq<Step>, during: seq<Step>,
                       path: string, option: string, signal: Option<nat>, signal': Option<nat>)
    requires Reachable(s, user, steps)
    requires var t := Next(s, Call("GET", path, option, false, signal));
             var u, id := Run(t, during), CallerOf(t, |s.callers|);
             && Identity(u) == Identity(s) && Workspace(u, option) == Workspace(s, option)
             && id < |u.reqs| && !u.reqs[id].finalised && id !in u.evicted
    ensures var t := Next(s, Call("GET", path, option, false, signal));
            var u := Run(t, during);
            var v := Next(u, Call("GET", path, option, false, signal'));
            v.reqs == u.reqs && v.inflight == u.inflight && |v.callers| == |u.callers| + 1
            && v.callers[|u.callers|].req == CallerOf(t, |s.callers|)
  {
    RunKeepsInv(user, steps);
    var t := Next(s, Call("GET", path, option, false, signal));
    var key, id := ReadIsListed(s, path, option, signal);
    NextKeepsInv(s, Call("GET", path, option, false, signal));
    RunFromKeepsInv(t, during);
    RunGrows(t, during);
    var u := Run(t, during);
    assert Refines(t.reqs[id], u.reqs[id]);
    assert key in u.inflight && u.inflight[key] == id;
  }

  function CallerOf(t: State, i: nat): Id { if i < |t.callers| then t.callers[i].req else 0 }

  /** A request is finalised only after it settled. */
  lemma OnlyFinallyFinalises(s: State, a: Step, id: Id)
    requires id < |s.reqs| && !s.reqs[id].finalised
    requires id < |Next(s, a).reqs| && Next(s, a).reqs[id].finalised
    ensures a == Finally(id) && s.reqs[id].outcome.Some?
  {
  }

  // ---- what is never shared

  /** A call with a body, or by any other method than GET, issues a request of its own and leaves the map as it was. */
  lemma UnsharedIsIssued(s: State, verb: string, path: string, option: string, hasBody: bool, signal: Option<nat>)
    requires verb != "GET" || hasBody
    ensures var t := Next(s, Call(verb, path, option, hasBody, signal));
            && t.inflight == s.inflight && t.evicted == s.evicted
            && |t.reqs| == |s.reqs| + 1 && t.reqs[|s.reqs|].key.None?
            && |t.callers| == |s.callers| + 1 && t.callers[|s.callers|].req == |s.reqs|
  {
  }

  /** Only a request with a key has more than one caller. */
  ghost predicate Alone(s: State) {
    forall i, j :: 0 <= i < j < |s.callers| && s.callers[i].req == s.callers[j].req < |s.reqs| ==>
      s.reqs[s.callers[i].req].key.Some?
  }

  lemma NextKeepsAlone(s: State, a: Step)
    requires Inv(s) && Alone(s)
    ensures Alone(Next(s, a))
  {
    var t := Next(s, a);
    NextGrows(s, a);
    forall i, j | 0 <= i < j < |t.callers| && t.callers[i].req == t.callers[j].req < |t.reqs|
      ensures t.reqs[t.callers[i].req].key.Some?
    {
      if j < |s.callers| {
        CallerStays(s, a, i);
        CallerStays(s, a, j);
        assert CallerOk(s, s.callers[j]) && Refines(s.reqs[s.callers[j].req], t.reqs[s.callers[j].req]);
      } else {
        NewCaller(s, a, j);
        CallerStays(s, a, i);
        assert CallerOk(s, s.callers[i]) && Refines(s.reqs[s.callers[i].req], t.reqs[s.callers[i].req]);
        var key := DedupeKey(s, a.verb, a.path, a.option, a.hasBody);
        assert key.Some? && key.value in s.inflight;
      }
    }
  }

  lemma {:induction false} RunKeepsAlone(s: State, steps: seq<Step>)
    requires Inv(s) && Alone(s)
    ensures Alone(Run(s, steps))
  {
    if steps != [] {
      var k := |steps| - 1;
      RunKeepsAlone(s, steps[..k]);
      RunFromKeepsInv(s, steps[..k]);
      NextKeepsAlone(Run(s, steps[..k]), steps[k]);
    }
  }

  /** In every run, whatever happens next: nobody else ever waits for the request of such a call. */
  lemma {:induction false} NeverShared(s: State, user: string, steps: seq<Step>, during: seq<Step>, i: nat,
                    verb: string, path: string, option: string, hasBody: bool, signal: Option<nat>)
    requires Reachable(s, user, steps) && (verb != "GET" || hasBody)
    requires var u := Run(Next(s, Call(verb, path, option, hasBody, signal)), during);
             i < |u.callers| && u.callers[i].req == |s.reqs|
    ensures i == |s.callers|
  {
    var a := Call(verb, path, option, hasBody, signal);
    RunKeepsInv(user, steps);
    NextKeepsInv(s, a);
    var t := Next(s, a);
    RunKeepsAlone(Init(user), steps);
    NextKeepsAlone(s, a);
    RunKeepsAlone(t, during);
    RunGrows(t, during);
    RunCallersStay(t, during, |s.callers|);
    var u := Run(t, during);
    assert Refines(t.reqs[|s.reqs|], u.reqs[|s.reqs|]);
    assert u.callers[|s.callers|].req == |s.reqs|;
  }

  lemma {:induction false} RunCallersStay(s: State, steps: seq<Step>, i: nat)
    requires i < |s.callers|
    ensures i < |Run(s, steps).callers| && Run(s, steps).callers[i].req == s.callers[i].req
  {
    if steps != [] {
      var k := |steps| - 1;
      RunCallersStay(s, steps[..k], i);
      CallerStays(Run(s, steps[..k]), steps[k], i);
    }
  }

  // ---- what an abort reaches

  /** An abort rejects exactly the waiting callers that passed its signal to a read that can be shared, and nobody's
      request. */
  lemma AbortExactly(s: State, signal: nat, i: nat)
    requires i < |s.callers|
    ensures var t := Next(s, Abort(signal));
            && |t.callers| == |s.callers| && t.reqs == s.reqs && t.inflight == s.inflight
            && (t.callers[i] != s.callers[i] <==> s.callers[i].status == Waiting && s.callers[i].guard == Some(signal))
            && (t.callers[i] != s.callers[i] ==> t.callers[i] == s.callers[i].(status := SelfAborted))
  {
  }

  /** A call to a read that can be shared is rejected at once when its signal has been aborted; any other call waits. */
  lemma AbortedCallRejected(s: State, verb: string, path: string, option: string, hasBody: bool, signal: Option<nat>)
    ensures var t := Next(s, Call(verb, path, option, hasBody, signal));
            |t.callers| == |s.callers| + 1
            && t.callers[|s.callers|].status
               == if verb == "GET" && !hasBody && signal.Some? && signal.value in s.aborted then SelfAborted
                  else Waiting
  {
  }

  /** The fetch of a shared request is never aborted; any other that is out is, exactly when its own signal was. */
  lemma FetchAbortsExactly(s: State, id: Id)
    requires Open(s, id) && s.reqs[id].sentAs.Some?
    ensures var r, t := s.reqs[id], Next(s, FetchAborted(id));
            if r.key.None? && r.callerSignal.Some? && r.callerSignal.value in s.aborted
            then t == s.(reqs := s.reqs[id := r.(outcome := Some(Aborted))]) else t == s
  {
  }
}
