/** The API client's request protocol: concurrent identical GETs share one request, finished mutations
    drop shared timelog reads, and callers may abort. A labelled step system; what the network, the
    session and the callers do is left open. Requests and callers are numbered in order of issue. */
module SingleFlight {
  import opened JsStrings
  import Text

  type Id = nat

  // ---- keys

  /** ws is "" when no workspace is resolved. */
  function InflightKey(user: string, verb: string, path: string, ws: string): string {
    user + ":" + verb + ":" + path + ":" + ws
  }

  predicate Includes(s: string, t: string) {
    exists i | 0 <= i <= |s| :: t <= s[i..]
  }

  const TIMELOGS := "/timelogs"

  /** A write that makes shared timelog reads stale. */
  predicate TouchesTimelogs(verb: string, path: string) {
    verb != "GET" && verb != "HEAD" && (Includes(path, TIMELOGS) || "/timer/" <= path)
  }

  // ---- state

  /** origin is the request whose response it is. */
  datatype Outcome = Ok(origin: Id) | Failed | Aborted

  datatype Request = Request(
    user: string, verb: string, path: string,
    option: string,                 // the workspaceId it was called with, "" for none
    ws: string,                     // what that resolved to
    key: Option<string>,            // in-flight key when eligible for sharing
    callerSignal: Option<nat>,      // the signal its creator passed
    isRetry: bool,
    sentAs: Option<string>,         // whose token the fetch went out with, once it has
    child: Option<Id>,              // the retry after a 401
    barrier: Option<nat>,           // requests issued when its 2xx response was handled
    outcome: Option<Outcome>,
    finalised: bool)
  {
    /** The signal that fetch sees: shared requests are isolated from their callers. */
    function FetchSignal(): Option<nat> { if key.Some? then None else callerSignal }
  }

  datatype Status = Waiting | SelfAborted | Resolved(outcome: Outcome)

  /** guard is the signal that rejects this caller alone. */
  datatype Caller = Caller(req: Id, user: string, verb: string, path: string, ws: string,
                           guard: Option<nat>, status: Status)

  /** The access token in storage: whose it is and the workspace it claims, "" for none. */
  datatype Token = NoToken | Token(owner: string, claim: string, expired: bool)

  function OwnerOf(token: Token): string { if token.Token? then token.owner else "" }

  function ClaimOf(token: Token): string { if token.Token? then token.claim else "" }

  /** As whom a request goes out at once; None while it waits for the refresh of an expired token. */
  function SenderOf(token: Token): Option<string> {
    if token.NoToken? then Some("") else if token.expired then None else Some(token.owner)
  }

  /** The workspace of a request: the token's claim wins over the option. */
  function ResolveWorkspace(claim: string, option: string): string {
    if claim != "" then claim else Text.Trim(option)
  }

  /** user is that of the session, "" before there is one. evicted is history: the requests dropped from the map
      by an eviction. */
  datatype State = State(user: string, token: Token, inflight: map<string, Id>, reqs: seq<Request>,
                         callers: seq<Caller>, aborted: set<nat>, evicted: set<Id>)

  function Init(user: string): State { State(user, NoToken, map[], [], [], {}, {}) }

  /** The user that requests are keyed by: the session's, or else the token's. */
  function Identity(s: State): string { if s.user != "" then s.user else OwnerOf(s.token) }

  function Workspace(s: State, option: string): string { ResolveWorkspace(ClaimOf(s.token), option) }

  // ---- steps

  /** The stored token changes, or expires, at any time: another tab, a refresh or a sign-in may bring another
      user's, or one for another workspace. */
  datatype Step =
    | Call(verb: string, path: string, option: string, hasBody: bool, signal: Option<nat>)
    | Send(id: Id, owner: string)                   // the expired token was refreshed; whose the new one is
    | Answer(id: Id)                                // a 2xx response is handled
    | Settle(id: Id, ok: bool)                      // the promise settles without a retry
    | Retry(id: Id)                                 // 401, token refreshed: issued again
    | Adopt(id: Id)                                 // settles as its retry did
    | FetchAborted(id: Id)
    | Finally(id: Id)
    | Abort(cause: nat)
    | Deliver(caller: nat)
    | ClearAll
    | ClearForPath(fragment: string)
    | SwitchUser(newUser: string)
    | StoreToken(stored: Token)

  function NewRequest(s: State, verb: string, path: string, option: string, key: Option<string>,
                      signal: Option<nat>, isRetry: bool): Request {
    Request(Identity(s), verb, path, option, Workspace(s, option), key, signal, isRetry, SenderOf(s.token),
            None, None, None, false)
  }

  function DedupeKey(s: State, verb: string, path: string, option: string, hasBody: bool): Option<string> {
    if verb == "GET" && !hasBody then Some(InflightKey(Identity(s), verb, path, Workspace(s, option))) else None
  }

  function StatusAtCall(s: State, guard: Option<nat>): Status {
    if guard.Some? && guard.value in s.aborted then SelfAborted else Waiting
  }

  /** api(): join the shared request of the key, or issue one and share it. */
  function CallStep(s: State, verb: string, path: string, option: string, hasBody: bool, signal: Option<nat>): State {
    var key := DedupeKey(s, verb, path, option, hasBody);
    var user, ws := Identity(s), Workspace(s, option);
    if key.None? then
      s.(reqs := s.reqs + [NewRequest(s, verb, path, option, key, signal, false)],
         callers := s.callers + [Caller(|s.reqs|, user, verb, path, ws, None, Waiting)])
    else if key.value in s.inflight then
      s.(callers := s.callers
         + [Caller(s.inflight[key.value], user, verb, path, ws, signal, StatusAtCall(s, signal))])
    else
      s.(reqs := s.reqs + [NewRequest(s, verb, path, option, key, signal, false)],
         inflight := s.inflight[key.value := |s.reqs|],
         callers := s.callers + [Caller(|s.reqs|, user, verb, path, ws, signal, StatusAtCall(s, signal))])
  }

  function Update(s: State, id: Id, r: Request): State
    requires id < |s.reqs|
  {
    s.(reqs := s.reqs[id := r])
  }

  /** Neither settled nor waiting for a retry. */
  predicate Open(s: State, id: Id) {
    id < |s.reqs| && s.reqs[id].outcome.None? && s.reqs[id].child.None?
  }

  /** Sent, and neither answered nor settled nor waiting for a retry. */
  predicate Pending(s: State, id: Id) { Open(s, id) && s.reqs[id].sentAs.Some? && s.reqs[id].barrier.None? }

  predicate Drops(fragment: string, key: string) { fragment != "" && Includes(key, fragment) }

  /** The map without the keys that include the fragment. */
  function WithoutPath(inflight: map<string, Id>, fragment: string): map<string, Id> {
    map k | k in inflight && !Drops(fragment, k) :: inflight[k]
  }

  function Evict(s: State, fragment: string): State {
    s.(inflight := WithoutPath(s.inflight, fragment),
       evicted := s.evicted + set k | k in s.inflight && Drops(fragment, k) :: s.inflight[k])
  }

  function AnswerStep(s: State, id: Id): State
    requires id < |s.reqs|
  {
    var r := s.reqs[id];
    var t := Update(s, id, r.(barrier := Some(|s.reqs|)));
    if TouchesTimelogs(r.verb, r.path) then Evict(t, TIMELOGS) else t
  }

  /** A step that is not enabled changes nothing. */
  function Next(s: State, a: Step): State {
    match a
    case Call(verb, path, option, hasBody, signal) => CallStep(s, verb, path, option, hasBody, signal)
    case Send(id, owner) =>
      if Open(s, id) && s.reqs[id].sentAs.None? then Update(s, id, s.reqs[id].(sentAs := Some(owner))) else s
    case Answer(id) => if Pending(s, id) then AnswerStep(s, id) else s
    case Settle(id, ok) =>
      if !Open(s, id) || (ok && s.reqs[id].barrier.None?) then s
      else Update(s, id, s.reqs[id].(outcome := Some(if ok then Ok(id) else Failed)))
    case Retry(id) =>
      if !Pending(s, id) || s.reqs[id].isRetry then s
      else
        var r := s.reqs[id];
        var again := NewRequest(s, r.verb, r.path, r.option, None, r.callerSignal, true);
        s.(reqs := s.reqs[id := r.(child := Some(|s.reqs|))] + [again])
    case Adopt(id) =>
      if id < |s.reqs| && s.reqs[id].outcome.None? && s.reqs[id].child.Some?
         && s.reqs[id].child.value < |s.reqs| && s.reqs[s.reqs[id].child.value].outcome.Some?
      then Update(s, id, s.reqs[id].(outcome := s.reqs[s.reqs[id].child.value].outcome))
      else s
    case FetchAborted(id) =>
      if Open(s, id) && s.reqs[id].sentAs.Some?
         && s.reqs[id].FetchSignal().Some? && s.reqs[id].FetchSignal().value in s.aborted
      then Update(s, id, s.reqs[id].(outcome := Some(Aborted)))
      else s
    case Finally(id) =>
      if id < |s.reqs| && s.reqs[id].outcome.Some? && s.reqs[id].key.Some? && !s.reqs[id].finalised then
        var key := s.reqs[id].key.value;
        var t := Update(s, id, s.reqs[id].(finalised := true));
        if key in s.inflight && s.inflight[key] == id then t.(inflight := s.inflight - {key}) else t
      else s
    case Abort(signal) =>
      s.(aborted := s.aborted + {signal},
         callers := seq(|s.callers|, i requires 0 <= i < |s.callers| => AbortCaller(s.callers[i], signal)))
    case Deliver(c) =>
      if c < |s.callers| && s.callers[c].status.Waiting? && s.callers[c].req < |s.reqs|
         && s.reqs[s.callers[c].req].outcome.Some?
      then s.(callers := s.callers[c := s.callers[c].(status := Resolved(s.reqs[s.callers[c].req].outcome.value))])
      else s
    case ClearAll => s.(inflight := map[], evicted := s.evicted + set k | k in s.inflight :: s.inflight[k])
    case ClearForPath(fragment) => Evict(s, fragment)
    case SwitchUser(user) => s.(user := user)
    case StoreToken(token) => s.(token := token)
  }

  function AbortCaller(c: Caller, signal: nat): Caller {
    if c.guard == Some(signal) && c.status.Waiting? then c.(status := SelfAborted) else c
  }

  function Run(s: State, steps: seq<Step>): State {
    if steps == [] then s else Next(Run(s, steps[..|steps| - 1]), steps[|steps| - 1])
  }

  // ---- keys tell requests apart

  predicate ColonFree(s: string) { ':' !in s }

  /** With colon-free user, method and workspace, and any path, the key determines all four. */
  lemma KeyInjective(user: string, verb: string, path: string, ws: string,
                     user': string, verb': string, path': string, ws': string)
    requires ColonFree(user) && ColonFree(verb) && ColonFree(ws)
    requires ColonFree(user') && ColonFree(verb') && ColonFree(ws')
    requires InflightKey(user, verb, path, ws) == InflightKey(user', verb', path', ws')
    ensures user == user' && verb == verb' && path == path' && ws == ws'
  {
    Text.LastField(user + ":" + verb + ":" + path, user' + ":" + verb' + ":" + path', ws, ws', ':');
    assert user + ":" + verb + ":" + path == user + ":" + (verb + ":" + path);
    assert user' + ":" + verb' + ":" + path' == user' + ":" + (verb' + ":" + path');
    Text.FirstField(user, user', verb + ":" + path, verb' + ":" + path', ':');
    Text.FirstField(verb, verb', path, path', ':');
  }

  /** A workspace id with a colon can be confused with a path. */
  lemma ColonConfusesKeys()
    ensures InflightKey("u", "GET", "/p:w", "") == InflightKey("u", "GET", "/p", "w:")
  {
  }

  /** A text includes exactly what it is made of. */
  lemma IncludesPart(a: string, t: string, b: string)
    ensures Includes(a + t + b, t)
  {
    assert (a + t + b)[|a|..] == t + b;
  }

  lemma IncludedIsPart(s: string, t: string) returns (a: string, b: string)
    requires Includes(s, t)
    ensures s == a + t + b
  {
    var i :| 0 <= i <= |s| && t <= s[i..];
    var rest := s[i..];
    a, b := s[..i], rest[|t|..];
    assert s == a + rest && rest == t + b;
    assert a + (t + b) == a + t + b;
  }

  lemma KeyIncludesPath(user: string, verb: string, path: string, ws: string, fragment: string)
    requires Includes(path, fragment)
    ensures Includes(InflightKey(user, verb, path, ws), fragment)
  {
    var key := InflightKey(user, verb, path, ws);
    var i :| 0 <= i <= |path| && fragment <= path[i..];
    var j := |user| + 1 + |verb| + 1 + i;
    assert key[j..] == path[i..] + ":" + ws;
  }

  // ---- invariants

  /** Each map entry is the newest shared request of its key and not yet finalised; a shared request that is
      neither finalised nor evicted is in the map. */
  ghost predicate MapInv(s: State) {
    && (forall k :: k in s.inflight ==>
          s.inflight[k] < |s.reqs| && s.reqs[s.inflight[k]].key == Some(k)
          && !s.reqs[s.inflight[k]].finalised && s.inflight[k] !in s.evicted)
    && (forall k, j :: k in s.inflight && s.inflight[k] < j < |s.reqs| ==> s.reqs[j].key != Some(k))
    && (forall id :: 0 <= id < |s.reqs| && s.reqs[id].key.Some? && !s.reqs[id].finalised && id !in s.evicted ==>
          s.reqs[id].key.value in s.inflight && s.inflight[s.reqs[id].key.value] == id)
    && (forall id :: id in s.evicted ==> id < |s.reqs|)
  }

  predicate ChildOk(s: State, id: Id)
    requires id < |s.reqs|
  {
    var r := s.reqs[id];
    r.child.Some? ==>
      && id < r.child.value < |s.reqs| && !r.isRetry && r.barrier.None? && r.sentAs.Some?
      && var c := s.reqs[r.child.value];
         c.isRetry && c.key.None? && c.verb == r.verb && c.path == r.path && c.callerSignal == r.callerSignal
  }

  predicate OutcomeOk(s: State, id: Id)
    requires id < |s.reqs|
  {
    var r := s.reqs[id];
    match r.outcome
    case None => !r.finalised
    case Some(Failed) => true
    case Some(Ok(o)) =>
      o < |s.reqs| && s.reqs[o].barrier.Some? && s.reqs[o].verb == r.verb && s.reqs[o].path == r.path
      && (if r.child.None? then o == id else r.child == Some(o))
    case Some(Aborted) =>
      r.callerSignal.Some? && r.callerSignal.value in s.aborted && (r.key.Some? ==> r.child.Some?)
  }

  predicate KeyOk(r: Request) {
    r.key.Some? ==>
      r.verb == "GET" && !r.isRetry
      && r.key == Some(InflightKey(r.user, r.verb, r.path, r.ws))
  }

  predicate RequestOk(s: State, id: Id)
    requires id < |s.reqs|
  {
    KeyOk(s.reqs[id]) && ChildOk(s, id) && OutcomeOk(s, id)
    && (s.reqs[id].barrier.Some? ==> id < s.reqs[id].barrier.value <= |s.reqs| && s.reqs[id].sentAs.Some?)
  }

  predicate CallerOk(s: State, c: Caller) {
    c.req < |s.reqs|
    && var r := s.reqs[c.req];
       && (c.guard.Some? ==> r.key.Some?)
       && match c.status
          case Waiting => true
          case SelfAborted => c.guard.Some? && c.guard.value in s.aborted
          case Resolved(o) => r.outcome == Some(o)
  }

  /** No shared timelog read issued before number bound is still in the map. */
  ghost predicate Fresh(s: State, bound: nat) {
    bound <= |s.reqs|
    && forall k :: k in s.inflight && Includes(k, TIMELOGS) ==> s.inflight[k] >= bound
  }

  ghost predicate FreshInv(s: State) {
    forall o :: 0 <= o < |s.reqs| && s.reqs[o].barrier.Some? && TouchesTimelogs(s.reqs[o].verb, s.reqs[o].path) ==>
      Fresh(s, s.reqs[o].barrier.value)
  }

  ghost predicate Inv(s: State) {
    && MapInv(s)
    && (forall id :: 0 <= id < |s.reqs| ==> RequestOk(s, id))
    && (forall i :: 0 <= i < |s.callers| ==> CallerOk(s, s.callers[i]))
    && FreshInv(s)
  }

  // ---- every step keeps them

  /** Requests of t are those of s, with more known about them, and perhaps one more. */
  ghost predicate Grows(s: State, t: State) {
    |s.reqs| <= |t.reqs| && s.aborted <= t.aborted
    && forall id :: 0 <= id < |s.reqs| ==> Refines(s.reqs[id], t.reqs[id])
  }

  predicate Refines(r: Request, r': Request) {
    r' == r.(sentAs := r'.sentAs, child := r'.child, barrier := r'.barrier, outcome := r'.outcome,
             finalised := r'.finalised)
    && (r.sentAs.Some? ==> r'.sentAs == r.sentAs)
    && (r.child.Some? ==> r'.child == r.child) && (r.outcome.Some? ==> r'.outcome == r.outcome)
    && (r.barrier.Some? ==> r'.barrier == r.barrier)
  }

  lemma NextGrows(s: State, a: Step)
    ensures Grows(s, Next(s, a))
  {
    NextLonger(s, a);
    forall id | 0 <= id < |s.reqs| ensures Refines(s.reqs[id], Next(s, a).reqs[id]) {
      NextRefines(s, a, id);
    }
  }

  lemma NextLonger(s: State, a: Step)
    ensures |s.reqs| <= |Next(s, a).reqs| && s.aborted <= Next(s, a).aborted
  {
  }

  lemma NextRefines(s: State, a: Step, id: Id)
    requires id < |s.reqs| <= |Next(s, a).reqs|
    ensures Refines(s.reqs[id], Next(s, a).reqs[id])
  {
  }

  // -- the map

  predicate SameKeys(s: State, t: State) {
    s.inflight == t.inflight && s.evicted == t.evicted && |s.reqs| == |t.reqs|
    && forall id | 0 <= id < |s.reqs| ::
         s.reqs[id].key == t.reqs[id].key && s.reqs[id].finalised == t.reqs[id].finalised
  }

  lemma SameKeysKeepMap(s: State, t: State)
    requires MapInv(s) && SameKeys(s, t)
    ensures MapInv(t)
  {
  }

  /** A new request keeps the map's invariants if it is unshared, or shared under a key that was free. */
  lemma NewKeepsMap(s: State, t: State, r: Request)
    requires MapInv(s) && t.reqs == s.reqs + [r] && t.evicted == s.evicted && !r.finalised
    requires if r.key.Some? then r.key.value !in s.inflight && t.inflight == s.inflight[r.key.value := |s.reqs|]
             else t.inflight == s.inflight
    ensures MapInv(t)
  {
    forall id | 0 <= id < |t.reqs| && t.reqs[id].key.Some? && !t.reqs[id].finalised && id !in t.evicted
      ensures t.reqs[id].key.value in t.inflight && t.inflight[t.reqs[id].key.value] == id
    {
      assert id < |s.reqs| ==> s.reqs[id] == t.reqs[id];
    }
  }

  lemma CallKeepsMap(s: State, verb: string, path: string, option: string, hasBody: bool, signal: Option<nat>)
    requires MapInv(s)
    ensures MapInv(CallStep(s, verb, path, option, hasBody, signal))
  {
    var key, t := DedupeKey(s, verb, path, option, hasBody), CallStep(s, verb, path, option, hasBody, signal);
    if key.None? || key.value !in s.inflight {
      NewKeepsMap(s, t, NewRequest(s, verb, path, option, key, signal, false));
    }
  }

  lemma RetryKeepsMap(s: State, id: Id)
    requires MapInv(s)
    ensures MapInv(Next(s, Retry(id)))
  {
    var t := Next(s, Retry(id));
    if t != s {
      var r := s.reqs[id];
      var u := Update(s, id, r.(child := Some(|s.reqs|)));
      SameKeysKeepMap(s, u);
      NewKeepsMap(u, t, NewRequest(s, r.verb, r.path, r.option, None, r.callerSignal, true));
    }
  }

  lemma AnswerKeepsMap(s: State, id: Id)
    requires MapInv(s)
    ensures MapInv(Next(s, Answer(id)))
  {
    if Pending(s, id) {
      var t := Update(s, id, s.reqs[id].(barrier := Some(|s.reqs|)));
      SameKeysKeepMap(s, t);
      EvictKeepsMap(t, TIMELOGS);
    }
  }

  lemma EvictKeepsMap(s: State, fragment: string)
    requires MapInv(s)
    ensures MapInv(Evict(s, fragment))
  {
    var t := Evict(s, fragment);
    forall id | 0 <= id < |t.reqs| && t.reqs[id].key.Some? && !t.reqs[id].finalised && id !in t.evicted
      ensures t.reqs[id].key.value in t.inflight && t.inflight[t.reqs[id].key.value] == id
    {
      var k := t.reqs[id].key.value;
      assert k in s.inflight && s.inflight[k] == id;
    }
  }

  lemma ClearKeepsMap(s: State)
    requires MapInv(s)
    ensures MapInv(Next(s, ClearAll))
  {
    var t := Next(s, ClearAll);
    forall id | 0 <= id < |t.reqs| && t.reqs[id].key.Some? && !t.reqs[id].finalised
      ensures id in t.evicted
    {
      var k := t.reqs[id].key.value;
      assert id !in s.evicted ==> k in s.inflight && s.inflight[k] == id;
    }
  }

  lemma FinallyKeepsMap(s: State, id: Id)
    requires MapInv(s)
    ensures MapInv(Next(s, Finally(id)))
  {
    var t := Next(s, Finally(id));
    if t != s {
      forall k | k in t.inflight ensures t.inflight[k] == s.inflight[k] != id {
        assert s.reqs[s.inflight[k]].key == Some(k);
      }
      forall i | 0 <= i < |t.reqs| && t.reqs[i].key.Some? && !t.reqs[i].finalised && i !in t.evicted
        ensures t.reqs[i].key.value in t.inflight && t.inflight[t.reqs[i].key.value] == i
      {
        assert i != id && s.reqs[i] == t.reqs[i];
      }
    }
  }

  lemma KeepsMap(s: State, a: Step)
    requires MapInv(s)
    ensures MapInv(Next(s, a))
  {
    match a
    case Call(verb, path, option, hasBody, signal) => CallKeepsMap(s, verb, path, option, hasBody, signal);
    case Answer(id) => AnswerKeepsMap(s, id);
    case Retry(id) => RetryKeepsMap(s, id);
    case Finally(id) => FinallyKeepsMap(s, id);
    case ClearAll => ClearKeepsMap(s);
    case ClearForPath(fragment) => EvictKeepsMap(s, fragment);
    case _ =>
      OthersSameKeys(s, a);
      SameKeysKeepMap(s, Next(s, a));
  }

  lemma OthersSameKeys(s: State, a: Step)
    requires !a.Call? && !a.Answer? && !a.Retry? && !a.Finally? && !a.ClearAll? && !a.ClearForPath?
    ensures SameKeys(s, Next(s, a))
  {
  }

  // -- requests and callers

  /** What is known about an unchanged request stays true. */
  lemma FrameRequest(s: State, t: State, id: Id)
    requires Grows(s, t) && id < |s.reqs| && RequestOk(s, id) && t.reqs[id] == s.reqs[id]
    ensures RequestOk(t, id)
  {
    var r := s.reqs[id];
    if r.child.Some? {
      assert Refines(s.reqs[r.child.value], t.reqs[r.child.value]);
    }
    if r.outcome.Some? && r.outcome.value.Ok? {
      var o := r.outcome.value.origin;
      assert Refines(s.reqs[o], t.reqs[o]);
    }
  }

  lemma FrameCaller(s: State, t: State, c: Caller)
    requires Grows(s, t) && CallerOk(s, c)
    ensures CallerOk(t, c)
  {
    assert Refines(s.reqs[c.req], t.reqs[c.req]);
  }

  /** The request a step is about. */
  function Subject(a: Step): Option<Id> {
    match a
    case Send(id, owner) => Some(id) case Answer(id) => Some(id) case Settle(id, ok) => Some(id)
    case Retry(id) => Some(id) case Adopt(id) => Some(id)
    case FetchAborted(id) => Some(id) case Finally(id) => Some(id)
    case _ => None
  }

  lemma OthersUnchanged(s: State, a: Step, id: Id)
    requires id < |s.reqs| && Subject(a) != Some(id)
    ensures id < |Next(s, a).reqs| && Next(s, a).reqs[id] == s.reqs[id]
  {
  }

  lemma SubjectKept(s: State, a: Step)
    requires Subject(a).Some? && Subject(a).value < |s.reqs|
    requires forall i :: 0 <= i < |s.reqs| ==> RequestOk(s, i)
    ensures RequestOk(Next(s, a), Subject(a).value)
  {
    var id, t := Subject(a).value, Next(s, a);
    var r := s.reqs[id];
    assert RequestOk(s, id);
    if t == s {
    } else if a.Adopt? {
      assert RequestOk(s, r.child.value);
    } else {
      NextGrows(s, a);
      if r.child.Some? {
        assert Refines(s.reqs[r.child.value], t.reqs[r.child.value]);
      }
      if r.outcome.Some? && r.outcome.value.Ok? {
        assert Refines(s.reqs[r.outcome.value.origin], t.reqs[r.outcome.value.origin]);
      }
    }
  }

  lemma KeepsRequests(s: State, a: Step)
    requires forall i :: 0 <= i < |s.reqs| ==> RequestOk(s, i)
    ensures forall i :: 0 <= i < |Next(s, a).reqs| ==> RequestOk(Next(s, a), i)
  {
    var t := Next(s, a);
    NextGrows(s, a);
    forall i | 0 <= i < |t.reqs| ensures RequestOk(t, i) {
      if i < |s.reqs| {
        if Subject(a) == Some(i) {
          SubjectKept(s, a);
        } else {
          OthersUnchanged(s, a, i);
          FrameRequest(s, t, i);
        }
      }
    }
  }

  lemma KeepsCallers(s: State, a: Step)
    requires Inv(s)
    ensures forall i :: 0 <= i < |Next(s, a).callers| ==> CallerOk(Next(s, a), Next(s, a).callers[i])
  {
    var t := Next(s, a);
    NextGrows(s, a);
    forall i | 0 <= i < |t.callers| ensures CallerOk(t, t.callers[i]) {
      if i < |s.callers| {
        CallerKept(s, a, i);
      } else {
        var key := DedupeKey(s, a.verb, a.path, a.option, a.hasBody);
        assert key.Some? && key.value in s.inflight ==> s.reqs[s.inflight[key.value]].key == key;
      }
    }
  }

  lemma CallerKept(s: State, a: Step, i: nat)
    requires i < |s.callers| && CallerOk(s, s.callers[i]) && Grows(s, Next(s, a))
    ensures i < |Next(s, a).callers| && CallerOk(Next(s, a), Next(s, a).callers[i])
  {
    FrameCaller(s, Next(s, a), s.callers[i]);
  }

  // -- freshness

  lemma FrameFresh(s: State, t: State, bound: nat)
    requires Fresh(s, bound) && |s.reqs| <= |t.reqs|
    requires forall k :: k in t.inflight ==>
               (k in s.inflight && t.inflight[k] == s.inflight[k]) || t.inflight[k] >= |s.reqs|
    ensures Fresh(t, bound)
  {
  }

  /** No step brings a dropped read back: entries are only removed, or set to a new request. */
  lemma EntriesNotRevived(s: State, a: Step)
    ensures var t := Next(s, a);
            |s.reqs| <= |t.reqs|
            && forall k :: k in t.inflight ==>
                 (k in s.inflight && t.inflight[k] == s.inflight[k]) || t.inflight[k] >= |s.reqs|
  {
  }

  /** Handling a timelog write's response leaves no shared timelog read issued before it. */
  lemma AnswerFreshens(s: State, id: Id)
    requires Pending(s, id) && TouchesTimelogs(s.reqs[id].verb, s.reqs[id].path)
    ensures Fresh(Next(s, Answer(id)), |s.reqs|)
  {
  }

  lemma BarrierOrigin(s: State, a: Step, o: Id)
    requires o < |Next(s, a).reqs| && Next(s, a).reqs[o].barrier.Some?
    ensures o < |s.reqs| && s.reqs[o].verb == Next(s, a).reqs[o].verb && s.reqs[o].path == Next(s, a).reqs[o].path
    ensures if a == Answer(o) && Pending(s, o) then Next(s, a).reqs[o].barrier == Some(|s.reqs|)
            else s.reqs[o].barrier == Next(s, a).reqs[o].barrier
  {
  }

  lemma KeepsFresh(s: State, a: Step)
    requires FreshInv(s)
    ensures FreshInv(Next(s, a))
  {
    var t := Next(s, a);
    EntriesNotRevived(s, a);
    NextGrows(s, a);
    forall o | 0 <= o < |t.reqs| && t.reqs[o].barrier.Some? && TouchesTimelogs(t.reqs[o].verb, t.reqs[o].path)
      ensures Fresh(t, t.reqs[o].barrier.value)
    {
      BarrierOrigin(s, a, o);
      if a == Answer(o) && Pending(s, o) {
        AnswerFreshens(s, o);
      } else {
        FrameFresh(s, t, s.reqs[o].barrier.value);
      }
    }
  }

  lemma NextKeepsInv(s: State, a: Step)
    requires Inv(s)
    ensures Inv(Next(s, a))
  {
    KeepsMap(s, a);
    KeepsRequests(s, a);
    KeepsCallers(s, a);
    KeepsFresh(s, a);
  }

  /** All of it holds after every run. */
  lemma {:induction false} RunKeepsInv(user: string, steps: seq<Step>)
    ensures Inv(Run(Init(user), steps))
  {
    if steps != [] {
      RunKeepsInv(user, steps[..|steps| - 1]);
      NextKeepsInv(Run(Init(user), steps[..|steps| - 1]), steps[|steps| - 1]);
    }
  }

  // ---- what follows for every run

  predicate Reachable(s: State, user: string, steps: seq<Step>) { s == Run(Init(user), steps) }

  /** Shared requests: a map entry is the newest request of its key, and of two requests of one key that are both
      still to be finalised the older was dropped by an eviction. */
  lemma SingleFlightPerKey(s: State, user: string, steps: seq<Step>, i: Id, j: Id)
    requires Reachable(s, user, steps) && i < j < |s.reqs|
    requires s.reqs[i].key.Some? && s.reqs[j].key == s.reqs[i].key
    ensures s.reqs[i].key.value in s.inflight ==> s.inflight[s.reqs[i].key.value] != i
    ensures !s.reqs[i].finalised && !s.reqs[j].finalised ==> i in s.evicted
  {
    RunKeepsInv(user, steps);
  }

  /** Only evictions evict: clearing the map, clearing a path, and handling a timelog write's response. */
  lemma OnlyEvictionsEvict(s: State, a: Step)
    requires Next(s, a).evicted != s.evicted
    ensures a.ClearAll? || a.ClearForPath?
         || (a.Answer? && a.id < |s.reqs| && s.reqs[a.id].verb !in {"GET", "HEAD"}
             && (Includes(s.reqs[a.id].path, "/timelogs") || "/timer/" <= s.reqs[a.id].path))
  {
  }

  /** A timelog or timer write's response drops exactly the shared reads whose key includes /timelogs; any other
      response leaves the map as it was. */
  lemma AnswerDropsExactly(s: State, id: Id)
    requires Pending(s, id)
    ensures var r, t := s.reqs[id], Next(s, Answer(id));
            var write := r.verb !in {"GET", "HEAD"} && (Includes(r.path, "/timelogs") || "/timer/" <= r.path);
            && (!write ==> t.inflight == s.inflight && t.evicted == s.evicted)
            && (write ==>
                  (forall k :: k in t.inflight <==> k in s.inflight && !Includes(k, "/timelogs"))
                  && (forall k :: k in t.inflight ==> t.inflight[k] == s.inflight[k]))
  {
  }

  /** Clearing a path drops exactly the keys that include a fragment that is not empty. */
  lemma ClearDropsExactly(s: State, fragment: string)
    ensures var t := Next(s, ClearForPath(fragment));
            (forall k :: k in t.inflight <==> k in s.inflight && (fragment == "" || !Includes(k, fragment)))
            && (forall k :: k in t.inflight ==> t.inflight[k] == s.inflight[k])
    ensures Next(s, ClearAll).inflight == map[]
  {
  }

  /** A settled request's finally removes its own entry and no other. */
  lemma FinallyRemovesOnlyItself(s: State, user: string, steps: seq<Step>, id: Id)
    requires Reachable(s, user, steps) && id < |s.reqs| && s.reqs[id].outcome.Some? && s.reqs[id].key.Some?
    ensures var t := Next(s, Finally(id));
            forall k :: k in t.inflight <==> k in s.inflight && s.inflight[k] != id
    ensures var t := Next(s, Finally(id));
            forall k :: k in t.inflight ==> t.inflight[k] == s.inflight[k]
  {
    RunKeepsInv(user, steps);
  }

  /** From the moment a timelog write's response is handled, and whatever happens next, no timelog read
      joins a request issued before that moment. */
  lemma {:induction false} NeverJoinsOlder(s: State, id: Id, steps: seq<Step>,
                                          path: string, option: string, signal: Option<nat>)
    requires Pending(s, id) && s.reqs[id].verb !in {"GET", "HEAD"}
    requires Includes(s.reqs[id].path, "/timelogs") || "/timer/" <= s.reqs[id].path
    requires Includes(path, "/timelogs")
    ensures var t := Run(Next(s, Answer(id)), steps);
            CallStep(t, "GET", path, option, false, signal).callers[|t.callers|].req >= |s.reqs|
  {
    AnswerFreshens(s, id);
    RunKeepsFresh(Next(s, Answer(id)), steps, |s.reqs|);
    var t := Run(Next(s, Answer(id)), steps);
    KeyIncludesPath(Identity(t), "GET", path, Workspace(t, option), TIMELOGS);
  }

  lemma {:induction false} RunKeepsFresh(s: State, steps: seq<Step>, bound: nat)
    requires Fresh(s, bound)
    ensures Fresh(Run(s, steps), bound)
  {
    if steps != [] {
      var t := Run(s, steps[..|steps| - 1]);
      RunKeepsFresh(s, steps[..|steps| - 1], bound);
      EntriesNotRevived(t, steps[|steps| - 1]);
      FrameFresh(t, Next(t, steps[|steps| - 1]), bound);
    }
  }

  /** Read your writes: once a timelog write has resolved, a timelog read is served by a request issued
      after the write's response was handled. */
  lemma ReadYourWrites(s: State, user: string, steps: seq<Step>, m: Id,
                       path: string, option: string, signal: Option<nat>)
    requires Reachable(s, user, steps)
    requires m < |s.reqs| && s.reqs[m].verb !in {"GET", "HEAD"}
    requires Includes(s.reqs[m].path, "/timelogs") || "/timer/" <= s.reqs[m].path
    requires s.reqs[m].outcome.Some? && s.reqs[m].outcome.value.Ok?
    requires Includes(path, "/timelogs")
    ensures var o := s.reqs[m].outcome.value.origin;
            o < |s.reqs| && s.reqs[o].barrier.Some? && m < s.reqs[o].barrier.value
            && CallStep(s, "GET", path, option, false, signal).callers[|s.callers|].req >= s.reqs[o].barrier.value
  {
    RunKeepsInv(user, steps);
    assert RequestOk(s, m);
    var o := s.reqs[m].outcome.value.origin;
    assert RequestOk(s, o);
    KeyIncludesPath(Identity(s), "GET", path, Workspace(s, option), TIMELOGS);
  }

  // ---- whose response a caller gets

  /** Ids as they are: no colon in a user or workspace id. */
  predicate Labelled(a: Step) {
    (a.Call? ==> ColonFree(a.option)) && (a.SwitchUser? ==> ColonFree(a.newUser))
    && (a.StoreToken? ==> ColonFreeToken(a.stored))
  }

  predicate ColonFreeToken(token: Token) { ColonFree(OwnerOf(token)) && ColonFree(ClaimOf(token)) }

  predicate Matches(c: Caller, r: Request) {
    c.user == r.user && c.verb == r.verb && c.path == r.path && c.ws == r.ws
  }

  predicate Member(r: Request) { ColonFree(r.user) && ColonFree(r.ws) && ColonFree(r.option) }

  /** Every caller waits on a request for its own user, method, path and workspace. */
  ghost predicate Matched(s: State) {
    && ColonFree(s.user) && ColonFreeToken(s.token)
    && (forall id :: 0 <= id < |s.reqs| ==> Member(s.reqs[id]))
    && forall i :: 0 <= i < |s.callers| ==>
         s.callers[i].req < |s.reqs| && Matches(s.callers[i], s.reqs[s.callers[i].req])
  }

  lemma JoinMatches(s: State, a: Step)
    requires Inv(s) && Matched(s) && Labelled(a) && a.Call?
    ensures var t := Next(s, a);
            var c := t.callers[|s.callers|];
            c.req < |t.reqs| && Matches(c, t.reqs[c.req])
  {
    var key := DedupeKey(s, a.verb, a.path, a.option, a.hasBody);
    if key.Some? && key.value in s.inflight {
      var r := s.reqs[s.inflight[key.value]];
      assert RequestOk(s, s.inflight[key.value]) && Member(r);
      assert ColonFree("GET");
      KeyInjective(Identity(s), a.verb, a.path, Workspace(s, a.option), r.user, r.verb, r.path, r.ws);
    }
  }

  lemma NextMatched(s: State, a: Step)
    requires Inv(s) && Matched(s) && Labelled(a)
    ensures Matched(Next(s, a))
  {
    var t := Next(s, a);
    NextGrows(s, a);
    UserLabelled(s, a);
    forall id | 0 <= id < |t.reqs| ensures Member(t.reqs[id]) {
      if id < |s.reqs| {
        MemberStays(s.reqs[id], t.reqs[id]);
      } else {
        NewMember(s, a, id);
      }
    }
    forall i | 0 <= i < |t.callers|
      ensures t.callers[i].req < |t.reqs| && Matches(t.callers[i], t.reqs[t.callers[i].req])
    {
      if i < |s.callers| {
        CallerStays(s, a, i);
        MatchStays(s.callers[i], t.callers[i], s.reqs[s.callers[i].req], t.reqs[s.callers[i].req]);
      } else {
        NewCaller(s, a, i);
        JoinMatches(s, a);
      }
    }
  }

  lemma UserLabelled(s: State, a: Step)
    requires ColonFree(s.user) && ColonFreeToken(s.token) && Labelled(a)
    ensures ColonFree(Next(s, a).user) && ColonFreeToken(Next(s, a).token)
  {
  }

  lemma MemberStays(r: Request, r': Request)
    requires Refines(r, r') && Member(r)
    ensures Member(r')
  {
  }

  lemma NewMember(s: State, a: Step, id: Id)
    requires Matched(s) && Labelled(a) && |s.reqs| <= id < |Next(s, a).reqs|
    ensures Member(Next(s, a).reqs[id])
  {
    if a.Retry? {
      assert Member(s.reqs[a.id]);
    }
  }

  lemma MatchStays(c: Caller, c': Caller, r: Request, r': Request)
    requires Matches(c, r) && c' == c.(status := c'.status) && Refines(r, r')
    ensures Matches(c', r')
  {
  }

  lemma NewCaller(s: State, a: Step, i: nat)
    requires |s.callers| <= i < |Next(s, a).callers|
    ensures a.Call? && i == |s.callers|
  {
  }

  /** Of a caller only the status changes. */
  lemma CallerStays(s: State, a: Step, i: nat)
    requires i < |s.callers|
    ensures i < |Next(s, a).callers|
    ensures Next(s, a).callers[i] == s.callers[i].(status := Next(s, a).callers[i].status)
  {
  }

  lemma {:induction false} RunMatched(user: string, steps: seq<Step>)
    requires ColonFree(user) && forall a :: a in steps ==> Labelled(a)
    ensures Matched(Run(Init(user), steps))
  {
    if steps != [] {
      RunMatched(user, steps[..|steps| - 1]);
      RunKeepsInv(user, steps[..|steps| - 1]);
      NextMatched(Run(Init(user), steps[..|steps| - 1]), steps[|steps| - 1]);
    }
  }

  /** The owner as whom a step sends a request. */
  function Sender(s: State, a: Step, id: Id): Option<string> {
    if a.Send? then if a.id == id && Open(s, id) && s.reqs[id].sentAs.None? then Some(a.owner) else None
    else if (a.Call? || a.Retry?) && id == |s.reqs| < |Next(s, a).reqs| then SenderOf(s.token)
    else None
  }

  /** The state before a step of a run. */
  function Before(user: string, steps: seq<Step>, p: nat): State
    requires p <= |steps|
  {
    Run(Init(user), steps[..p])
  }

  predicate IssuedAt(user: string, steps: seq<Step>, p: nat, id: Id) {
    p < |steps| && |Before(user, steps, p).reqs| == id < |Before(user, steps, p + 1).reqs|
  }

  predicate SentAt(user: string, steps: seq<Step>, q: nat, id: Id) {
    q < |steps| && Sender(Before(user, steps, q), steps[q], id).Some?
  }

  lemma BeforeNext(user: string, steps: seq<Step>, p: nat)
    requires p < |steps|
    ensures Before(user, steps, p + 1) == Next(Before(user, steps, p), steps[p])
  {
    assert steps[..p + 1][..p] == steps[..p];
  }

  lemma BeforePrefix(user: string, steps: seq<Step>, k: nat, p: nat)
    requires p <= k <= |steps|
    ensures Before(user, steps[..k], p) == Before(user, steps, p)
  {
    assert steps[..k][..p] == steps[..p];
  }

  lemma OneAtATime(s: State, a: Step, id: Id)
    requires |s.reqs| <= id < |Next(s, a).reqs|
    ensures id == |s.reqs| && (a.Call? || a.Retry?)
    ensures var r := Next(s, a).reqs[id];
            r.user == Identity(s) && r.ws == Workspace(s, r.option) && r.sentAs == Sender(s, a, id)
  {
  }

  /** Every request of a run was issued at one step, for the user and the workspace of that moment. */
  lemma {:induction false} Issue(user: string, steps: seq<Step>, id: Id) returns (p: nat)
    requires id < |Run(Init(user), steps).reqs|
    ensures IssuedAt(user, steps, p, id)
    ensures var r, b := Run(Init(user), steps).reqs[id], Before(user, steps, p);
            r.user == Identity(b) && r.ws == Workspace(b, r.option)
  {
    var k := |steps| - 1;
    var s := Run(Init(user), steps[..k]);
    NextGrows(s, steps[k]);
    BeforeNext(user, steps, k);
    assert steps[..k + 1] == steps;
    if id < |s.reqs| {
      p := Issue(user, steps[..k], id);
      BeforePrefix(user, steps, k, p);
      BeforePrefix(user, steps, k, p + 1);
    } else {
      p := k;
      OneAtATime(s, steps[k], id);
    }
  }

  lemma SentStays(s: State, a: Step, id: Id)
    requires id < |Next(s, a).reqs|
    ensures Next(s, a).reqs[id].sentAs
         == if id < |s.reqs| && s.reqs[id].sentAs.Some? then s.reqs[id].sentAs else Sender(s, a, id)
  {
    if id >= |s.reqs| {
      OneAtATime(s, a, id);
    }
  }

  /** A sent request was sent at one step, as that step's sender. */
  lemma {:induction false} Sending(user: string, steps: seq<Step>, id: Id) returns (q: nat)
    requires id < |Run(Init(user), steps).reqs| && Run(Init(user), steps).reqs[id].sentAs.Some?
    ensures SentAt(user, steps, q, id)
    ensures Run(Init(user), steps).reqs[id].sentAs == Sender(Before(user, steps, q), steps[q], id)
  {
    var k := |steps| - 1;
    var s := Run(Init(user), steps[..k]);
    SentStays(s, steps[k], id);
    if id < |s.reqs| && s.reqs[id].sentAs.Some? {
      q := Sending(user, steps[..k], id);
      BeforePrefix(user, steps, k, q);
    } else {
      q := k;
    }
  }

  lemma {:induction false} ReqsGrow(user: string, steps: seq<Step>, p: nat, q: nat)
    requires p <= q <= |steps|
    ensures |Before(user, steps, p).reqs| <= |Before(user, steps, q).reqs|
    decreases q - p
  {
    if p < q {
      ReqsGrow(user, steps, p, q - 1);
      BeforeNext(user, steps, q - 1);
      NextGrows(Before(user, steps, q - 1), steps[q - 1]);
    }
  }

  /** A request and its retry are sent no earlier than the request is issued. */
  lemma IssuedFirst(user: string, steps: seq<Step>, p: nat, q: nat, id: Id, origin: Id)
    requires IssuedAt(user, steps, p, id) && SentAt(user, steps, q, origin) && id <= origin
    ensures p <= q
  {
    BeforeNext(user, steps, q);
    SenderKnows(Before(user, steps, q), steps[q], origin);
    if q < p {
      ReqsGrow(user, steps, q + 1, p);
    }
  }

  lemma SenderKnows(s: State, a: Step, id: Id)
    requires Sender(s, a, id).Some?
    ensures id < |Next(s, a).reqs|
  {
  }

  /** The response was asked for with the token of the caller's own user. */
  predicate ForOwnUser(s: State, c: Caller, origin: Id) { origin < |s.reqs| && s.reqs[origin].sentAs == Some(c.user) }

  /** A response, in every run: it is for the caller's method and path, from the request it joined or that
      request's retry; for its workspace unless a retry was made in another; and for its user exactly when
      it was sent as the user who was signed in when the request was issued. */
  lemma NoCrossTalk(s: State, user: string, steps: seq<Step>, i: nat) returns (p: nat, q: nat)
    requires Reachable(s, user, steps) && ColonFree(user) && forall a :: a in steps ==> Labelled(a)
    requires i < |s.callers| && s.callers[i].status.Resolved? && s.callers[i].status.outcome.Ok?
    ensures var c, o := s.callers[i], s.callers[i].status.outcome.origin;
            && c.req < |s.reqs| && o < |s.reqs| && s.reqs[o].verb == c.verb && s.reqs[o].path == c.path
            && (o == c.req || s.reqs[c.req].child == Some(o))
            && (o == c.req ==> s.reqs[o].ws == c.ws)
            && IssuedAt(user, steps, p, c.req) && SentAt(user, steps, q, o) && p <= q
            && (ForOwnUser(s, c, o)
                <==> Sender(Before(user, steps, q), steps[q], o).value == Identity(Before(user, steps, p)))
  {
    RunKeepsInv(user, steps);
    RunMatched(user, steps);
    var c, o := s.callers[i], s.callers[i].status.outcome.origin;
    assert CallerOk(s, c) && RequestOk(s, c.req) && Matches(c, s.reqs[c.req]);
    assert RequestOk(s, o);
    p := Issue(user, steps, c.req);
    q := Sending(user, steps, o);
    IssuedFirst(user, steps, p, q, c.req, o);
  }

  lemma ChildOf(s: State, a: Step, id: Id)
    requires id < |Next(s, a).reqs| && Next(s, a).reqs[id].child.Some?
    ensures id < |s.reqs| && Next(s, a).reqs[id].option == s.reqs[id].option
    ensures if s.reqs[id].child.Some? then Next(s, a).reqs[id].child == s.reqs[id].child
            else a == Retry(id) && Next(s, a).reqs[id].child == Some(|s.reqs|) && |Next(s, a).reqs| == |s.reqs| + 1
                 && Next(s, a).reqs[|s.reqs|].ws == Workspace(s, s.reqs[id].option)
  {
  }

  predicate RetriedAt(user: string, steps: seq<Step>, r: nat, id: Id) {
    r < |steps| && steps[r] == Retry(id) && id < |Before(user, steps, r).reqs|
  }

  /** A retry was made at one step, in the workspace that the option resolved to then. */
  lemma {:induction false} Retrying(user: string, steps: seq<Step>, id: Id) returns (r: nat)
    requires id < |Run(Init(user), steps).reqs| && Run(Init(user), steps).reqs[id].child.Some?
    ensures RetriedAt(user, steps, r, id)
    ensures var s := Run(Init(user), steps);
            s.reqs[id].child.value < |s.reqs|
            && s.reqs[s.reqs[id].child.value].ws == Workspace(Before(user, steps, r), s.reqs[id].option)
  {
    var k := |steps| - 1;
    var s := Run(Init(user), steps[..k]);
    ChildOf(s, steps[k], id);
    if s.reqs[id].child.Some? {
      r := Retrying(user, steps[..k], id);
      BeforePrefix(user, steps, k, r);
      NextLonger(s, steps[k]);
      NextRefines(s, steps[k], s.reqs[id].child.value);
    } else {
      r := k;
    }
  }

  /** Two claims resolve an option alike: they are equal, or one is absent and the other is what the option names. */
  predicate ResolveAlike(a: string, b: string, option: string) {
    a == b || (a == "" && b == Text.Trim(option)) || (b == "" && a == Text.Trim(option))
  }

  lemma ResolveAlikeExactly(a: string, b: string, option: string)
    ensures ResolveWorkspace(a, option) == ResolveWorkspace(b, option) <==> ResolveAlike(a, b, option)
  {
  }

  predicate KeepsClaim(a: Step, claim: string) { a.StoreToken? ==> ClaimOf(a.stored) == claim }

  lemma ClaimKept(s: State, a: Step, claim: string)
    requires KeepsClaim(a, claim) && ClaimOf(s.token) == claim
    ensures ClaimOf(Next(s, a).token) == claim
  {
  }

  lemma {:induction false} ClaimStays(user: string, steps: seq<Step>, p: nat, q: nat, claim: string)
    requires p <= q <= |steps| && ClaimOf(Before(user, steps, p).token) == claim
    requires forall k :: p <= k < q ==> KeepsClaim(steps[k], claim)
    ensures ClaimOf(Before(user, steps, q).token) == claim
    decreases q - p
  {
    if p < q {
      ClaimStays(user, steps, p, q - 1, claim);
      BeforeNext(user, steps, q - 1);
      ClaimKept(Before(user, steps, q - 1), steps[q - 1], claim);
    }
  }

  lemma RetriedAfter(user: string, steps: seq<Step>, p: nat, r: nat, id: Id)
    requires IssuedAt(user, steps, p, id) && RetriedAt(user, steps, r, id)
    ensures p < r
  {
    if r <= p {
      ReqsGrow(user, steps, r, p);
    }
  }

  /** A retried response, in every run, is for the caller's workspace exactly when the token's claim at the retry
      resolves the request's workspace option as the claim at the call did: so whenever every token stored between
      the two claims the same workspace. */
  lemma RetriedWorkspaceExactly(s: State, user: string, steps: seq<Step>, i: nat) returns (p: nat, r: nat)
    requires Reachable(s, user, steps) && ColonFree(user) && forall a :: a in steps ==> Labelled(a)
    requires i < |s.callers| && s.callers[i].status.Resolved? && s.callers[i].status.outcome.Ok?
    requires s.callers[i].req < |s.reqs| && s.reqs[s.callers[i].req].child.Some?
    ensures IssuedAt(user, steps, p, s.callers[i].req) && RetriedAt(user, steps, r, s.callers[i].req) && p < r
    ensures var c, o := s.callers[i], s.callers[i].status.outcome.origin;
            var called, retried := ClaimOf(Before(user, steps, p).token), ClaimOf(Before(user, steps, r).token);
            && o < |s.reqs|
            && (s.reqs[o].ws == c.ws <==> ResolveAlike(called, retried, s.reqs[c.req].option))
            && ((forall k :: p <= k < r ==> KeepsClaim(steps[k], called)) ==> s.reqs[o].ws == c.ws)
  {
    RunKeepsInv(user, steps);
    RunMatched(user, steps);
    var c := s.callers[i];
    assert CallerOk(s, c) && RequestOk(s, c.req) && Matches(c, s.reqs[c.req]);
    p := Issue(user, steps, c.req);
    r := Retrying(user, steps, c.req);
    RetriedAfter(user, steps, p, r, c.req);
    var called, retried := ClaimOf(Before(user, steps, p).token), ClaimOf(Before(user, steps, r).token);
    ResolveAlikeExactly(called, retried, s.reqs[c.req].option);
    if forall k :: p <= k < r ==> KeepsClaim(steps[k], called) {
      ClaimStays(user, steps, p, r, called);
    }
  }

  /** A step sends, if it sends at all, as the user that requests are keyed by. */
  predicate SendsAsSignedIn(s: State, a: Step) {
    (a.Send? ==> a.owner == Identity(s))
    && ((a.Call? || a.Retry?) && SenderOf(s.token).Some? ==> SenderOf(s.token).value == Identity(s))
  }

  lemma {:induction false} UserStays(user: string, steps: seq<Step>, p: nat, q: nat)
    requires p <= q <= |steps| && forall k :: p <= k < q ==> !steps[k].SwitchUser?
    ensures Before(user, steps, q).user == Before(user, steps, p).user
    decreases q - p
  {
    if p < q {
      UserStays(user, steps, p, q - 1);
      BeforeNext(user, steps, q - 1);
    }
  }

  /** Wherever tokens are those of the user signed in: a caller's response is its own exactly when the user
      at the send is the user at the call, so always when a session was there and nobody else signed in between. */
  lemma {:induction false} OwnWhenUserStays(s: State, user: string, steps: seq<Step>, i: nat) returns (p: nat, q: nat)
    requires Reachable(s, user, steps) && ColonFree(user) && forall a :: a in steps ==> Labelled(a)
    requires forall k :: 0 <= k < |steps| ==> SendsAsSignedIn(Before(user, steps, k), steps[k])
    requires i < |s.callers| && s.callers[i].status.Resolved? && s.callers[i].status.outcome.Ok?
    ensures var c, o := s.callers[i], s.callers[i].status.outcome.origin;
            && IssuedAt(user, steps, p, c.req) && SentAt(user, steps, q, o) && p <= q
            && (ForOwnUser(s, c, o) <==> Identity(Before(user, steps, q)) == Identity(Before(user, steps, p)))
            && (Before(user, steps, p).user != "" && (forall k :: p <= k < q ==> !steps[k].SwitchUser?) ==>
                  ForOwnUser(s, c, o))
  {
    p, q := NoCrossTalk(s, user, steps, i);
    assert SendsAsSignedIn(Before(user, steps, q), steps[q]);
    if forall k :: p <= k < q ==> !steps[k].SwitchUser? {
      UserStays(user, steps, p, q);
    }
  }

  /** Aborting a signal settles no request and touches no caller but those that passed it. */
  lemma AbortRejectsOnlyItsCallers(s: State, signal: nat, i: nat)
    requires i < |s.callers| && s.callers[i].guard != Some(signal)
    ensures Next(s, Abort(signal)).callers[i] == s.callers[i]
    ensures Next(s, Abort(signal)).reqs == s.reqs
  {
  }

  /** A caller of a shared request sees the fetch aborted only if the request was retried after a 401 and its
      creator's signal aborted. */
  lemma SharedAbortNeedsRetry(s: State, user: string, steps: seq<Step>, i: nat)
    requires Reachable(s, user, steps) && i < |s.callers|
    requires s.callers[i].req < |s.reqs| && s.reqs[s.callers[i].req].key.Some?
    requires s.callers[i].status == Resolved(Aborted)
    ensures var r := s.reqs[s.callers[i].req];
            r.child.Some? && r.callerSignal.Some? && r.callerSignal.value in s.aborted
    ensures exists a :: a in steps && a.Retry?
  {
    RunKeepsInv(user, steps);
    assert CallerOk(s, s.callers[i]) && RequestOk(s, s.callers[i].req);
    if forall a :: a in steps ==> !a.Retry? {
      NoRetryNoChild(user, steps);
    }
  }

  lemma {:induction false} NoRetryNoChild(user: string, steps: seq<Step>)
    requires forall a :: a in steps ==> !a.Retry?
    ensures NoChild(Run(Init(user), steps))
  {
    if steps != [] {
      var k := |steps| - 1;
      NoRetryNoChild(user, steps[..k]);
      assert steps[k] in steps;
      OtherStepsKeepNoChild(Run(Init(user), steps[..k]), steps[k]);
    }
  }

  predicate NoChild(s: State) { forall id | 0 <= id < |s.reqs| :: s.reqs[id].child.None? }

  lemma OtherStepsKeepNoChild(s: State, a: Step)
    requires NoChild(s) && !a.Retry?
    ensures NoChild(Next(s, a))
  {
  }

  // ---- what can go wrong, from any state and on a run

  lemma {:induction false} Extend(s: State, steps: seq<Step>, a: Step, longer: seq<Step>)
    requires longer == steps + [a]
    ensures Run(s, longer) == Next(Run(s, steps), a)
  {
    assert longer[..|longer| - 1] == steps;
  }

  function After(s: State, a: Step, b: Step, c: Step, d: Step): State { Next(Next(Next(Next(s, a), b), c), d) }

  lemma {:induction false} Four(s: State, a: Step, b: Step, c: Step, d: Step)
    ensures Run(s, [a, b, c, d]) == After(s, a, b, c, d)
  {
    Extend(s, [], a, [a]);
    Extend(s, [a], b, [a, b]);
    Extend(s, [a, b], c, [a, b, c]);
    Extend(s, [a, b, c], d, [a, b, c, d]);
  }

  lemma {:induction false} Seven(s: State, a: Step, b: Step, c: Step, d: Step, e: Step, f: Step, g: Step)
    ensures Run(s, [a, b, c, d, e, f, g]) == Next(Next(Next(After(s, a, b, c, d), e), f), g)
  {
    Four(s, a, b, c, d);
    Extend(s, [a, b, c, d], e, [a, b, c, d, e]);
    Extend(s, [a, b, c, d, e], f, [a, b, c, d, e, f]);
    Extend(s, [a, b, c, d, e, f], g, [a, b, c, d, e, f, g]);
  }

  lemma {:induction false} Eight(s: State, a: Step, b: Step, c: Step, d: Step, e: Step, f: Step, g: Step, h: Step)
    ensures Run(s, [a, b, c, d, e, f, g, h]) == After(After(s, a, b, c, d), e, f, g, h)
  {
    Seven(s, a, b, c, d, e, f, g);
    Extend(s, [a, b, c, d, e, f, g], h, [a, b, c, d, e, f, g, h]);
  }

  /** The answer to a retry is handed on to those who wait for the request. */
  lemma HandedOn(s: State, id: Id, n: Id, c: nat)
    requires Pending(s, n) && id < n && s.reqs[id].child == Some(n) && s.reqs[id].outcome.None?
    requires c < |s.callers| && s.callers[c].req == id && s.callers[c].status.Waiting?
    ensures var t := After(s, Answer(n), Settle(n, true), Adopt(id), Deliver(c));
            c < |t.callers| && t.callers[c] == s.callers[c].(status := Resolved(Ok(n)))
            && n < |t.reqs| && t.reqs[n].sentAs == s.reqs[n].sentAs && t.reqs[n].ws == s.reqs[n].ws
  {
    var s2 := Next(s, Answer(n));
    assert s2.reqs == s.reqs[n := s.reqs[n].(barrier := Some(|s.reqs|))] && s2.callers == s.callers;
    var s3 := Next(s2, Settle(n, true));
    assert s3.reqs == s2.reqs[n := s2.reqs[n].(outcome := Some(Ok(n)))] && s3.callers == s.callers;
    var s4 := Next(s3, Adopt(id));
    assert s4.reqs == s3.reqs[id := s3.reqs[id].(outcome := Some(Ok(n)))] && s4.callers == s.callers;
  }

  /** Without any retry: a request waiting for a fresh token is sent with whatever token the refresh
      brings, and every caller waiting on it is handed that user's response. */
  lemma ExpiredTokenCrossesUsers(s: State, id: Id, other: string, c: nat)
    requires Open(s, id) && s.reqs[id].sentAs.None? && s.reqs[id].barrier.None?
    requires c < |s.callers| && s.callers[c].req == id && s.callers[c].status.Waiting?
    ensures var t := After(s, Send(id, other), Answer(id), Settle(id, true), Deliver(c));
            c < |t.callers| && t.callers[c] == s.callers[c].(status := Resolved(Ok(id)))
            && id < |t.reqs| && t.reqs[id].sentAs == Some(other) && t.reqs[id].child.None?
  {
    var s1 := Next(s, Send(id, other));
    assert s1.reqs[id] == s.reqs[id].(sentAs := Some(other)) && s1.callers == s.callers;
    var s2 := Next(s1, Answer(id));
    assert s2.reqs[id] == s1.reqs[id].(barrier := Some(|s1.reqs|)) && s2.callers == s.callers;
    var s3 := Next(s2, Settle(id, true));
    assert s3.reqs[id] == s2.reqs[id].(outcome := Some(Ok(id))) && s3.callers == s.callers;
  }

  /** A run: the token has expired, another user signs in while it is refreshed, and the first user's read is
      answered for the second. */
  lemma {:induction false} ExpiredTokenRun(user: string, other: string, path: string)
    requires user != other && user != ""
    ensures var steps := [StoreToken(Token(user, "", true)), Call("GET", path, "", false, None), SwitchUser(other),
                          Send(0, other), Answer(0), Settle(0, true), Deliver(0)];
            var t := Run(Init(user), steps);
            |t.callers| > 0 && t.callers[0].user == user && t.callers[0].status == Resolved(Ok(0))
            && |t.reqs| > 0 && t.reqs[0].sentAs == Some(other)
  {
    var a, b, c := StoreToken(Token(user, "", true)), Call("GET", path, "", false, None), SwitchUser(other);
    Seven(Init(user), a, b, c, Send(0, other), Answer(0), Settle(0, true), Deliver(0));
    var s := FirstRead(user, Token(user, "", true), path);
    ExpiredTokenCrossesUsers(Next(s, c), 0, other, 0);
  }

  /** The first read of a run, with a token stored. */
  lemma FirstRead(user: string, token: Token, path: string) returns (s: State)
    requires user != "" && token.Token?
    ensures s == Next(Next(Init(user), StoreToken(token)), Call("GET", path, "", false, None))
    ensures |s.reqs| == 1 && Open(s, 0) && s.reqs[0].barrier.None? && !s.reqs[0].isRetry
    ensures s.reqs[0].sentAs == SenderOf(token)
    ensures s.callers == [Caller(0, user, "GET", path, token.claim, None, Waiting)]
  {
    s := Next(Next(Init(user), StoreToken(token)), Call("GET", path, "", false, None));
  }

  /** After a 401 retry the creator's abort reaches every caller: whenever a shared request is retried
      and its creator's signal then aborts, a caller that passed no signal can see an abort. */
  lemma RetriedAbortSpreads(s: State, id: Id, signal: nat, c: nat)
    requires Pending(s, id) && !s.reqs[id].isRetry && SenderOf(s.token).Some?
    requires s.reqs[id].callerSignal == Some(signal)
    requires c < |s.callers| && s.callers[c].req == id && s.callers[c].status.Waiting? && s.callers[c].guard.None?
    ensures var n := |s.reqs|;
            var t := Next(After(s, Retry(id), Abort(signal), FetchAborted(n), Adopt(id)), Deliver(c));
            c < |t.callers| && t.callers[c].status == Resolved(Aborted)
  {
    var n := |s.reqs|;
    var s0 := Next(s, Retry(id));
    assert s0.reqs[n].FetchSignal() == Some(signal) && s0.reqs[n].sentAs.Some? && s0.callers == s.callers;
    var s1 := Next(s0, Abort(signal));
    assert s1.reqs == s0.reqs && signal in s1.aborted && s1.callers[c] == s.callers[c];
    RetriedAbortExactly(s1, id, n, c);
  }

  /** A run: two callers share a read, the first with a signal; the read is retried and the first aborts. */
  lemma {:induction false} RetriedAbortRun(user: string, path: string)
    ensures var steps := [Call("GET", path, "", false, Some(0)), Call("GET", path, "", false, None),
                          Retry(0), Abort(0), FetchAborted(1), Adopt(0), Deliver(1)];
            var t := Run(Init(user), steps);
            |t.callers| > 1 && t.callers[1].status == Resolved(Aborted)
  {
    var a, b := Call("GET", path, "", false, Some(0)), Call("GET", path, "", false, None);
    Seven(Init(user), a, b, Retry(0), Abort(0), FetchAborted(1), Adopt(0), Deliver(1));
    var s := SharedRead(user, path);
    RetriedAbortSpreads(s, 0, 0, 1);
  }

  lemma SharedRead(user: string, path: string) returns (s: State)
    ensures s == Next(Next(Init(user), Call("GET", path, "", false, Some(0))), Call("GET", path, "", false, None))
    ensures |s.reqs| == 1 && Pending(s, 0) && !s.reqs[0].isRetry && s.reqs[0].callerSignal == Some(0)
    ensures s.token == NoToken && |s.callers| == 2 && s.callers[1].req == 0 && s.callers[1].guard.None?
    ensures s.callers[1].status.Waiting?
  {
    var key := DedupeKey(Init(user), "GET", path, "", false);
    var s1 := Next(Init(user), Call("GET", path, "", false, Some(0)));
    assert s1.inflight == map[key.value := 0] && DedupeKey(s1, "GET", path, "", false) == key;
    s := Next(s1, Call("GET", path, "", false, None));
  }

  /** Exactly then: as a retry's fetch is given the chance to abort, whoever waits for the request sees an abort
      if and only if the request's creator aborted. */
  lemma RetriedAbortExactly(s: State, id: Id, n: Id, c: nat)
    requires id < n && Open(s, n) && s.reqs[n].sentAs.Some? && s.reqs[n].key.None?
    requires s.reqs[id].child == Some(n) && s.reqs[id].outcome.None?
    requires s.reqs[id].callerSignal == s.reqs[n].callerSignal
    requires c < |s.callers| && s.callers[c].req == id && s.callers[c].status.Waiting?
    ensures var t := Next(Next(Next(s, FetchAborted(n)), Adopt(id)), Deliver(c));
            var signal := s.reqs[id].callerSignal;
            c < |t.callers|
            && (t.callers[c].status == Resolved(Aborted) <==> signal.Some? && signal.value in s.aborted)
  {
    var s1 := Next(s, FetchAborted(n));
    var s2 := Next(s1, Adopt(id));
    assert s2.callers == s.callers;
    if s1 != s {
      assert s1.reqs == s.reqs[n := s.reqs[n].(outcome := Some(Aborted))];
      assert s2.reqs[id].outcome == Some(Aborted);
    }
  }

  /** A retry goes out with the token stored by then: whoever waits for the request is handed the response asked for
      by its owner, in the workspace it claims. */
  lemma RetriedResponseCrosses(s: State, id: Id, owner: string, claim: string, c: nat)
    requires Pending(s, id) && !s.reqs[id].isRetry && claim != ""
    requires c < |s.callers| && s.callers[c].req == id && s.callers[c].status.Waiting?
    ensures var n := |s.reqs|;
            var s1 := Next(Next(s, StoreToken(Token(owner, claim, false))), Retry(id));
            var t := After(s1, Answer(n), Settle(n, true), Adopt(id), Deliver(c));
            c < |t.callers| && t.callers[c] == s.callers[c].(status := Resolved(Ok(n)))
            && n < |t.reqs| && t.reqs[n].sentAs == Some(owner) && t.reqs[n].ws == claim
  {
    var n := |s.reqs|;
    var s1 := Next(Next(s, StoreToken(Token(owner, claim, false))), Retry(id));
    assert Pending(s1, n) && s1.reqs[n].sentAs == Some(owner) && s1.reqs[n].ws == claim;
    assert s1.reqs[id].child == Some(n) && s1.callers == s.callers;
    HandedOn(s1, id, n, c);
  }

  /** A run: between a read and its retry the token changes, to one of another user or for another workspace. */
  lemma {:induction false} RetriedResponseRun(user: string, ws: string, owner: string, claim: string, path: string)
    requires user != "" && ws != "" && claim != ""
    ensures var steps := [StoreToken(Token(user, ws, false)), Call("GET", path, "", false, None),
                          StoreToken(Token(owner, claim, false)), Retry(0),
                          Answer(1), Settle(1, true), Adopt(0), Deliver(0)];
            var t := Run(Init(user), steps);
            |t.callers| > 0 && t.callers[0].user == user && t.callers[0].ws == ws
            && t.callers[0].status == Resolved(Ok(1))
            && |t.reqs| > 1 && t.reqs[1].sentAs == Some(owner) && t.reqs[1].ws == claim
  {
    var a, b := StoreToken(Token(user, ws, false)), Call("GET", path, "", false, None);
    var c := StoreToken(Token(owner, claim, false));
    Eight(Init(user), a, b, c, Retry(0), Answer(1), Settle(1, true), Adopt(0), Deliver(0));
    var s := FirstRead(user, Token(user, ws, false), path);
    RetriedResponseCrosses(s, 0, owner, claim, 0);
  }
}
