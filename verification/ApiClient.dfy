/** The client as it runs: a shared mutable map of in-flight requests and the code that reads and changes
    it. Every method is proved to take one step of the protocol in SingleFlight. */
module ApiClient {
  import opened JsStrings
  import opened SingleFlight
  import Text

  /** The module-level map of in-flight GETs. */
  class InflightRequests {
    var entries: map<string, Id>

    constructor ()
      ensures entries == map[]
    {
      entries := map[];
    }

    method Clear()
      modifies this
      ensures entries == map[]
    {
      entries := map[];
    }

    /** Visits every key and deletes those that include the fragment; an empty fragment deletes nothing. */
    method ClearForPath(fragment: string)
      modifies this
      ensures entries == WithoutPath(old(entries), fragment)
      ensures entries == map k | k in old(entries) && (fragment == "" || !Includes(k, fragment)) :: old(entries)[k]
    {
      if fragment == "" {
        return;
      }
      var keys := entries.Keys;
      while keys != {}
        invariant keys <= old(entries).Keys
        invariant entries == map k | k in old(entries) && (k in keys || !Includes(k, fragment)) :: old(entries)[k]
        decreases keys
      {
        var key :| key in keys;
        keys := keys - {key};
        if Includes(key, fragment) {
          entries := entries - {key};
        }
      }
    }
  }

  class Client {
    const inflight: InflightRequests
    var user: string
    var token: Token
    var reqs: seq<Request>
    var callers: seq<Caller>
    var aborted: set<nat>
    ghost var evicted: set<Id>

    ghost function Model(): State
      reads this, inflight
    {
      State(user, token, inflight.entries, reqs, callers, aborted, evicted)
    }

    constructor (user: string)
      ensures Model() == Init(user) && fresh(inflight)
    {
      this.user, token := user, NoToken;
      inflight := new InflightRequests();
      reqs, callers, aborted, evicted := [], [], {}, {};
    }

    /** The session's user, or else the token's. */
    function ResolveAuthUserId(): (r: string)
      reads this, inflight
      ensures r == Identity(Model())
    {
      if user != "" then user else OwnerOf(token)
    }

    /** The token's claim, or else the trimmed option. */
    function ResolveApiWorkspaceId(option: string): (r: string)
      reads this, inflight
      ensures r == Workspace(Model(), option)
    {
      if token.Token? && token.claim != "" then token.claim else Text.Trim(option)
    }

    method Subscribe(id: Id, verb: string, path: string, ws: string, guard: Option<nat>)
      modifies this`callers
      ensures callers == old(callers)
                         + [Caller(id, Identity(old(Model())), verb, path, ws, guard, StatusAtCall(Model(), guard))]
    {
      var rejected := guard.Some? && guard.value in aborted;
      var caller := ResolveAuthUserId();
      callers := callers + [Caller(id, caller, verb, path, ws, guard, if rejected then SelfAborted else Waiting)];
    }

    /** executeApiRequest() as far as it runs at once: to its fetch, or to the refresh of an expired token. */
    method Issue(verb: string, path: string, option: string, key: Option<string>, signal: Option<nat>, isRetry: bool)
      returns (id: Id)
      modifies this`reqs
      ensures id == |old(reqs)|
      ensures reqs == old(reqs) + [NewRequest(old(Model()), verb, path, option, key, signal, isRetry)]
    {
      id := |reqs|;
      var caller, ws := ResolveAuthUserId(), ResolveApiWorkspaceId(option);
      reqs := reqs + [Request(caller, verb, path, option, ws, key, signal, isRetry, None, None, None, None, false)];
      if token.NoToken? {
        reqs := reqs[id := reqs[id].(sentAs := Some(""))];
      } else if !token.expired {
        reqs := reqs[id := reqs[id].(sentAs := Some(token.owner))];
      }
    }

    /** The rest of it up to the fetch, once the refresh has brought a token. */
    method AfterRefresh(id: Id, refreshed: Token)
      requires Open(Model(), id) && reqs[id].sentAs.None?
      modifies this`reqs
      ensures Model() == Next(old(Model()), Send(id, if SenderOf(refreshed).Some? then OwnerOf(refreshed) else ""))
    {
      var owner := if refreshed.Token? && !refreshed.expired then refreshed.owner else "";
      reqs := reqs[id := reqs[id].(sentAs := Some(owner))];
    }

    /** api(): look the key up; join, or issue and share. */
    method Api(verb: string, path: string, option: string, hasBody: bool, signal: Option<nat>)
      modifies this, inflight
      ensures Model() == Next(old(Model()), Call(verb, path, option, hasBody, signal))
    {
      var ws := ResolveApiWorkspaceId(option);
      var caller := ResolveAuthUserId();
      var dedupeKey := if verb == "GET" && !hasBody then Some(InflightKey(caller, verb, path, ws)) else None;
      if dedupeKey.Some? {
        if dedupeKey.value in inflight.entries {
          Subscribe(inflight.entries[dedupeKey.value], verb, path, ws, signal);
          return;
        }
      }
      var id := Issue(verb, path, option, dedupeKey, signal, false);
      if dedupeKey.Some? {
        inflight.entries := inflight.entries[dedupeKey.value := id];
        Subscribe(id, verb, path, ws, signal);
      } else {
        Subscribe(id, verb, path, ws, None);
      }
    }

    /** A 2xx response: a timelog write drops the shared timelog reads before its body is read. */
    method HandleResponse(id: Id)
      requires Pending(Model(), id)
      modifies this, inflight
      ensures Model() == Next(old(Model()), Answer(id))
    {
      reqs := reqs[id := reqs[id].(barrier := Some(|reqs|))];
      var verb, path := reqs[id].verb, reqs[id].path;
      if verb != "GET" && verb != "HEAD" {
        if Includes(path, TIMELOGS) || "/timer/" <= path {
          evicted := evicted + set k | k in inflight.entries && Drops(TIMELOGS, k) :: inflight.entries[k];
          inflight.ClearForPath(TIMELOGS);
        }
      }
    }

    /** A 401 with a refreshed token: api() again, never shared, with the creator's signal attached. */
    method RetryAfterRefresh(id: Id)
      requires Pending(Model(), id) && !reqs[id].isRetry
      modifies this`reqs
      ensures Model() == Next(old(Model()), Retry(id))
    {
      var r := reqs[id];
      var again := Issue(r.verb, r.path, r.option, None, r.callerSignal, true);
      reqs := reqs[id := r.(child := Some(again))];
    }

    /** The finally handler of a shared request. */
    method OnFinally(id: Id)
      requires id < |reqs| && reqs[id].outcome.Some? && reqs[id].key.Some? && !reqs[id].finalised
      modifies this`reqs, inflight
      ensures Model() == Next(old(Model()), Finally(id))
    {
      var key := reqs[id].key.value;
      reqs := reqs[id := reqs[id].(finalised := true)];
      if key in inflight.entries && inflight.entries[key] == id {
        inflight.entries := inflight.entries - {key};
      }
    }

    method ClearInflightGetRequests()
      modifies this`evicted, inflight
      ensures Model() == Next(old(Model()), ClearAll)
    {
      evicted := evicted + set k | k in inflight.entries :: inflight.entries[k];
      inflight.Clear();
    }

    method ClearInflightGetRequestsForPath(fragment: string)
      modifies this`evicted, inflight
      ensures Model() == Next(old(Model()), ClearForPath(fragment))
    {
      evicted := evicted + set k | k in inflight.entries && Drops(fragment, k) :: inflight.entries[k];
      inflight.ClearForPath(fragment);
    }
  }
}
