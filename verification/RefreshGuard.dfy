/** The auth refresh guard: a generation counter that marks captured refresh work stale, and bounded
    background retries, kept apart for the product and the platform scope. A timeout is a numbered
    handle; live holds those that have neither fired nor been cleared. */
module RefreshGuard {
  import opened JsStrings

  type Handle = nat

  const MAX_REFRESH_RETRIES := 3

  datatype Retries = Retries(timer: Option<Handle>, count: nat, live: set<Handle>)

  datatype Scope = Product | Platform

  datatype State = State(generation: nat, product: Retries, platform: Retries, next: Handle) {
    function Of(scope: Scope): Retries { if scope.Product? then product else platform }

    function With(scope: Scope, r: Retries): State {
      if scope.Product? then this.(product := r) else this.(platform := r)
    }
  }

  function Init(): State { State(0, Retries(None, 0, {}), Retries(None, 0, {}), 0) }

  datatype Step =
    | Invalidate
    | Reset(scope: Scope)
    | Cancel(scope: Scope)
    | Schedule(scope: Scope, hasWindow: bool)
    | Fire(scope: Scope, handle: Handle)

  function Drop(r: Retries): Retries {
    if r.timer.Some? then r.(timer := None, live := r.live - {r.timer.value}) else r
  }

  predicate Accepts(s: State, a: Step) {
    a.Schedule? && a.hasWindow && s.Of(a.scope).count < MAX_REFRESH_RETRIES
  }

  function Next(s: State, a: Step): State {
    match a
    case Invalidate => s.(generation := s.generation + 1, product := Drop(s.product).(count := 0))
    case Reset(scope) => s.With(scope, s.Of(scope).(count := 0))
    case Cancel(scope) => s.With(scope, Drop(s.Of(scope)).(count := 0))
    case Schedule(scope, hasWindow) =>
      if !Accepts(s, a) then s
      else
        var r := Drop(s.Of(scope));
        s.With(scope, Retries(Some(s.next), r.count + 1, r.live + {s.next})).(next := s.next + 1)
    case Fire(scope, handle) =>
      var r := s.Of(scope);
      if handle in r.live then s.With(scope, r.(timer := None, live := r.live - {handle})) else s
  }

  function Run(s: State, steps: seq<Step>): State {
    if steps == [] then s else Next(Run(s, steps[..|steps| - 1]), steps[|steps| - 1])
  }

  // ---- in every run

  /** At most one timeout is live, and it is the tracked one; the count stays within the bound. */
  predicate Tracked(r: Retries, next: Handle) {
    r.live == (if r.timer.Some? then {r.timer.value} else {})
    && (r.timer.Some? ==> r.timer.value < next)
    && r.count <= MAX_REFRESH_RETRIES
  }

  predicate Inv(s: State) { Tracked(s.product, s.next) && Tracked(s.platform, s.next) }

  lemma NextKeepsInv(s: State, a: Step)
    requires Inv(s)
    ensures Inv(Next(s, a))
  {
  }

  /** In every run each scope has at most one live timeout, the tracked one. */
  lemma {:induction false} RunKeepsInv(steps: seq<Step>)
    ensures Inv(Run(Init(), steps))
    ensures |Run(Init(), steps).product.live| <= 1 && |Run(Init(), steps).platform.live| <= 1
  {
    if steps != [] {
      RunKeepsInv(steps[..|steps| - 1]);
      NextKeepsInv(Run(Init(), steps[..|steps| - 1]), steps[|steps| - 1]);
    }
  }

  /** Invalidation leaves no product retry pending and none counted. */
  lemma {:induction false} InvalidationLeavesNonePending(steps: seq<Step>)
    ensures var s := Next(Run(Init(), steps), Invalidate);
            s.product.live == {} && s.product.timer.None? && s.product.count == 0
  {
    RunKeepsInv(steps);
  }

  // ---- generations

  function Invalidations(steps: seq<Step>): nat {
    if steps == [] then 0
    else Invalidations(steps[..|steps| - 1]) + if steps[|steps| - 1].Invalidate? then 1 else 0
  }

  predicate IsStale(s: State, generation: nat) { generation != s.generation }

  lemma {:induction false} GenerationCounts(s: State, steps: seq<Step>)
    ensures Run(s, steps).generation == s.generation + Invalidations(steps)
    ensures Invalidations(steps) > 0 <==> Invalidate in steps
  {
    if steps != [] {
      GenerationCounts(s, steps[..|steps| - 1]);
      assert steps == steps[..|steps| - 1] + [steps[|steps| - 1]];
    }
  }

  /** A generation captured in a state is stale later exactly when an invalidation came in between. */
  lemma {:induction false} StaleIffInvalidated(s: State, steps: seq<Step>)
    ensures IsStale(Run(s, steps), s.generation) <==> Invalidate in steps
  {
    GenerationCounts(s, steps);
  }

  // ---- bounded retries

  /** Schedule calls of a scope, in a browser. */
  function Scheduled(steps: seq<Step>, scope: Scope): nat {
    if steps == [] then 0
    else Scheduled(steps[..|steps| - 1], scope)
         + if steps[|steps| - 1] == Schedule(scope, true) then 1 else 0
  }

  /** How many of them were accepted; the others reported exhaustion. */
  function Accepted(s: State, steps: seq<Step>, scope: Scope): nat {
    if steps == [] then 0
    else
      var a := steps[|steps| - 1];
      Accepted(s, steps[..|steps| - 1], scope)
      + if a == Schedule(scope, true) && Accepts(Run(s, steps[..|steps| - 1]), a) then 1 else 0
  }

  /** Steps that set a scope's count back. */
  predicate SetsBack(a: Step, scope: Scope) {
    a == Reset(scope) || a == Cancel(scope) || (a.Invalidate? && scope.Product?)
  }

  /** Between resets, cancels and (for the product scope) invalidations, whatever else happens, exactly the first
      schedules up to the bound are accepted and every later one exhausts. */
  lemma {:induction false} RetriesBounded(s: State, steps: seq<Step>, scope: Scope)
    requires Inv(s) && forall a :: a in steps ==> !SetsBack(a, scope)
    ensures var room := MAX_REFRESH_RETRIES - s.Of(scope).count;
            Accepted(s, steps, scope) == if Scheduled(steps, scope) <= room then Scheduled(steps, scope) else room
    ensures Run(s, steps).Of(scope).count == s.Of(scope).count + Accepted(s, steps, scope)
  {
    if steps != [] {
      var k := |steps| - 1;
      RetriesBounded(s, steps[..k], scope);
      assert steps[k] in steps && !SetsBack(steps[k], scope);
      CountMoves(Run(s, steps[..k]), steps[k], scope);
    }
  }

  lemma CountMoves(s: State, a: Step, scope: Scope)
    requires !SetsBack(a, scope)
    ensures Next(s, a).Of(scope).count
         == s.Of(scope).count + if a == Schedule(scope, true) && Accepts(s, a) then 1 else 0
  {
  }

  // ---- scopes do not interfere

  predicate Touches(a: Step, scope: Scope) {
    if a.Invalidate? then scope.Product? else a.scope == scope
  }

  /** Steps of one scope leave the other scope's retry state as it is, in every run. */
  lemma {:induction false} ScopesIndependent(s: State, steps: seq<Step>, scope: Scope)
    requires forall a :: a in steps ==> !Touches(a, scope)
    ensures Run(s, steps).Of(scope) == s.Of(scope)
  {
    if steps != [] {
      ScopesIndependent(s, steps[..|steps| - 1], scope);
      assert steps[|steps| - 1] in steps;
    }
  }

  // ---- what each step leaves, in every run

  /** In a browser, and below three retries, a schedule leaves its new timeout live, alone and tracked, and counts it;
      at three, and outside a browser, it changes nothing. */
  lemma {:induction false} ScheduleExactly(steps: seq<Step>, scope: Scope, hasWindow: bool)
    ensures var s := Run(Init(), steps);
            var t, r := Next(s, Schedule(scope, hasWindow)), s.Of(scope);
            if !hasWindow || r.count >= 3 then t == s
            else
              s.next !in r.live
              && t == s.With(scope, Retries(Some(s.next), r.count + 1, {s.next})).(next := s.next + 1)
  {
    RunKeepsInv(steps);
  }

  /** A cancel leaves no timeout of the scope and none counted, and a timeout that fires leaves none live. */
  lemma {:induction false} CancelExactly(steps: seq<Step>, scope: Scope, handle: Handle)
    ensures var s := Run(Init(), steps); Next(s, Cancel(scope)) == s.With(scope, Retries(None, 0, {}))
    ensures var s := Run(Init(), steps);
            Next(s, Fire(scope, handle))
            == if handle in s.Of(scope).live then s.With(scope, Retries(None, s.Of(scope).count, {})) else s
  {
    RunKeepsInv(steps);
  }

  /** Whatever set the count back, a reset, a cancel or for the product scope an invalidation: of the schedules that
      follow, exactly the first three are accepted. */
  lemma {:induction false} SetBackGivesThree(steps: seq<Step>, a: Step, after: seq<Step>, scope: Scope)
    requires a == Reset(scope) || a == Cancel(scope) || (a == Invalidate && scope == Product)
    requires forall b :: b in after ==>
               b != Reset(scope) && b != Cancel(scope) && !(b == Invalidate && scope == Product)
    ensures Accepted(Next(Run(Init(), steps), a), after, scope)
         == if Scheduled(after, scope) <= 3 then Scheduled(after, scope) else 3
  {
    RunKeepsInv(steps);
    NextKeepsInv(Run(Init(), steps), a);
    RetriesBounded(Next(Run(Init(), steps), a), after, scope);
  }

  /** A scope's data are its own: reading one after setting one. */
  lemma ScopesApart(s: State, r: Retries)
    ensures s.With(Product, r) == s.(product := r) && s.With(Platform, r) == s.(platform := r)
    ensures s.Of(Product) == s.product && s.Of(Platform) == s.platform
  {
  }

  // ---- the module's own state

  /** One scope's retry variables and the timeouts the browser holds for them. */
  class RetryState {
    var timer: Option<Handle>
    var count: nat
    var live: set<Handle>

    ghost function Value(): Retries
      reads this
    {
      Retries(timer, count, live)
    }

    constructor ()
      ensures Value() == Retries(None, 0, {})
    {
      timer, count, live := None, 0, {};
    }

    method ClearTimeout(h: Handle)
      modifies this`live
      ensures live == old(live) - {h}
    {
      live := live - {h};
    }

    method ResetCount()
      modifies this`count
      ensures Value() == old(Value()).(count := 0)
    {
      count := 0;
    }

    method CancelRetries()
      modifies this
      ensures Value() == Drop(old(Value())).(count := 0)
    {
      if timer.Some? {
        ClearTimeout(timer.value);
        timer := None;
      }
      count := 0;
    }

    /** False when the bound is reached and the caller is told so. */
    method ScheduleRetry(handle: Handle) returns (accepted: bool)
      modifies this
      ensures accepted <==> old(count) < MAX_REFRESH_RETRIES
      ensures Value() == if !accepted then old(Value())
                         else var r := Drop(old(Value())); Retries(Some(handle), r.count + 1, r.live + {handle})
    {
      if count >= MAX_REFRESH_RETRIES {
        return false;
      }
      count := count + 1;
      if timer.Some? {
        ClearTimeout(timer.value);
        timer := None;
      }
      timer, live := Some(handle), live + {handle};
      return true;
    }

    /** The timeout's callback, before it runs the retry. */
    method OnTimeout(handle: Handle)
      requires handle in live
      modifies this
      ensures Value() == old(Value()).(timer := None, live := old(live) - {handle})
    {
      live := live - {handle};
      timer := None;
    }
  }

  class AuthRefreshGuard {
    var generation: nat
    const product: RetryState
    const platform: RetryState
    var next: Handle

    ghost function Model(): State
      reads this, product, platform
    {
      State(generation, product.Value(), platform.Value(), next)
    }

    ghost predicate Valid() { product != platform }

    constructor ()
      ensures Valid() && Model() == Init() && fresh(product) && fresh(platform)
    {
      generation, next := 0, 0;
      product := new RetryState();
      platform := new RetryState();
    }

    function IsAuthRefreshStale(captured: nat): (r: bool)
      reads this, product, platform
      ensures r == IsStale(Model(), captured)
    {
      captured != generation
    }

    method InvalidateAuthRefresh()
      requires Valid()
      modifies this`generation, product
      ensures Model() == Next(old(Model()), Invalidate)
    {
      generation := generation + 1;
      product.CancelRetries();
    }

    function RetriesOf(scope: Scope): RetryState { if scope.Product? then product else platform }

    method ResetRetryCount(scope: Scope)
      requires Valid()
      modifies RetriesOf(scope)
      ensures Model() == Next(old(Model()), Reset(scope))
    {
      RetriesOf(scope).ResetCount();
    }

    method CancelRetries(scope: Scope)
      requires Valid()
      modifies RetriesOf(scope)
      ensures Model() == Next(old(Model()), Cancel(scope))
    {
      RetriesOf(scope).CancelRetries();
    }

    method ScheduleRetry(scope: Scope, hasWindow: bool) returns (exhausted: bool)
      requires Valid()
      modifies this`next, RetriesOf(scope)
      ensures Model() == Next(old(Model()), Schedule(scope, hasWindow))
      ensures exhausted <==> hasWindow && old(Model().Of(scope).count) >= MAX_REFRESH_RETRIES
    {
      if !hasWindow {
        return false;
      }
      var accepted := RetriesOf(scope).ScheduleRetry(next);
      if accepted {
        next := next + 1;
      }
      return !accepted;
    }

    method OnTimeout(scope: Scope, handle: Handle)
      requires Valid() && handle in RetriesOf(scope).live
      modifies RetriesOf(scope)
      ensures Model() == Next(old(Model()), Fire(scope, handle))
    {
      RetriesOf(scope).OnTimeout(handle);
    }
  }
}
