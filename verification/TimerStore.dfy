/** The timer store: the active timer, its elapsed seconds and whether it is paused. A start is in
    milliseconds, None when it is missing or not a date; empty strings stand for missing ids. */
module TimerStore {
  import opened JsStrings

  datatype Timer = Timer(taskId: string, userId: string, workspaceId: string, startedAt: Option<int>,
                         paused: bool, elapsedSec: int, accumulatedSec: Option<int>)

  datatype State = State(active: Option<Timer>, elapsedSec: int, isPaused: bool)

  function Init(): State { State(None, 0, false) }

  predicate WellFormed(t: Timer) { t.taskId != "" && t.startedAt.Some? && t.userId != "" && t.workspaceId != "" }

  function NormalizeActiveTimer(t: Option<Timer>): (r: Option<Timer>)
    ensures r.Some? <==> t.Some? && WellFormed(t.value)
    ensures r.Some? ==> r == t
  {
    if t.Some? && WellFormed(t.value) then t else None
  }

  function ElapsedFromActive(active: Option<Timer>, now: int): int {
    if active.None? then 0
    else
      var t := active.value;
      if t.paused || t.startedAt.None? then t.elapsedSec
      else
        var segment := (now - t.startedAt.value) / 1000;
        (if t.accumulatedSec.Some? then t.accumulatedSec.value else 0) + if segment < 0 then 0 else segment
  }

  datatype Step = SetActive(timer: Option<Timer>, now: int) | Tick(now: int) | Clear

  function Next(s: State, a: Step): State {
    match a
    case SetActive(timer, now) =>
      var t := NormalizeActiveTimer(timer);
      State(t, ElapsedFromActive(t, now), t.Some? && t.value.paused)
    case Tick(now) =>
      if NormalizeActiveTimer(s.active).None? || s.active.value.paused then s
      else s.(elapsedSec := ElapsedFromActive(s.active, now))
    case Clear => Init()
  }

  function Run(s: State, steps: seq<Step>): State {
    if steps == [] then s else Next(Run(s, steps[..|steps| - 1]), steps[|steps| - 1])
  }

  /** What setting, ticking and clearing show: a timer with all its ids and a start, or none. */
  lemma ShowsExactly(s: State, timer: Option<Timer>, now: int)
    ensures var t := Next(s, SetActive(timer, now));
            var ok := timer.Some? && timer.value.taskId != "" && timer.value.userId != ""
                      && timer.value.workspaceId != "" && timer.value.startedAt.Some?;
            if ok then t.active == timer && t.isPaused == timer.value.paused
            else t == State(None, 0, false)
    ensures Next(s, Tick(now)) == s.(elapsedSec := Next(s, Tick(now)).elapsedSec)
    ensures Next(s, Clear) == State(None, 0, false)
  {
  }

  // ---- in every run

  /** Of a running timer, the seconds beyond those banked fit between its start and now, and one more would not;
      before its start there are none, and a paused timer stands still. */
  lemma ElapsedExactly(t: Timer, now: int)
    requires WellFormed(t)
    ensures var elapsed := ElapsedFromActive(Some(t), now);
            var seconds := elapsed - if t.accumulatedSec.Some? then t.accumulatedSec.value else 0;
            var since := now - t.startedAt.value;
            if t.paused then elapsed == t.elapsedSec
            else if since < 0 then seconds == 0
            else 1000 * seconds <= since < 1000 * (seconds + 1)
  {
    var since := now - t.startedAt.value;
    assert since == 1000 * (since / 1000) + since % 1000;
  }

  /** The clock at the last SetActive or Tick. */
  function LastLook(steps: seq<Step>): int {
    if steps == [] then 0
    else
      var a := steps[|steps| - 1];
      if a.Clear? then LastLook(steps[..|steps| - 1]) else a.now
  }

  /** Whatever is set, ticked or cleared at whatever times, the timer shown is well formed, is shown as paused
      exactly when it is, and shows its elapsed seconds at the last look at the clock; no timer shows none. */
  lemma {:induction false} RunShowsTimer(steps: seq<Step>)
    ensures var s := Run(Init(), steps);
            (s.active.Some? ==> WellFormed(s.active.value))
            && (s.isPaused <==> s.active.Some? && s.active.value.paused)
            && s.elapsedSec == ElapsedFromActive(s.active, LastLook(steps))
  {
    if steps != [] {
      RunShowsTimer(steps[..|steps| - 1]);
    }
  }

  function Ticks(times: seq<int>): seq<Step> { seq(|times|, i requires 0 <= i < |times| => Tick(times[i])) }

  lemma LastTick(times: seq<int>)
    requires times != []
    ensures var k := |times| - 1;
            |Ticks(times)| == k + 1 && Ticks(times)[..k] == Ticks(times[..k]) && Ticks(times)[k] == Tick(times[k])
  {
  }

  /** A clock that never runs back. */
  predicate Forward(times: seq<int>) { forall i, j | 0 <= i <= j < |times| :: times[i] <= times[j] }

  /** While the clock never runs back, ticking never takes elapsed seconds back, and any number of ticks leaves what
      setting the timer at the last of them would show: a missed tick loses nothing. */
  lemma {:induction false} TicksNeverGoBack(timer: Option<Timer>, start: int, times: seq<int>)
    requires Forward([start] + times)
    ensures var s := Next(Init(), SetActive(timer, start));
            var t := Run(s, Ticks(times));
            t == Next(Init(), SetActive(timer, ([start] + times)[|times|])) && t.elapsedSec >= s.elapsedSec
  {
    if times != [] {
      var k := |times| - 1;
      assert [start] + times[..k] == ([start] + times)[..|times|];
      TicksNeverGoBack(timer, start, times[..k]);
      LastTick(times);
      var before := ([start] + times)[k];
      assert before <= times[k] == ([start] + times)[|times|];
      LaterIsMore(NormalizeActiveTimer(timer), before, times[k]);
    }
  }

  lemma LaterIsMore(t: Option<Timer>, now: int, later: int)
    requires now <= later
    ensures ElapsedFromActive(t, now) <= ElapsedFromActive(t, later)
  {
  }

  // ---- the store

  class TimerStore {
    var active: Option<Timer>
    var elapsedSec: int
    var isPaused: bool

    ghost function Model(): State
      reads this
    {
      State(active, elapsedSec, isPaused)
    }

    constructor ()
      ensures Model() == Init()
    {
      active, elapsedSec, isPaused := None, 0, false;
    }

    method SetActive(timer: Option<Timer>, now: int)
      modifies this
      ensures Model() == Next(old(Model()), Step.SetActive(timer, now))
    {
      active := NormalizeActiveTimer(timer);
      elapsedSec := ElapsedFromActive(active, now);
      isPaused := active.Some? && active.value.paused;
    }

    method Tick(now: int)
      modifies this`elapsedSec
      ensures Model() == Next(old(Model()), Step.Tick(now))
    {
      if NormalizeActiveTimer(active).None? || active.value.paused {
        return;
      }
      elapsedSec := ElapsedFromActive(active, now);
    }

    method Clear()
      modifies this
      ensures Model() == Next(old(Model()), Step.Clear)
    {
      active, elapsedSec, isPaused := None, 0, false;
    }
  }
}
