/**
 * `throttle(func, limit)` from script.js: the returned wrapper runs `func` at once
 * when its captured flag `inThrottle` is down, raises the flag and schedules a timer
 * that lowers it again `limit` milliseconds later; a call made while the flag is up
 * is dropped. The wrapper's receiver and arguments are bundled in the type `A`.
 * `func` runs before the flag is raised, so when it throws, the exception leaves
 * the wrapper with the flag still down and no timer scheduled.
 *
 * The host timer facility is part of the state (`timers`, the due times of the
 * scheduled `inThrottle = false` callbacks), so that "only the timer lowers the
 * flag" and "at most one timer is ever pending" are proved rather than assumed.
 */
module Throttling {
  import opened Wrappers
  import opened Timing

  /** The closure state of one throttled wrapper together with its pending timers. */
  datatype Throttle<A> = Throttle(
    limit: nat,              // the window, in milliseconds
    inThrottle: bool,        // the captured flag; `let inThrottle;` starts out falsy
    timers: seq<nat>,        // due times of the scheduled flag-clearing callbacks, earliest first
    now: nat,                // time of the latest event handled
    log: seq<Execution<A>>)  // every run of `func`, oldest first

  function Init<A>(limit: nat): Throttle<A> {
    Throttle(limit, false, [], 0, [])
  }

  /**
   * The wrapper is called at time `t` with `args` (script.js:252-260); `returned`
   * says whether `func` returned normally. If it throws, the exception propagates
   * before the flag is raised and the timer scheduled (script.js:256-258).
   */
  function OnCall<A>(s: Throttle<A>, t: nat, args: A, returned: bool): Throttle<A> {
    if s.inThrottle then s.(now := t)
    else if returned then
      s.(inThrottle := true, timers := s.timers + [t + s.limit], now := t,
         log := s.log + [Execution(t, args)])
    else s.(now := t, log := s.log + [Execution(t, args)])
  }

  /** The earliest scheduled callback `() => inThrottle = false` runs at time `t`. */
  function OnTimer<A>(s: Throttle<A>, t: nat): Throttle<A>
    requires s.timers != []
  {
    s.(inThrottle := false, timers := s.timers[1..], now := t)
  }

  /**
   * What the event loop delivers to one wrapper. The order of a trace is the order
   * in which the host runs them, so a call and a timer on the same millisecond come
   * in whichever order the trace lists them.
   */
  datatype TraceEvent<A> = Invoke(time: nat, args: A, returned: bool) | Expire(time: nat)

  /** Every run of `func` a trace asks for returns normally. */
  predicate Returning<A>(events: seq<TraceEvent<A>>) {
    forall i :: 0 <= i < |events| && events[i].Invoke? ==> events[i].returned
  }

  /** Time never runs backwards, and a timer runs only once it is scheduled and due. */
  predicate Enabled<A>(s: Throttle<A>, e: TraceEvent<A>) {
    match e
    case Invoke(t, _, _) => s.now <= t
    case Expire(t) => s.timers != [] && s.now <= t && s.timers[0] <= t
  }

  function Step<A>(s: Throttle<A>, e: TraceEvent<A>): Throttle<A>
    requires Enabled(s, e)
  {
    match e
    case Invoke(t, args, returned) => OnCall(s, t, args, returned)
    case Expire(t) => OnTimer(s, t)
  }

  /** The state after a trace of events, or None when some event was not enabled. */
  function Run<A>(s: Throttle<A>, events: seq<TraceEvent<A>>): Option<Throttle<A>>
    decreases |events|
  {
    if events == [] then Some(s)
    else if Enabled(s, events[0]) then Run(Step(s, events[0]), events[1..])
    else None
  }

  /** Any two runs of the handler are at least `limit` apart. */
  ghost predicate Spaced<A>(log: seq<Execution<A>>, limit: nat) {
    forall i, j :: 0 <= i < j < |log| ==> log[i].time + limit <= log[j].time
  }

  /**
   * The invariant of every reachable state, whatever `func` does: the flag is up
   * exactly while one timer is pending, and that timer is due `limit` after the
   * latest run.
   */
  ghost predicate Shape<A>(s: Throttle<A>) {
    && (s.log != [] ==> Last(s.log).time <= s.now)
    && |s.timers| <= 1
    && (s.inThrottle <==> s.timers != [])
    && (s.inThrottle ==> s.log != [] && s.timers[0] == Last(s.log).time + s.limit)
  }

  /**
   * The invariant of every state reached while `func` returns normally: besides
   * the shape, runs are `limit` apart, and once the flag is down the window of
   * the latest run is over.
   */
  ghost predicate Inv<A>(s: Throttle<A>) {
    && Shape(s)
    && Spaced(s.log, s.limit)
    && (!s.inThrottle && s.log != [] ==> Last(s.log).time + s.limit <= s.now)
  }

  lemma InitInv<A>(limit: nat)
    ensures Inv(Init<A>(limit))
  {
  }

  lemma StepShape<A>(s: Throttle<A>, e: TraceEvent<A>)
    requires Shape(s) && Enabled(s, e)
    ensures Shape(Step(s, e))
    ensures Step(s, e).limit == s.limit
  {
  }

  lemma {:induction false} RunShape<A>(s: Throttle<A>, events: seq<TraceEvent<A>>)
    requires Shape(s) && Run(s, events).Some?
    ensures Shape(Run(s, events).value)
    decreases |events|
  {
    if events != [] {
      StepShape(s, events[0]);
      RunShape(Step(s, events[0]), events[1..]);
    }
  }

  /**
   * For every trace, even one where `func` throws, at most one timer is pending
   * and the flag is up exactly while it is.
   */
  lemma OneTimerAtMost<A>(limit: nat, events: seq<TraceEvent<A>>)
    requires Run(Init<A>(limit), events).Some?
    ensures var r := Run(Init<A>(limit), events).value;
      |r.timers| <= 1 && (r.inThrottle <==> r.timers != [])
  {
    RunShape(Init<A>(limit), events);
  }

  lemma StepInv<A>(s: Throttle<A>, e: TraceEvent<A>)
    requires Inv(s) && Enabled(s, e)
    requires e.Invoke? && !s.inThrottle ==> e.returned
    ensures Inv(Step(s, e))
    ensures Step(s, e).limit == s.limit
  {
    if e.Invoke? && !s.inThrottle {
      var r := Step(s, e);
      forall i, j | 0 <= i < j < |r.log|
        ensures r.log[i].time + r.limit <= r.log[j].time
      {
        if j == |s.log| && i < j - 1 {
          assert s.log[i].time + s.limit <= Last(s.log).time;
        }
      }
    }
  }

  lemma {:induction false} RunInv<A>(s: Throttle<A>, events: seq<TraceEvent<A>>)
    requires Inv(s) && Run(s, events).Some? && Returning(events)
    ensures Inv(Run(s, events).value)
    ensures Run(s, events).value.limit == s.limit
    decreases |events|
  {
    if events != [] {
      assert Returning(events[1..]) by {
        forall i | 0 <= i < |events[1..]| && events[1..][i].Invoke?
          ensures events[1..][i].returned
        {
          assert events[1..][i] == events[i + 1];
        }
      }
      StepInv(s, events[0]);
      RunInv(Step(s, events[0]), events[1..]);
    }
  }

  /**
   * Whatever the interleaving of calls and timers, and however late the timers
   * run, as long as `func` returns normally any two runs of the handler are at
   * least `limit` apart, at most one timer is pending, and the flag is up exactly
   * while it is.
   */
  lemma ExecutionsSpaced<A>(limit: nat, events: seq<TraceEvent<A>>)
    requires Run(Init<A>(limit), events).Some? && Returning(events)
    ensures var r := Run(Init<A>(limit), events).value;
      && (forall i, j :: 0 <= i < j < |r.log| ==> r.log[i].time + limit <= r.log[j].time)
      && |r.timers| <= 1
      && (r.inThrottle <==> r.timers != [])
  {
    InitInv<A>(limit);
    RunInv(Init<A>(limit), events);
  }

  /** Calls at nondecreasing times, none before `now`, each of whose `func` throws. */
  predicate ThrowingCalls<A>(now: nat, events: seq<TraceEvent<A>>) {
    && (forall i :: 0 <= i < |events| ==> events[i].Invoke? && !events[i].returned)
    && (events != [] ==> now <= events[0].time)
    && (forall i :: 0 < i < |events| ==> events[i - 1].time <= events[i].time)
  }

  /**
   * A handler that throws is not throttled at all: with the flag down, every one
   * of a sequence of throwing calls runs `func`, however close together they come,
   * and the flag stays down with no timer scheduled.
   */
  lemma {:induction false} ThrowingHandlerRunsEveryCall<A>(s: Throttle<A>, events: seq<TraceEvent<A>>)
    requires !s.inThrottle && ThrowingCalls(s.now, events)
    ensures Run(s, events).Some?
    ensures var r := Run(s, events).value;
      && !r.inThrottle && r.timers == s.timers
      && |r.log| == |s.log| + |events| && r.log[..|s.log|] == s.log
      && forall i :: 0 <= i < |events| ==>
           r.log[|s.log| + i] == Execution(events[i].time, events[i].args)
    decreases |events|
  {
    if events != [] {
      var s' := Step(s, events[0]);
      assert ThrowingCalls(s'.now, events[1..]) by {
        forall i | 0 < i < |events[1..]|
          ensures events[1..][i - 1].time <= events[1..][i].time
        {
          assert events[1..][i - 1] == events[i] && events[1..][i] == events[i + 1];
        }
        if |events| > 1 {
          assert events[0].time <= events[1].time;
        }
      }
      ThrowingHandlerRunsEveryCall(s', events[1..]);
      var r := Run(s, events).value;
      assert r.log[..|s'.log|][..|s.log|] == r.log[..|s.log|];
      forall i | 0 <= i < |events|
        ensures r.log[|s.log| + i] == Execution(events[i].time, events[i].args)
      {
        if i > 0 {
          assert events[1..][i - 1] == events[i];
        }
      }
    }
  }

  /**
   * No run is ever deferred: the log only grows, and each new run happens at the
   * very time of a call in the trace, with that call's arguments. A dropped call is
   * not queued and no trailing run is ever made.
   */
  lemma {:induction false} ExecutionsAreLeadingCalls<A>(s: Throttle<A>, events: seq<TraceEvent<A>>)
    requires Run(s, events).Some?
    ensures var r := Run(s, events).value;
      && |s.log| <= |r.log| && r.log[..|s.log|] == s.log
      && forall i :: |s.log| <= i < |r.log| ==>
           Invoke(r.log[i].time, r.log[i].args, true) in events
           || Invoke(r.log[i].time, r.log[i].args, false) in events
    decreases |events|
  {
    if events != [] {
      var s' := Step(s, events[0]);
      ExecutionsAreLeadingCalls(s', events[1..]);
      var r := Run(s, events).value;
      assert r == Run(s', events[1..]).value;
      assert s'.log[..|s.log|] == s.log;
      assert r.log[..|s.log|] == r.log[..|s'.log|][..|s.log|];
      forall i | |s.log| <= i < |r.log|
        ensures Invoke(r.log[i].time, r.log[i].args, true) in events
                || Invoke(r.log[i].time, r.log[i].args, false) in events
      {
        if i < |s'.log| {
          assert r.log[i] == s'.log[i];
          assert events[0] == Invoke(r.log[i].time, r.log[i].args, events[0].returned);
        } else {
          assert Invoke(r.log[i].time, r.log[i].args, true) in events[1..]
                 || Invoke(r.log[i].time, r.log[i].args, false) in events[1..];
        }
      }
    }
  }

  /**
   * Prompt delivery: every timer runs as soon as it is due, and a timer due at the
   * very millisecond of a call runs before or after it as `tie` says. The call is
   * handled by the same two events of the trace model, and `func` returns normally.
   */
  function Deliver<A>(s: Throttle<A>, c: Call<A>, tie: TieOrder): Throttle<A> {
    var fired := if s.timers != [] && WindowOver(s.timers[0], c.time, tie)
                 then OnTimer(s, s.timers[0]) else s;
    OnCall(fired, c.time, c.args, true)
  }

  function RunPrompt<A>(s: Throttle<A>, calls: seq<Call<A>>, tie: TieOrder): Throttle<A>
    decreases |calls|
  {
    if calls == [] then s else RunPrompt(Deliver(s, calls[0], tie), calls[1..], tie)
  }

  /**
   * The throttle discipline stated without flags or timers: a call runs exactly
   * when no earlier call ran, or the window of the latest run is over by its time.
   */
  function Admitted<A>(limit: nat, tie: TieOrder, lastRun: Option<nat>, calls: seq<Call<A>>): seq<Execution<A>>
    decreases |calls|
  {
    if calls == [] then []
    else if lastRun.None? || WindowOver(lastRun.value + limit, calls[0].time, tie) then
      [Execution(calls[0].time, calls[0].args)] + Admitted(limit, tie, Some(calls[0].time), calls[1..])
    else
      Admitted(limit, tie, lastRun, calls[1..])
  }

  function ThrottleRef<A>(limit: nat, tie: TieOrder, calls: seq<Call<A>>): seq<Execution<A>> {
    Admitted(limit, tie, None, calls)
  }

  /** The states prompt delivery passes through: a raised flag has its one timer. */
  ghost predicate PromptState<A>(s: Throttle<A>) {
    && (s.inThrottle ==> s.log != [] && s.timers == [Last(s.log).time + s.limit])
    && (!s.inThrottle ==> s.timers == [])
  }

  function LastRun<A>(s: Throttle<A>): Option<nat>
    requires PromptState(s)
  {
    if s.inThrottle then Some(Last(s.log).time) else None
  }

  lemma {:induction false} RunPromptAdmits<A>(s: Throttle<A>, calls: seq<Call<A>>, tie: TieOrder)
    requires PromptState(s)
    ensures RunPrompt(s, calls, tie).log == s.log + Admitted(s.limit, tie, LastRun(s), calls)
    decreases |calls|
  {
    if calls != [] {
      var s' := Deliver(s, calls[0], tie);
      assert PromptState(s');
      RunPromptAdmits(s', calls[1..], tie);
    }
  }

  /**
   * Under prompt delivery the throttled wrapper runs `func` for exactly the calls
   * the reference admits, at their own times and with their own arguments.
   */
  lemma ThrottleMatchesReference<A>(limit: nat, tie: TieOrder, calls: seq<Call<A>>)
    ensures RunPrompt(Init<A>(limit), calls, tie).log == ThrottleRef(limit, tie, calls)
  {
    RunPromptAdmits(Init<A>(limit), calls, tie);
  }

  /** The trace of events that prompt delivery of `calls` hands to the wrapper. */
  function PromptEvents<A>(s: Throttle<A>, calls: seq<Call<A>>, tie: TieOrder): seq<TraceEvent<A>>
    decreases |calls|
  {
    if calls == [] then []
    else
      var fired := if s.timers != [] && WindowOver(s.timers[0], calls[0].time, tie)
                   then [Expire(s.timers[0])] else [];
      fired + [Invoke(calls[0].time, calls[0].args, true)] + PromptEvents(Deliver(s, calls[0], tie), calls[1..], tie)
  }

  lemma {:induction false} RunConcat<A>(s: Throttle<A>, xs: seq<TraceEvent<A>>, ys: seq<TraceEvent<A>>)
    ensures Run(s, xs + ys) == if Run(s, xs).Some? then Run(Run(s, xs).value, ys) else None
    decreases |xs|
  {
    if xs != [] {
      assert (xs + ys)[0] == xs[0] && (xs + ys)[1..] == xs[1..] + ys;
      if Enabled(s, xs[0]) {
        RunConcat(Step(s, xs[0]), xs[1..], ys);
      }
    } else {
      assert xs + ys == ys;
    }
  }

  /**
   * Prompt delivery of calls that arrive in time order is one of the interleavings
   * the event loop may produce: every event of its trace is enabled, and the trace
   * ends in the state prompt delivery computes. So the spacing and leading-edge
   * lemmas above hold of the reference runs as well.
   */
  lemma {:induction false} PromptIsTrace<A>(s: Throttle<A>, calls: seq<Call<A>>, tie: TieOrder)
    requires PromptState(s) && Chronological(calls)
    requires calls != [] ==> s.now <= calls[0].time
    requires s.timers != [] ==> s.now <= s.timers[0]
    ensures Run(s, PromptEvents(s, calls, tie)) == Some(RunPrompt(s, calls, tie))
    decreases |calls|
  {
    if calls != [] {
      var c := calls[0];
      var fire := s.timers != [] && WindowOver(s.timers[0], c.time, tie);
      var fired: seq<TraceEvent<A>> := if fire then [Expire(s.timers[0])] else [];
      var s' := Deliver(s, c, tie);
      var rest := PromptEvents(s', calls[1..], tie);
      assert PromptEvents(s, calls, tie) == fired + ([Invoke(c.time, c.args, true)] + rest);
      RunConcat(s, fired, [Invoke(c.time, c.args, true)] + rest);
      var mid := if fire then OnTimer(s, s.timers[0]) else s;
      assert Run(s, fired) == Some(mid);
      assert Run(mid, [Invoke(c.time, c.args, true)] + rest) == Run(s', rest);
      assert PromptState(s');
      PromptIsTrace(s', calls[1..], tie);
    }
  }

  /**
   * `throttle(fn, 100)` called at 0, 10, 50, 110 and 120 runs `fn` twice, for the
   * calls at 0 and 110, whichever way same-instant ties are broken.
   */
  lemma ThrottleScenario(tie: TieOrder)
    ensures RunPrompt(Init<string>(100),
              [Call(0, "a"), Call(10, "b"), Call(50, "c"), Call(110, "d"), Call(120, "e")], tie).log
            == [Execution(0, "a"), Execution(110, "d")]
  {
    var calls := [Call(0, "a"), Call(10, "b"), Call(50, "c"), Call(110, "d"), Call(120, "e")];
    ThrottleMatchesReference(100, tie, calls);
    assert Admitted(100, tie, Some(110), calls[4..]) == [];
    assert Admitted(100, tie, Some(0), calls[3..]) == [Execution(110, "d")];
    assert Admitted(100, tie, Some(0), calls[1..]) == [Execution(110, "d")];
  }

  /**
   * One throttled wrapper as the object the closure amounts to. The log stands for
   * the handler's runs; `Call` reports whether it ran the handler. The ghost flag
   * `returning` records whether every run so far returned normally; while it does,
   * the full invariant holds.
   */
  class Throttled<A> {
    const limit: nat
    var inThrottle: bool
    var timers: seq<nat>
    var now: nat
    var log: seq<Execution<A>>
    ghost var returning: bool

    function State(): Throttle<A>
      reads this
    {
      Throttle(limit, inThrottle, timers, now, log)
    }

    ghost predicate Valid()
      reads this
    {
      Shape(State()) && (returning ==> Inv(State()))
    }

    constructor (limit: nat)
      ensures Valid() && State() == Init(limit) && returning
    {
      this.limit := limit;
      inThrottle := false;
      timers := [];
      now := 0;
      log := [];
      returning := true;
    }

    /**
     * The wrapper is invoked at time `t` (script.js:252-260); `returned` is whether
     * `func` returns normally if it runs. A throw propagates to the caller, who
     * sees it as `ran && !returned`.
     */
    method Call(t: nat, args: A, returned: bool) returns (ran: bool)
      requires Valid() && now <= t
      modifies this
      ensures Valid() && State() == OnCall(old(State()), t, args, returned)
      ensures returning == (old(returning) && (ran ==> returned))
      ensures ran == !old(inThrottle)
      ensures ran ==> log == old(log) + [Execution(t, args)]
      ensures ran && returned ==> inThrottle && timers == [t + limit]
      ensures ran && !returned ==> !inThrottle && timers == []
      ensures !ran ==> inThrottle && log == old(log) && timers == old(timers)
    {
      StepShape(State(), Invoke(t, args, returned));
      if returning && (inThrottle || returned) {
        StepInv(State(), Invoke(t, args, returned));
      }
      ran := !inThrottle;
      if ran {
        log := log + [Execution(t, args)];   // func.apply(context, args)
        if returned {
          inThrottle := true;
          timers := timers + [t + limit];    // setTimeout(() => inThrottle = false, limit)
        }
        returning := returning && returned;
      }
      now := t;
    }

    /** The pending timer runs at time `t`, at or after its due time (script.js:258). */
    method TimerFires(t: nat)
      requires Valid() && Enabled(State(), Expire(t))
      modifies this
      ensures Valid() && State() == OnTimer(old(State()), t) && returning == old(returning)
      ensures !inThrottle && timers == [] && log == old(log)
    {
      StepShape(State(), Expire(t));
      if returning {
        StepInv(State(), Expire(t));
      }
      inThrottle := false;
      timers := timers[1..];
      now := t;
    }
  }
}
