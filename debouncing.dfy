/**
 * `debounce(func, wait)` from script.js: the returned wrapper keeps one timer
 * handle `timeout`. Every call clears the timer that handle names and schedules a
 * new one `wait` milliseconds later whose callback `later` captures that call's
 * arguments; when it runs, `later` clears `timeout` once more and calls
 * `func(...args)`. The receiver of the call is not forwarded: `func` runs without it.
 *
 * The host timer table is part of the state, keyed by handle, so that "at most
 * one run is pending, and it is the one `timeout` names" is a proved invariant.
 */
module Debouncing {
  import opened Wrappers
  import opened Timing

  /** A scheduled `later` callback: when it is due and the arguments it captured. */
  datatype Pending<A> = Pending(due: nat, args: A)

  /** The closure state of one debounced wrapper together with its live timers. */
  datatype Debounce<A> = Debounce(
    wait: nat,                      // the quiet period, in milliseconds
    timeout: Option<nat>,           // the captured handle; `let timeout;` starts out undefined
    timers: map<nat, Pending<A>>,   // the host's live timers for this wrapper, by handle
    nextHandle: nat,                // the handle the next `setTimeout` returns
    now: nat,                       // time of the latest event handled
    log: seq<Execution<A>>)         // every run of `func`, oldest first

  function Init<A>(wait: nat): Debounce<A> {
    Debounce(wait, None, map[], 1, 0, [])
  }

  /** `clearTimeout(handle)`: forgets that timer; a missing or stale handle does nothing. */
  function Cleared<A>(timers: map<nat, Pending<A>>, handle: Option<nat>): (r: map<nat, Pending<A>>)
    ensures handle.None? ==> r == timers
    ensures handle.Some? ==> r.Keys == timers.Keys - {handle.value}
    ensures forall h :: h in r ==> h in timers && r[h] == timers[h]
  {
    if handle.Some? then timers - {handle.value} else timers
  }

  /** The wrapper is called at time `t` with `args` (script.js:239-246). */
  function OnCall<A>(s: Debounce<A>, t: nat, args: A): Debounce<A> {
    var h := s.nextHandle;
    s.(timeout := Some(h),
       timers := Cleared(s.timers, s.timeout)[h := Pending(t + s.wait, args)],
       nextHandle := h + 1,
       now := t)
  }

  /** The timer `h` goes off at time `t` and runs `later` (script.js:240-243). */
  function OnTimer<A>(s: Debounce<A>, t: nat, h: nat): Debounce<A>
    requires h in s.timers
  {
    s.(timers := Cleared(s.timers - {h}, s.timeout),
       now := t,
       log := s.log + [Execution(t, s.timers[h].args)])
  }

  /** What the event loop delivers to one wrapper, in the order it runs them. */
  datatype TraceEvent<A> = Invoke(time: nat, args: A) | Expire(time: nat, handle: nat)

  /** Time never runs backwards, and only a live timer that is due can go off. */
  predicate Enabled<A>(s: Debounce<A>, e: TraceEvent<A>) {
    match e
    case Invoke(t, _) => s.now <= t
    case Expire(t, h) => h in s.timers && s.now <= t && s.timers[h].due <= t
  }

  function Step<A>(s: Debounce<A>, e: TraceEvent<A>): Debounce<A>
    requires Enabled(s, e)
  {
    match e
    case Invoke(t, args) => OnCall(s, t, args)
    case Expire(t, h) => OnTimer(s, t, h)
  }

  /** The state after a trace of events, or None when some event was not enabled. */
  function Run<A>(s: Debounce<A>, events: seq<TraceEvent<A>>): Option<Debounce<A>>
    decreases |events|
  {
    if events == [] then Some(s)
    else if Enabled(s, events[0]) then Run(Step(s, events[0]), events[1..])
    else None
  }

  /** The handles `timeout` can name. */
  function Named(timeout: Option<nat>): set<nat> {
    if timeout.Some? then {timeout.value} else {}
  }

  /** Every live timer is the one the closure's handle names: at most one is pending. */
  ghost predicate Inv<A>(s: Debounce<A>) {
    s.timers.Keys <= Named(s.timeout)
  }

  lemma InvAtMostOne<A>(s: Debounce<A>)
    requires Inv(s)
    ensures |s.timers| <= 1
  {
    if s.timeout.None? || s.timeout.value !in s.timers {
      assert s.timers.Keys == {};
    } else {
      assert s.timers.Keys == {s.timeout.value};
    }
  }

  lemma StepInv<A>(s: Debounce<A>, e: TraceEvent<A>)
    requires Inv(s) && Enabled(s, e)
    ensures Inv(Step(s, e)) && |Step(s, e).timers| <= 1
    ensures Step(s, e).wait == s.wait
  {
    var r := Step(s, e);
    if e.Invoke? {
      assert Cleared(s.timers, s.timeout).Keys == {};
      assert r.timers.Keys == {s.nextHandle};
    } else {
      assert r.timers.Keys == {};
    }
  }

  /** The latest call in a trace, if there is one. */
  function LastInvoke<A>(events: seq<TraceEvent<A>>): Option<Call<A>>
    decreases |events|
  {
    if events == [] then None
    else if Last(events).Invoke? then Some(Call(Last(events).time, Last(events).args))
    else LastInvoke(events[..|events| - 1])
  }

  lemma {:induction false} LastInvokeCons<A>(e: TraceEvent<A>, rest: seq<TraceEvent<A>>)
    ensures LastInvoke([e] + rest) ==
      if LastInvoke(rest).Some? then LastInvoke(rest)
      else if e.Invoke? then Some(Call(e.time, e.args)) else None
    decreases |rest|
  {
    if rest != [] {
      assert Last([e] + rest) == Last(rest);
      assert ([e] + rest)[..|rest|] == [e] + rest[..|rest| - 1];
      LastInvokeCons(e, rest[..|rest| - 1]);
    } else {
      assert [e] + rest == [e];
    }
  }

  /**
   * Coalescing, whatever the interleaving and however late timers run: at most one
   * timer is ever live, and once the trace holds a call, the live timer (if any)
   * is the one the latest call scheduled, `wait` after it, with its arguments.
   */
  lemma {:induction false} PendingIsLatestCall<A>(s: Debounce<A>, events: seq<TraceEvent<A>>)
    requires Inv(s) && Run(s, events).Some?
    ensures var r := Run(s, events).value;
      && Inv(r) && |r.timers| <= 1 && r.wait == s.wait
      && (LastInvoke(events).Some? ==>
            forall h :: h in r.timers ==>
              r.timers[h] == Pending(LastInvoke(events).value.time + s.wait, LastInvoke(events).value.args))
    decreases |events|
  {
    if events == [] {
      InvAtMostOne(s);
    } else {
      var s' := Step(s, events[0]);
      StepInv(s, events[0]);
      PendingIsLatestCall(s', events[1..]);
      assert [events[0]] + events[1..] == events;
      LastInvokeCons(events[0], events[1..]);
      if LastInvoke(events[1..]).None? && events[0].Invoke? {
        // No later call: the timer the first call scheduled is the only one that can be live.
        LastCallTimer(s', events[1..]);
      }
    }
  }

  /** With no further call, no timer is ever added, and each live one keeps its entry. */
  lemma {:induction false} LastCallTimer<A>(s: Debounce<A>, events: seq<TraceEvent<A>>)
    requires Run(s, events).Some? && LastInvoke(events).None?
    ensures forall h :: h in Run(s, events).value.timers ==> h in s.timers && Run(s, events).value.timers[h] == s.timers[h]
    decreases |events|
  {
    if events != [] {
      assert [events[0]] + events[1..] == events;
      LastInvokeCons(events[0], events[1..]);
      LastCallTimer(Step(s, events[0]), events[1..]);
    }
  }

  /**
   * When a timer goes off after a trace whose latest call was `c`, `func` runs once
   * with `c`'s arguments, no earlier than `wait` after `c`, and nothing stays pending.
   */
  lemma FiresWithLatestArgs<A>(wait: nat, events: seq<TraceEvent<A>>, t: nat, h: nat)
    requires Run(Init<A>(wait), events).Some?
    requires Enabled(Run(Init<A>(wait), events).value, Expire(t, h))
    ensures LastInvoke(events).Some?
    ensures var r := Run(Init<A>(wait), events).value;
            var c := LastInvoke(events).value;
      && Step(r, Expire(t, h)).log == r.log + [Execution(t, c.args)]
      && c.time + wait <= t
      && Step(r, Expire(t, h)).timers == map[]
  {
    PendingIsLatestCall(Init<A>(wait), events);
    if LastInvoke(events).None? {
      LastCallTimer(Init<A>(wait), events);
      assert false;
    }
    var r := Run(Init<A>(wait), events).value;
    assert Step(r, Expire(t, h)).timers.Keys == {};
  }

  /**
   * Prompt delivery: the live timer goes off exactly when due, and a timer due at
   * the very millisecond of a call runs before or after it as `tie` says.
   */
  function FireIfDue<A>(s: Debounce<A>, t: nat, tie: TieOrder): Debounce<A> {
    if s.timeout.Some? && s.timeout.value in s.timers && WindowOver(s.timers[s.timeout.value].due, t, tie)
    then OnTimer(s, s.timers[s.timeout.value].due, s.timeout.value)
    else s
  }

  function Deliver<A>(s: Debounce<A>, c: Call<A>, tie: TieOrder): Debounce<A> {
    OnCall(FireIfDue(s, c.time, tie), c.time, c.args)
  }

  function RunPrompt<A>(s: Debounce<A>, calls: seq<Call<A>>, tie: TieOrder): Debounce<A>
    decreases |calls|
  {
    if calls == [] then s else RunPrompt(Deliver(s, calls[0], tie), calls[1..], tie)
  }

  /** Once calls stop, the live timer (if any) goes off when due. */
  function Flush<A>(s: Debounce<A>): Debounce<A> {
    if s.timeout.Some? && s.timeout.value in s.timers
    then OnTimer(s, s.timers[s.timeout.value].due, s.timeout.value)
    else s
  }

  /** Every live timer is due no earlier than the latest event handled. */
  ghost predicate DueLater<A>(s: Debounce<A>) {
    forall h :: h in s.timers ==> s.now <= s.timers[h].due
  }

  /** The trace of events that prompt delivery of `calls` hands to the wrapper. */
  function PromptEvents<A>(s: Debounce<A>, calls: seq<Call<A>>, tie: TieOrder): seq<TraceEvent<A>>
    decreases |calls|
  {
    if calls == [] then []
    else
      var fired := if s.timeout.Some? && s.timeout.value in s.timers
                      && WindowOver(s.timers[s.timeout.value].due, calls[0].time, tie)
                   then [Expire(s.timers[s.timeout.value].due, s.timeout.value)] else [];
      fired + [Invoke(calls[0].time, calls[0].args)] + PromptEvents(Deliver(s, calls[0], tie), calls[1..], tie)
  }

  lemma {:induction false} RunConcat<A>(s: Debounce<A>, xs: seq<TraceEvent<A>>, ys: seq<TraceEvent<A>>)
    ensures Run(s, xs + ys) == if Run(s, xs).Some? then Run(Run(s, xs).value, ys) else None
    decreases |xs|
  {
    if xs != [] {
      assert (xs + ys)[0] == xs[0] && (xs + ys)[1..] == xs[1..] + ys;
      if Enabled(s, xs[0]) {
        RunConcat(Step(s, xs[0]), xs[1..], ys);
      }
    } else {
      assert xs + ys == ys;
    }
  }

  /**
   * Prompt delivery of calls that arrive in time order is one of the interleavings
   * the event loop may produce: every event of its trace is enabled, and the trace
   * ends in the state prompt delivery computes. So the coalescing lemmas about
   * traces hold of the reference runs as well.
   */
  lemma {:induction false} PromptIsTrace<A>(s: Debounce<A>, calls: seq<Call<A>>, tie: TieOrder)
    requires Inv(s) && DueLater(s) && Chronological(calls)
    requires calls != [] ==> s.now <= calls[0].time
    ensures Run(s, PromptEvents(s, calls, tie)) == Some(RunPrompt(s, calls, tie))
    decreases |calls|
  {
    if calls != [] {
      var c := calls[0];
      var fire := s.timeout.Some? && s.timeout.value in s.timers
                  && WindowOver(s.timers[s.timeout.value].due, c.time, tie);
      var fired: seq<TraceEvent<A>> :=
        if fire then [Expire(s.timers[s.timeout.value].due, s.timeout.value)] else [];
      var s' := Deliver(s, c, tie);
      var rest := PromptEvents(s', calls[1..], tie);
      assert PromptEvents(s, calls, tie) == fired + ([Invoke(c.time, c.args)] + rest);
      RunConcat(s, fired, [Invoke(c.time, c.args)] + rest);
      var mid := FireIfDue(s, c.time, tie);
      assert Run(s, fired) == Some(mid);
      assert Run(mid, [Invoke(c.time, c.args)] + rest) == Run(s', rest);
      assert Cleared(mid.timers, mid.timeout) == map[];
      assert s'.timers == map[s'.timeout.value := Pending(c.time + s.wait, c.args)];
      if |calls| > 1 {
        assert calls[0].time <= calls[1].time;
      }
      assert Chronological(calls[1..]) by {
        forall i | 0 < i < |calls[1..]|
          ensures calls[1..][i - 1].time <= calls[1..][i].time
        {
          assert calls[1..][i - 1] == calls[i] && calls[1..][i] == calls[i + 1];
        }
      }
      PromptIsTrace(s', calls[1..], tie);
    }
  }

  /**
   * The debounce discipline stated without handles or timers: the run scheduled
   * as `head` happens unless the next call arrives before its time; each call
   * schedules a run `wait` after itself with its own arguments.
   */
  function Settle<A>(wait: nat, tie: TieOrder, head: Execution<A>, calls: seq<Call<A>>): seq<Execution<A>>
    decreases |calls|
  {
    if calls == [] then [head]
    else
      (if WindowOver(head.time, calls[0].time, tie) then [head] else [])
      + Settle(wait, tie, Execution(calls[0].time + wait, calls[0].args), calls[1..])
  }

  function Coalesced<A>(wait: nat, tie: TieOrder, calls: seq<Call<A>>): seq<Execution<A>> {
    if calls == [] then []
    else Settle(wait, tie, Execution(calls[0].time + wait, calls[0].args), calls[1..])
  }

  lemma {:induction false} RunPromptSettles<A>(s: Debounce<A>, calls: seq<Call<A>>, tie: TieOrder)
    requires Inv(s) && s.timeout.Some? && s.timeout.value in s.timers
    ensures var p := s.timers[s.timeout.value];
      Flush(RunPrompt(s, calls, tie)).log == s.log + Settle(s.wait, tie, Execution(p.due, p.args), calls)
    decreases |calls|
  {
    if calls != [] {
      var s' := Deliver(s, calls[0], tie);
      var f := FireIfDue(s, calls[0].time, tie);
      assert Cleared(f.timers, f.timeout) == map[];
      assert s'.timers == map[s'.timeout.value := Pending(calls[0].time + s.wait, calls[0].args)];
      RunPromptSettles(s', calls[1..], tie);
    }
  }

  /**
   * Under prompt delivery, followed by a quiet period long enough for the last
   * timer, the debounced wrapper runs `func` exactly as the reference says.
   */
  lemma DebounceMatchesReference<A>(wait: nat, tie: TieOrder, calls: seq<Call<A>>)
    ensures Flush(RunPrompt(Init<A>(wait), calls, tie)).log == Coalesced(wait, tie, calls)
  {
    if calls != [] {
      var s' := Deliver(Init<A>(wait), calls[0], tie);
      assert s'.timers == map[1 := Pending(calls[0].time + wait, calls[0].args)];
      RunPromptSettles(s', calls[1..], tie);
    }
  }

  /** Calls that each come less than `wait` after the one before. */
  predicate Burst<A>(wait: nat, calls: seq<Call<A>>) {
    forall i :: 0 < i < |calls| ==> calls[i].time < calls[i - 1].time + wait
  }

  lemma {:induction false} BurstSettles<A>(wait: nat, tie: TieOrder, head: Execution<A>, calls: seq<Call<A>>)
    requires Burst(wait, calls)
    requires calls != [] ==> calls[0].time < head.time
    ensures Settle(wait, tie, head, calls) ==
      if calls == [] then [head] else [Execution(Last(calls).time + wait, Last(calls).args)]
    decreases |calls|
  {
    if calls != [] {
      var next := Execution(calls[0].time + wait, calls[0].args);
      assert Burst(wait, calls[1..]) by {
        forall i | 0 < i < |calls[1..]|
          ensures calls[1..][i].time < calls[1..][i - 1].time + wait
        {
          assert calls[1..][i] == calls[i + 1] && calls[1..][i - 1] == calls[i];
        }
      }
      if |calls| > 1 {
        assert calls[1].time < calls[0].time + wait;
      }
      BurstSettles(wait, tie, next, calls[1..]);
      if |calls| > 1 {
        assert Last(calls[1..]) == Last(calls);
      }
    }
  }

  /**
   * A burst of calls, each less than `wait` after the previous one, makes `func`
   * run exactly once, `wait` after the last call, with the last call's arguments.
   */
  lemma BurstRunsOnce<A>(wait: nat, tie: TieOrder, calls: seq<Call<A>>)
    requires calls != [] && Burst(wait, calls)
    ensures Coalesced(wait, tie, calls) == [Execution(Last(calls).time + wait, Last(calls).args)]
  {
    var head := Execution(calls[0].time + wait, calls[0].args);
    assert Burst(wait, calls[1..]) by {
      forall i | 0 < i < |calls[1..]|
        ensures calls[1..][i].time < calls[1..][i - 1].time + wait
      {
        assert calls[1..][i] == calls[i + 1] && calls[1..][i - 1] == calls[i];
      }
    }
    if |calls| > 1 {
      assert calls[1].time < calls[0].time + wait;
      assert Last(calls[1..]) == Last(calls);
    }
    BurstSettles(wait, tie, head, calls[1..]);
  }

  /** Each call comes after the run the previous call scheduled has gone off. */
  predicate Isolated<A>(wait: nat, tie: TieOrder, calls: seq<Call<A>>) {
    forall i :: 0 < i < |calls| ==> WindowOver(calls[i - 1].time + wait, calls[i].time, tie)
  }

  lemma {:induction false} IsolatedSettle<A>(wait: nat, tie: TieOrder, head: Execution<A>, calls: seq<Call<A>>)
    requires Isolated(wait, tie, calls)
    requires calls != [] ==> WindowOver(head.time, calls[0].time, tie)
    ensures |Settle(wait, tie, head, calls)| == |calls| + 1
    ensures Settle(wait, tie, head, calls)[0] == head
    ensures forall i :: 0 <= i < |calls| ==>
      Settle(wait, tie, head, calls)[i + 1] == Execution(calls[i].time + wait, calls[i].args)
    decreases |calls|
  {
    if calls != [] {
      var next := Execution(calls[0].time + wait, calls[0].args);
      assert Isolated(wait, tie, calls[1..]) by {
        forall i | 0 < i < |calls[1..]|
          ensures WindowOver(calls[1..][i - 1].time + wait, calls[1..][i].time, tie)
        {
          assert calls[1..][i] == calls[i + 1] && calls[1..][i - 1] == calls[i];
        }
      }
      if |calls| > 1 {
        assert WindowOver(calls[0].time + wait, calls[1].time, tie);
      }
      IsolatedSettle(wait, tie, next, calls[1..]);
      var rest := Settle(wait, tie, next, calls[1..]);
      assert Settle(wait, tie, head, calls) == [head] + rest;
      forall i | 0 <= i < |calls|
        ensures Settle(wait, tie, head, calls)[i + 1] == Execution(calls[i].time + wait, calls[i].args)
      {
        if i > 0 {
          assert calls[1..][i - 1] == calls[i];
        }
      }
    }
  }

  /**
   * Calls spaced so that each comes after the previous one's timer has gone off
   * each make `func` run once, `wait` after the call, with that call's arguments.
   */
  lemma IsolatedCallsAllRun<A>(wait: nat, tie: TieOrder, calls: seq<Call<A>>)
    requires Isolated(wait, tie, calls)
    ensures |Coalesced(wait, tie, calls)| == |calls|
    ensures forall i :: 0 <= i < |calls| ==>
      Coalesced(wait, tie, calls)[i] == Execution(calls[i].time + wait, calls[i].args)
  {
    if calls != [] {
      var head := Execution(calls[0].time + wait, calls[0].args);
      assert Isolated(wait, tie, calls[1..]) by {
        forall i | 0 < i < |calls[1..]|
          ensures WindowOver(calls[1..][i - 1].time + wait, calls[1..][i].time, tie)
        {
          assert calls[1..][i] == calls[i + 1] && calls[1..][i - 1] == calls[i];
        }
      }
      if |calls| > 1 {
        assert WindowOver(calls[0].time + wait, calls[1].time, tie);
      }
      IsolatedSettle(wait, tie, head, calls[1..]);
      forall i | 0 < i < |calls|
        ensures Coalesced(wait, tie, calls)[i] == Execution(calls[i].time + wait, calls[i].args)
      {
        assert calls[1..][i - 1] == calls[i];
      }
    }
  }

  /**
   * `debounce(fn, 50)` called at 0, 20 and 40 runs `fn` once, at 90, with the
   * arguments of the call at 40.
   */
  lemma DebounceScenario(tie: TieOrder)
    ensures Flush(RunPrompt(Init<string>(50), [Call(0, "a"), Call(20, "b"), Call(40, "c")], tie)).log
            == [Execution(90, "c")]
  {
    var calls := [Call(0, "a"), Call(20, "b"), Call(40, "c")];
    DebounceMatchesReference(50, tie, calls);
    BurstRunsOnce(50, tie, calls);
  }

  /** One debounced wrapper as the object the closure amounts to. */
  class Debounced<A> {
    const wait: nat
    var timeout: Option<nat>
    var timers: map<nat, Pending<A>>
    var nextHandle: nat
    var now: nat
    var log: seq<Execution<A>>

    function State(): Debounce<A>
      reads this
    {
      Debounce(wait, timeout, timers, nextHandle, now, log)
    }

    ghost predicate Valid()
      reads this
    {
      Inv(State())
    }

    constructor (wait: nat)
      ensures Valid() && State() == Init(wait)
    {
      this.wait := wait;
      timeout := None;
      timers := map[];
      nextHandle := 1;
      now := 0;
      log := [];
    }

    /** The wrapper is invoked at time `t` (script.js:239-246). */
    method Call(t: nat, args: A)
      requires Valid() && now <= t
      modifies this
      ensures Valid() && State() == OnCall(old(State()), t, args)
      ensures timeout.Some? && timers == map[timeout.value := Pending(t + wait, args)]
      ensures log == old(log)
    {
      StepInv(State(), Invoke(t, args));
      timers := Cleared(timers, timeout);     // clearTimeout(timeout)
      var h := nextHandle;
      nextHandle := nextHandle + 1;
      timers := timers[h := Pending(t + wait, args)];
      timeout := Some(h);                      // timeout = setTimeout(later, wait)
      now := t;
      assert timers.Keys == {h};
    }

    /** The live timer `h` goes off at time `t`, at or after its due time (script.js:240-243). */
    method TimerFires(t: nat, h: nat)
      requires Valid() && Enabled(State(), Expire(t, h))
      modifies this
      ensures Valid() && State() == OnTimer(old(State()), t, h)
      ensures timers == map[] && log == old(log) + [Execution(t, old(timers)[h].args)]
    {
      StepInv(State(), Expire(t, h));
      var p := timers[h];
      timers := timers - {h};                 // the host retires the timer that went off
      timers := Cleared(timers, timeout);     // clearTimeout(timeout)
      log := log + [Execution(t, p.args)];    // func(...args)
      now := t;
      assert timers.Keys == {};
    }
  }
}
