/**
 * Notions shared by the two rate-limiting combinators of script.js: time is a
 * `nat` count of milliseconds, a call of a wrapper is stamped with its time, and a
 * run of the wrapped handler is recorded with its time and arguments.
 */
module Timing {

  /** One invocation of a wrapper returned by `throttle` or `debounce`. */
  datatype Call<A> = Call(time: nat, args: A)

  /** One run of the wrapped handler `func`. */
  datatype Execution<A> = Execution(time: nat, args: A)

  /**
   * When a call and the expiry of a timer land on the same millisecond, the host's
   * event loop decides which runs first. The model keeps that choice explicit.
   */
  datatype TieOrder = TimerFirst | CallFirst

  /** A timer due at `due` has already gone off when a call arrives at time `t`. */
  predicate WindowOver(due: nat, t: nat, tie: TieOrder) {
    due < t || (due == t && tie == TimerFirst)
  }

  /** Each call is stamped no earlier than the one before it. */
  predicate Chronological<A>(calls: seq<Call<A>>) {
    forall i :: 0 < i < |calls| ==> calls[i - 1].time <= calls[i].time
  }

  function Last<T>(s: seq<T>): T
    requires s != []
  {
    s[|s| - 1]
  }
}
