/**
 * The client's `throttle` helper: the returned function runs the callback only when it is not
 * locked, locks itself, and schedules one timer that unlocks it after `time` milliseconds.
 * Time is not modelled; the timer's expiry is an explicit event.
 */
module Timing {

  /** One closure returned by `throttle(time, callback)`. */
  class Throttled {
    const time: int
    var locked: bool
    /** Timers scheduled by `play` that have not fired yet. */
    ghost var pendingTimers: nat
    /** How often the callback has run, and how many unlock timers have fired. */
    ghost var callbackRuns: nat
    ghost var timersFired: nat

    ghost predicate Valid()
      reads this
    {
      && pendingTimers <= 1
      && (pendingTimers == 1 ==> locked)
      && callbackRuns == timersFired + (if locked then 1 else 0)
    }

    /**
     * Locked with no unlock timer pending: the callback threw before `setTimeout` was reached,
     * and nothing will unlock the function again.
     */
    ghost predicate Stuck()
      reads this
    {
      locked && pendingTimers == 0
    }

    constructor (time: int)
      ensures Valid() && this.time == time
      ensures !locked && callbackRuns == 0 && timersFired == 0 && pendingTimers == 0
    {
      this.time := time;
      locked := false;
      pendingTimers, callbackRuns, timersFired := 0, 0, 0;
    }

    /**
     * A call of the throttled function (`play`): runs the callback only when unlocked. The lock
     * is taken before the callback runs, and the unlock timer is scheduled after it returns, so
     * a callback that throws (`throws`) leaves the function locked for good.
     */
    method Play(throws: bool) returns (ran: bool, thrown: bool)
      requires Valid()
      modifies this
      ensures Valid()
      ensures ran == !old(locked)
      ensures thrown <==> ran && throws
      ensures locked
      ensures callbackRuns == old(callbackRuns) + (if ran then 1 else 0)
      ensures pendingTimers == old(pendingTimers) + (if ran && !throws then 1 else 0)
      ensures timersFired == old(timersFired)
      ensures callbackRuns <= timersFired + 1
      ensures thrown ==> Stuck()
      ensures old(Stuck()) ==> !ran && Stuck()
    {
      ran := !locked;
      thrown := false;
      if ran {
        locked := true;
        callbackRuns := callbackRuns + 1;
        if throws {
          thrown := true;
        } else {
          // the unlock timer is scheduled only once the callback has returned
          pendingTimers := pendingTimers + 1;
        }
      }
    }

    /** The scheduled `setTimeout` callback fires; it can only fire once it has been scheduled. */
    method TimerFires()
      requires Valid() && pendingTimers > 0
      modifies this
      ensures Valid()
      ensures !locked && pendingTimers == 0
      ensures timersFired == old(timersFired) + 1 && callbackRuns == old(callbackRuns)
      ensures callbackRuns == timersFired
    {
      locked := false;
      pendingTimers := pendingTimers - 1;
      timersFired := timersFired + 1;
    }
  }
}
