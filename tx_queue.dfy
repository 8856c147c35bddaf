/**
 * The FIFO lock queue built next to the SQLite connection; the table code creates it but never
 * takes the lock, so nothing is serialised through it yet. Callers are identified
 * by tickets numbered in arrival order. The asynchronous drain loop of `acquireLock` is modelled
 * as a sequential state machine: `Acquire` is a call of `acquireLock`, `Release` a call of the
 * `release` function of a granted lock, and `index` is the loop variable `i`. There is no timeout.
 */
module TxQueue {
  import opened Eav

  class Sqlite3Queue {
    var locked: bool
    /** The callbacks pushed since the queue was last idle, as tickets. */
    var queue: seq<nat>
    /** The position in `queue` of the current lock holder while the drain loop runs. */
    var index: nat
    /** The ticket of the next `acquireLock` call. */
    var nextTicket: nat
    /** Every grant made so far, in order. */
    ghost var granted: seq<nat>

    ghost predicate Valid()
      reads this
    {
      && (locked ==> index < |queue|)
      && (!locked ==> queue == [] && index == 0)
      && |queue| <= nextTicket
      && (forall j :: 0 <= j < |queue| ==> queue[j] == nextTicket - |queue| + j)
      && |granted| == nextTicket - |queue| + (if locked then index + 1 else 0)
      && (forall j :: 0 <= j < |granted| ==> granted[j] == j)
    }

    /** The ticket that currently holds the lock, if any. */
    function Holder(): (h: Option<nat>)
      reads this
      requires Valid()
      ensures h.Some? <==> locked
      ensures h.Some? ==> h.value == |granted| - 1 && h.value < nextTicket
    {
      if locked then Some(queue[index]) else None
    }

    constructor ()
      ensures Valid() && !locked && queue == [] && nextTicket == 0 && granted == []
    {
      locked, queue, index, nextTicket := false, [], 0, 0;
      granted := [];
    }

    /**
     * `acquireLock`: the caller's callback is pushed; on an idle queue the drain loop starts and
     * grants it at once, otherwise the running loop will reach it.
     */
    method Acquire() returns (ticket: nat)
      requires Valid()
      modifies this
      ensures Valid()
      ensures ticket == old(nextTicket) && nextTicket == old(nextTicket) + 1
      ensures queue == old(queue) + [ticket]
      ensures locked
      ensures !old(locked) ==> index == 0 && Holder() == Some(ticket) && granted == old(granted) + [ticket]
      ensures old(locked) ==> index == old(index) && granted == old(granted)
    {
      ticket := nextTicket;
      nextTicket := nextTicket + 1;
      queue := queue + [ticket];
      if !locked {
        locked := true;
        index := 0;
        granted := granted + [ticket];
      }
    }

    /**
     * The `release` of the lock granted to `ticket`: only the holder's release resumes the loop,
     * which grants the next queued caller or, past the end of the queue, goes idle and empties it.
     * A release of a lock that was already released resolves a settled promise and does nothing.
     */
    method Release(ticket: nat)
      requires Valid() && ticket < |granted|
      modifies this
      ensures Valid() && nextTicket == old(nextTicket)
      ensures old(Holder()) != Some(ticket) ==>
        locked == old(locked) && queue == old(queue) && index == old(index) && granted == old(granted)
      ensures old(Holder()) == Some(ticket) && old(index) + 1 < |old(queue)| ==>
        && locked && queue == old(queue) && index == old(index) + 1
        && granted == old(granted) + [old(queue)[old(index) + 1]]
      ensures old(Holder()) == Some(ticket) && old(index) + 1 == |old(queue)| ==>
        !locked && queue == [] && index == 0 && granted == old(granted)
    {
      if locked && queue[index] == ticket {
        index := index + 1;
        if index < |queue| {
          granted := granted + [queue[index]];
        } else {
          locked := false;
          queue := [];
          index := 0;
        }
      }
    }
  }
}
