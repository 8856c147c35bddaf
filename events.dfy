/**
 * The client's event emitter: a registry from event names to the ordered list of listeners
 * registered under each name. Listeners are identified by reference, as `!==` compares them;
 * a listener's own effects are not modelled, only which listeners `emit` calls and in what order.
 */
module ClientEvents {

  /** The identity of a callback function object. */
  type Callback = nat

  /** The listeners registered under `name`, in registration order; none for an unknown name. */
  function Listeners(registry: map<string, seq<Callback>>, name: string): seq<Callback> {
    if name in registry then registry[name] else []
  }

  /** `list.filter(x => x !== callback)`. */
  function Without(list: seq<Callback>, callback: Callback): (r: seq<Callback>)
    ensures callback !in r
    ensures |r| == |list| - multiset(list)[callback]
    ensures forall x :: x != callback ==> multiset(r)[x] == multiset(list)[x]
  {
    if list == [] then []
    else
      assert list == [list[0]] + list[1..];
      if list[0] == callback then Without(list[1..], callback)
      else [list[0]] + Without(list[1..], callback)
  }

  /** Filtering keeps the relative order of what it keeps: it distributes over concatenation. */
  lemma {:induction false} WithoutDistributes(a: seq<Callback>, b: seq<Callback>, callback: Callback)
    ensures Without(a + b, callback) == Without(a, callback) + Without(b, callback)
  {
    if a != [] {
      var ab := a + b;
      assert ab[1..] == a[1..] + b && ab[0] == a[0];
      WithoutDistributes(a[1..], b, callback);
      WithoutStep(ab, callback);
      WithoutStep(a, callback);
    } else {
      assert a + b == b;
    }
  }

  /** One step of the filter: the head is kept unless it is the removed callback. */
  lemma WithoutStep(list: seq<Callback>, callback: Callback)
    requires list != []
    ensures Without(list, callback)
      == (if list[0] == callback then [] else [list[0]]) + Without(list[1..], callback)
  {
  }

  /** Removing a callback that is not registered changes nothing. */
  lemma {:induction false} WithoutAbsent(list: seq<Callback>, callback: Callback)
    requires callback !in list
    ensures Without(list, callback) == list
  {
    if list != [] {
      WithoutAbsent(list[1..], callback);
      assert list == [list[0]] + list[1..];
    }
  }

  class Events {
    var eventListeners: map<string, seq<Callback>>

    constructor ()
      ensures eventListeners == map[]
    {
      eventListeners := map[];
    }

    /** Calls the listeners of `name` once each, in registration order; returns the calls made. */
    method Emit(name: string) returns (calls: seq<Callback>)
      ensures calls == Listeners(eventListeners, name)
    {
      calls := [];
      if name in eventListeners {
        var i := 0;
        while i < |eventListeners[name]|
          invariant 0 <= i <= |eventListeners[name]|
          invariant calls == eventListeners[name][..i]
        {
          calls := calls + [eventListeners[name][i]];
          i := i + 1;
        }
        assert eventListeners[name][..i] == eventListeners[name];
      }
    }

    /** Appends `callback` to the list of `name`, creating the list if needed; no deduplication. */
    method On(name: string, callback: Callback)
      modifies this
      ensures eventListeners == old(eventListeners)[name := Listeners(old(eventListeners), name) + [callback]]
      ensures multiset(Listeners(eventListeners, name))[callback]
        == multiset(Listeners(old(eventListeners), name))[callback] + 1
      ensures forall n :: n != name ==> Listeners(eventListeners, n) == Listeners(old(eventListeners), n)
    {
      if name !in eventListeners {
        eventListeners := eventListeners[name := []];
      }
      eventListeners := eventListeners[name := eventListeners[name] + [callback]];
    }

    /** Removes every occurrence of `callback` under `name`, keeping the others in order. */
    method Off(name: string, callback: Callback)
      modifies this
      ensures name in old(eventListeners) ==>
        eventListeners == old(eventListeners)[name := Without(old(eventListeners)[name], callback)]
      ensures name !in old(eventListeners) ==> eventListeners == old(eventListeners)
      ensures callback !in Listeners(eventListeners, name)
      ensures forall n :: n != name ==> Listeners(eventListeners, n) == Listeners(old(eventListeners), n)
    {
      if name in eventListeners {
        eventListeners := eventListeners[name := Without(eventListeners[name], callback)];
      }
    }
  }
}
