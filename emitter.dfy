/** The `EventEmitter` of the class-based front end: a dictionary from event
    name to the ordered list of callbacks subscribed to it. Callbacks are
    JavaScript functions compared by identity (`!==`); here they are values of
    a type `C` compared with `==`. Calling a callback is foreign code, so
    `Emit` returns the calls it makes, in order, instead of making them. */
module Emitter {
  import opened Seqs

  /** `list.filter((eventCallback) => callback !== eventCallback)`. */
  function Without<C(==)>(list: seq<C>, callback: C): (r: seq<C>)
    ensures callback !in r
  {
    Select(list, (c: C) => c != callback)
  }

  /** Unsubscribing drops every occurrence of the callback and keeps all
      other entries, each as often as before and in subscription order. */
  lemma WithoutIsExact<C>(list: seq<C>, callback: C)
    ensures IsSubsequence(Without(list, callback), list)
    ensures forall c :: multiset(Without(list, callback))[c] == if c != callback then multiset(list)[c] else 0
  {
    SelectIsExact(list, (c: C) => c != callback);
  }

  /** Unsubscribing a callback that was never subscribed changes nothing. */
  lemma WithoutAbsent<C>(list: seq<C>, callback: C)
    requires callback !in list
    ensures Without(list, callback) == list
  {
    SelectKeepsAll(list, (c: C) => c != callback);
  }

  /** One call made by `emit`: the listener and the arguments passed to it. */
  datatype Call<C, A> = Call(listener: C, args: A)

  class EventEmitter<C(==)> {
    /** `this.events`; a name without an entry is one never subscribed to. */
    var events: map<string, seq<C>>

    constructor ()
      ensures events == map[]
    {
      events := map[];
    }

    /** The callbacks of `eventName` in subscription order (none if unseen). */
    function Listeners(eventName: string): (r: seq<C>)
      reads this
      ensures eventName !in events ==> r == []
      ensures eventName in events ==> r == events[eventName]
    {
      if eventName in events then events[eventName] else []
    }

    /** `subscribe`: an unseen name first gets an empty list, then the callback
        is pushed at the end of the name's list; other names are untouched. */
    method Subscribe(eventName: string, callback: C)
      modifies this
      ensures events == old(events)[eventName := old(Listeners(eventName)) + [callback]]
    {
      if eventName !in events {
        events := events[eventName := []];
      }
      events := events[eventName := events[eventName] + [callback]];
    }

    /** `unsubscribe`: every entry equal to the callback leaves the name's
        list. On a name never subscribed to the source reads `.filter` of
        `undefined` and throws a TypeError; `ok` is false then, and nothing
        changes. */
    method Unsubscribe(eventName: string, callback: C) returns (ok: bool)
      modifies this
      ensures ok <==> eventName in old(events)
      ensures ok ==> events == old(events)[eventName := Without(old(events)[eventName], callback)]
      ensures !ok ==> events == old(events)
    {
      if eventName !in events {
        return false;
      }
      events := events[eventName := Without(events[eventName], callback)];
      return true;
    }

    /** `emit`: every listener of the name is called with `args`, once per
        subscription and in subscription order; an unknown name calls nothing. */
    method Emit<A>(eventName: string, args: A) returns (calls: seq<Call<C, A>>)
      ensures |calls| == |Listeners(eventName)|
      ensures forall i :: 0 <= i < |calls| ==> calls[i] == Call(Listeners(eventName)[i], args)
    {
      calls := [];
      if eventName in events {
        var listeners := events[eventName];
        for i := 0 to |listeners|
          invariant |calls| == i
          invariant forall j :: 0 <= j < i ==> calls[j] == Call(listeners[j], args)
        {
          calls := calls + [Call(listeners[i], args)];
        }
      }
    }
  }
}
