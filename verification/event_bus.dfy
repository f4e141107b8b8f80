/** The front end's typed publish/subscribe bus (chatbot_ui/src/hooks/event-bus.ts).
    A JavaScript `Set` keeps its elements in insertion order, so each event's subscribers are a
    sequence without repetitions; callbacks are compared by identity, modelled as numbers. */
module EventBus {
  type Callback = nat
  type EventName = string

  predicate NoDuplicates(s: seq<Callback>) {
    forall i, j :: 0 <= i < j < |s| ==> s[i] != s[j]
  }

  /** The `subscribers` object: an event has a key only while it has subscribers. */
  type Bus = map<EventName, seq<Callback>>

  predicate Valid(bus: Bus) {
    forall e :: e in bus ==> bus[e] != [] && NoDuplicates(bus[e])
  }

  /** The subscribers of an event, empty when it has no key. */
  function Subscribers(bus: Bus, e: EventName): seq<Callback> {
    if e in bus then bus[e] else []
  }

  /** `Set.prototype.add`: appended unless already present, where it keeps its place. */
  function SetAdd(s: seq<Callback>, cb: Callback): (r: seq<Callback>)
    requires NoDuplicates(s)
    ensures NoDuplicates(r)
    ensures forall x :: x in r <==> x in s || x == cb
    ensures cb in s ==> r == s
    ensures cb !in s ==> r == s + [cb]
  {
    if cb in s then s else s + [cb]
  }

  /** `Set.prototype.delete`: the element is removed, the others keep their order. */
  function SetDelete(s: seq<Callback>, cb: Callback): (r: seq<Callback>)
    requires NoDuplicates(s)
    ensures NoDuplicates(r)
    ensures forall x :: x in r <==> x in s && x != cb
    ensures cb !in s ==> r == s
    ensures |r| == if cb in s then |s| - 1 else |s|
  {
    if s == [] then []
    else if s[0] == cb then
      assert forall j :: 0 < j < |s| ==> s[j] != s[0];
      s[1..]
    else
      var rest := SetDelete(s[1..], cb);
      assert s[0] !in s[1..] by {
        assert forall j :: 0 <= j < |s| - 1 ==> s[1..][j] == s[j + 1] != s[0];
      }
      [s[0]] + rest
  }

  /** Deleting the element at index `i` closes the gap there: the others keep their order. */
  lemma {:induction false} SetDeleteAt(s: seq<Callback>, i: nat)
    requires NoDuplicates(s) && i < |s|
    ensures SetDelete(s, s[i]) == s[..i] + s[i + 1..]
    decreases i
  {
    if i == 0 {
      assert s[..0] + s[1..] == s[1..];
    } else {
      var tail := s[1..];
      assert NoDuplicates(tail) by {
        assert forall a, b :: 0 <= a < b < |tail| ==> tail[a] == s[a + 1] && tail[b] == s[b + 1];
      }
      assert tail[i - 1] == s[i] && s[0] != s[i];
      SetDeleteAt(tail, i - 1);
      assert s[..i] == [s[0]] + tail[..i - 1];
      assert s[i + 1..] == tail[i..];
    }
  }

  /** `on(eventName, callback)`: the event's set is created if missing and the callback added. */
  function On(bus: Bus, e: EventName, cb: Callback): (r: Bus)
    requires Valid(bus)
    ensures Valid(r)
    ensures cb in Subscribers(r, e)
    ensures forall x :: x in Subscribers(r, e) <==> x in Subscribers(bus, e) || x == cb
    ensures forall other :: other != e ==> Subscribers(r, other) == Subscribers(bus, other)
    ensures r.Keys == bus.Keys + {e}
  {
    bus[e := SetAdd(Subscribers(bus, e), cb)]
  }

  /** Subscribing the same callback twice is the same as subscribing it once. */
  lemma OnIdempotent(bus: Bus, e: EventName, cb: Callback)
    requires Valid(bus)
    ensures On(On(bus, e, cb), e, cb) == On(bus, e, cb)
  {
  }

  /** The function returned by `on`: the callback is deleted from the event's set, and the
      key is removed when the set becomes empty. */
  function Unsubscribe(bus: Bus, e: EventName, cb: Callback): (r: Bus)
    requires Valid(bus)
    ensures Valid(r)
    ensures cb !in Subscribers(r, e)
    ensures forall x :: x in Subscribers(r, e) <==> x in Subscribers(bus, e) && x != cb
    ensures forall other :: other != e ==> Subscribers(r, other) == Subscribers(bus, other)
    ensures e in r <==> e in bus && Subscribers(bus, e) != [cb]
  {
    if e !in bus then bus
    else
      var remaining := SetDelete(bus[e], cb);
      if |remaining| == 0 then bus - {e} else bus[e := remaining]
  }

  /** Calling the returned function a second time changes nothing. */
  lemma UnsubscribeIdempotent(bus: Bus, e: EventName, cb: Callback)
    requires Valid(bus)
    ensures Unsubscribe(Unsubscribe(bus, e, cb), e, cb) == Unsubscribe(bus, e, cb)
  {
    var once := Unsubscribe(bus, e, cb);
    if e in once {
      assert cb !in once[e];
    }
  }

  /** Unsubscribing undoes subscribing a callback that was not yet subscribed. */
  lemma UnsubscribeUndoesOn(bus: Bus, e: EventName, cb: Callback)
    requires Valid(bus) && cb !in Subscribers(bus, e)
    ensures Unsubscribe(On(bus, e, cb), e, cb) == bus
  {
    var s := Subscribers(bus, e);
    var added := On(bus, e, cb);
    assert added == bus[e := s + [cb]];
    assert SetDelete(s + [cb], cb) == s by {
      DeleteLast(s, cb);
    }
    if e in bus {
      assert Unsubscribe(added, e, cb) == bus[e := s];
    } else {
      assert Unsubscribe(added, e, cb) == bus[e := s + [cb]] - {e};
    }
  }

  lemma {:induction false} DeleteLast(s: seq<Callback>, cb: Callback)
    requires NoDuplicates(s) && cb !in s
    ensures NoDuplicates(s + [cb]) && SetDelete(s + [cb], cb) == s
  {
    if s != [] {
      DeleteLast(s[1..], cb);
      assert (s + [cb])[1..] == s[1..] + [cb];
    }
  }

  // ---------------------------------------------------------------- emit

  /** One callback invocation with the emitted payload. */
  datatype Call<P> = Call(callback: Callback, payload: P)

  /** The message logged for a callback that throws. */
  function HandlerError(e: EventName): string {
    "Error in event handler for " + e
  }

  /** The errors logged when the callbacks `subs` run and those in `throws` throw. */
  function ErrorsOf(subs: seq<Callback>, throws: Callback -> bool, e: EventName): (r: seq<string>)
    ensures |r| <= |subs|
  {
    if subs == [] then []
    else (if throws(subs[0]) then [HandlerError(e)] else []) + ErrorsOf(subs[1..], throws, e)
  }

  /** `emit(eventName, payload)`: every subscriber of the event is called once with the
      payload, in subscription order; a throw is logged and the remaining callbacks still run.
      Which callbacks throw is a parameter. */
  method Emit<P>(bus: Bus, e: EventName, payload: P, throws: Callback -> bool)
    returns (calls: seq<Call<P>>, logged: seq<string>)
    requires Valid(bus)
    ensures |calls| == |Subscribers(bus, e)|
    ensures forall i :: 0 <= i < |calls| ==> calls[i] == Call(Subscribers(bus, e)[i], payload)
    ensures logged == ErrorsOf(Subscribers(bus, e), throws, e)
    ensures e !in bus ==> calls == [] && logged == []
  {
    calls := [];
    logged := [];
    var subs := Subscribers(bus, e);
    for i := 0 to |subs|
      invariant |calls| == i
      invariant forall k :: 0 <= k < i ==> calls[k] == Call(subs[k], payload)
      invariant logged + ErrorsOf(subs[i..], throws, e) == ErrorsOf(subs, throws, e)
    {
      assert subs[i..] == [subs[i]] + subs[i + 1..];
      calls := calls + [Call(subs[i], payload)];
      if throws(subs[i]) {
        logged := logged + [HandlerError(e)];
      }
    }
  }

  /** Each subscriber is called exactly once: the callbacks of the calls are the subscribers,
      with no repetition. */
  lemma EmitCallsEachOnce<P>(bus: Bus, e: EventName, payload: P, calls: seq<Call<P>>)
    requires Valid(bus)
    requires |calls| == |Subscribers(bus, e)|
    requires forall i :: 0 <= i < |calls| ==> calls[i] == Call(Subscribers(bus, e)[i], payload)
    ensures forall cb :: cb in Subscribers(bus, e) <==> exists i :: 0 <= i < |calls| && calls[i].callback == cb
    ensures forall i, j :: 0 <= i < j < |calls| ==> calls[i].callback != calls[j].callback
  {
  }

  /** With no throwing callback nothing is logged. */
  lemma {:induction false} NoThrowNoLog(subs: seq<Callback>, throws: Callback -> bool, e: EventName)
    requires forall cb :: cb in subs ==> !throws(cb)
    ensures ErrorsOf(subs, throws, e) == []
  {
    if subs != [] {
      assert subs[0] in subs;
      assert forall cb :: cb in subs[1..] ==> cb in subs;
      NoThrowNoLog(subs[1..], throws, e);
    }
  }
}
