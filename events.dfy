/** Listener lists: `GlobalEvent<T>` (one static list per payload type),
    `Event<T>` and `Event<void>`. A listener is an opaque callable; the model
    keeps the two things the code can observe about it: the type of the
    stored callable and the callable's identity. Calling a listener is
    recorded in a call trace, and whether it throws is a parameter. */
module Events {
  datatype Listener = Listener(targetType: nat, target: nat)

  /** The listeners `matches` does not select, in their original order. */
  function Removed(ls: seq<Listener>, matches: Listener -> bool): (r: seq<Listener>)
    ensures |r| <= |ls|
    decreases |ls|
  {
    if ls == [] then []
    else
      var last := ls[|ls| - 1];
      Removed(ls[..|ls| - 1], matches) + (if matches(last) then [] else [last])
  }

  /** What remains is exactly the listeners not selected. */
  lemma {:induction false} RemovedMembers(ls: seq<Listener>, matches: Listener -> bool)
    ensures forall x :: x in Removed(ls, matches) <==> x in ls && !matches(x)
    decreases |ls|
  {
    if ls != [] {
      var init := ls[..|ls| - 1];
      RemovedMembers(init, matches);
      assert ls == init + [ls[|ls| - 1]];
    }
  }

  /** Removing keeps the order: removal distributes over concatenation. */
  lemma {:induction false} RemovedConcat(a: seq<Listener>, b: seq<Listener>, matches: Listener -> bool)
    ensures Removed(a + b, matches) == Removed(a, matches) + Removed(b, matches)
    decreases |b|
  {
    if b != [] {
      var init := b[..|b| - 1];
      assert (a + b)[..|a + b| - 1] == a + init;
      RemovedConcat(a, init, matches);
    } else {
      assert a + b == a;
    }
  }

  /** The listeners called when each may throw and a throw ends the loop:
      every one up to and including the first that throws. */
  function UntilThrow(ls: seq<Listener>, throws: Listener -> bool): seq<Listener>
    decreases |ls|
  {
    if ls == [] then []
    else if throws(ls[0]) then [ls[0]]
    else [ls[0]] + UntilThrow(ls[1..], throws)
  }

  /** When none throws, every listener is called. */
  lemma {:induction false} UntilNoThrow(ls: seq<Listener>, throws: Listener -> bool)
    requires forall k :: 0 <= k < |ls| ==> !throws(ls[k])
    ensures UntilThrow(ls, throws) == ls
    decreases |ls|
  {
    if ls != [] {
      assert forall k :: 0 <= k < |ls| - 1 ==> ls[1..][k] == ls[k + 1];
      UntilNoThrow(ls[1..], throws);
    }
  }

  /** Otherwise the calls end with the first that throws. */
  lemma {:induction false} UntilFirstThrow(ls: seq<Listener>, throws: Listener -> bool, i: nat)
    requires i < |ls| && throws(ls[i]) && forall k :: 0 <= k < i ==> !throws(ls[k])
    ensures UntilThrow(ls, throws) == ls[..i + 1]
    decreases i
  {
    if i > 0 {
      assert forall k :: 0 <= k < i - 1 ==> ls[1..][k] == ls[k + 1];
      UntilFirstThrow(ls[1..], throws, i - 1);
      assert ls[..i + 1] == [ls[0]] + ls[1..][..i];
    }
  }

  /** `std::ranges::remove`: the kept listeners are moved to the front in
      order; the length stays and what lies after them is unspecified. */
  method RangesRemove(ls: seq<Listener>, matches: Listener -> bool) returns (r: seq<Listener>, kept: nat)
    ensures |r| == |ls| && kept <= |r|
    ensures r[..kept] == Removed(ls, matches)
  {
    r := ls;
    kept := 0;
    var j := 0;
    while j < |ls|
      invariant 0 <= kept <= j <= |ls| && |r| == |ls|
      invariant r[..kept] == Removed(ls[..j], matches)
    {
      assert ls[..j + 1][..j] == ls[..j];
      if !matches(ls[j]) {
        r := r[kept := ls[j]];
        kept := kept + 1;
      }
      j := j + 1;
    }
    assert ls[..j] == ls;
  }

  /** The loop that calls every listener in order and stops at the first
      exception, which goes on to the caller. */
  method CallUntilThrow(ls: seq<Listener>, throws: Listener -> bool) returns (calls: seq<Listener>, thrown: bool)
    ensures calls == UntilThrow(ls, throws)
    ensures thrown <==> exists k :: 0 <= k < |ls| && throws(ls[k])
  {
    calls := [];
    var i := 0;
    while i < |ls|
      invariant 0 <= i <= |ls|
      invariant calls == ls[..i]
      invariant forall k :: 0 <= k < i ==> !throws(ls[k])
    {
      calls := calls + [ls[i]];
      if throws(ls[i]) {
        assert calls == ls[..i + 1];
        UntilFirstThrow(ls, throws, i);
        return calls, true;
      }
      i := i + 1;
    }
    assert ls[..i] == ls;
    UntilNoThrow(ls, throws);
    thrown := false;
  }

  /** The exceptions caught while calling: the listeners that threw. */
  function Failed(ls: seq<Listener>, throws: Listener -> bool): seq<Listener> {
    Removed(ls, x => !throws(x))
  }

  /** The static list of one payload type. */
  class GlobalEvent {
    var listeners: seq<Listener>

    constructor()
      ensures listeners == []
    {
      listeners := [];
    }

    method AddListener(listener: Listener)
      modifies this
      ensures listeners == old(listeners) + [listener]
    {
      listeners := listeners + [listener];
    }

    /** The result of `std::ranges::remove` is dropped: nothing is erased. */
    method RemoveListener(listener: Listener)
      modifies this
      ensures |listeners| == |old(listeners)|
      ensures listeners[..|Removed(old(listeners), SameListener(listener))|] == Removed(old(listeners), SameListener(listener))
    {
      var kept;
      listeners, kept := RangesRemove(listeners, SameListener(listener));
    }

    /** Every listener is called, in order; one that throws is logged and the
        loop goes on with the next. */
    method Invoke(throws: Listener -> bool) returns (calls: seq<Listener>, logged: seq<Listener>)
      ensures calls == listeners
      ensures logged == Failed(listeners, throws)
    {
      calls := [];
      logged := [];
      var i := 0;
      while i < |listeners|
        invariant 0 <= i <= |listeners|
        invariant calls == listeners[..i]
        invariant logged == Failed(listeners[..i], throws)
      {
        assert listeners[..i + 1][..i] == listeners[..i];
        calls := calls + [listeners[i]];
        if throws(listeners[i]) {
          logged := logged + [listeners[i]];
        }
        i := i + 1;
      }
      assert listeners[..i] == listeners;
    }
  }

  /** `Event<T>`; `+=` and `-=` are `AddListener` and `RemoveListener`. */
  class Event {
    var listeners: seq<Listener>

    constructor()
      ensures listeners == []
    {
      listeners := [];
    }

    method AddListener(listener: Listener)
      modifies this
      ensures listeners == old(listeners) + [listener]
    {
      listeners := listeners + [listener];
    }

    method RemoveListener(listener: Listener)
      modifies this
      ensures |listeners| == |old(listeners)|
      ensures listeners[..|Removed(old(listeners), SameListener(listener))|] == Removed(old(listeners), SameListener(listener))
    {
      var kept;
      listeners, kept := RangesRemove(listeners, SameListener(listener));
    }

    /** A throwing listener ends the loop and the exception propagates. */
    method Invoke(throws: Listener -> bool) returns (calls: seq<Listener>, thrown: bool)
      ensures calls == UntilThrow(listeners, throws)
      ensures thrown <==> exists k :: 0 <= k < |listeners| && throws(listeners[k])
    {
      calls, thrown := CallUntilThrow(listeners, throws);
    }
  }

  /** The `Event<void>` removal test as written: `target<void()>()` and
      `target<void>()` never find a target of those types and both yield a
      null pointer, so only the callable types are compared. */
  function SameTargetType(listener: Listener): Listener -> bool {
    (x: Listener) => x.targetType == listener.targetType
  }

  /** The test the removal evidently means: the same callable. */
  function SameListener(listener: Listener): Listener -> bool {
    (x: Listener) => x == listener
  }

  /** `Event<void>`; `+=` and `-=` are `AddListener` and `RemoveListener`. */
  class VoidEvent {
    var listeners: seq<Listener>

    constructor()
      ensures listeners == []
    {
      listeners := [];
    }

    method AddListener(listener: Listener)
      modifies this
      ensures listeners == old(listeners) + [listener]
    {
      listeners := listeners + [listener];
    }

    /** Erase-remove as written: drops every listener whose callable has the
        same type. */
    method RemoveListener(listener: Listener)
      modifies this
      ensures listeners == Removed(old(listeners), SameTargetType(listener))
    {
      var r, kept := RangesRemove(listeners, SameTargetType(listener));
      listeners := r[..kept];
    }

    /** Erase-remove of exactly the given callable. */
    method RemoveSameListener(listener: Listener)
      modifies this
      ensures listeners == Removed(old(listeners), SameListener(listener))
    {
      var r, kept := RangesRemove(listeners, SameListener(listener));
      listeners := r[..kept];
    }

    method Invoke(throws: Listener -> bool) returns (calls: seq<Listener>, thrown: bool)
      ensures calls == UntilThrow(listeners, throws)
      ensures thrown <==> exists k :: 0 <= k < |listeners| && throws(listeners[k])
    {
      calls, thrown := CallUntilThrow(listeners, throws);
    }
  }

  /** Removing exactly the added callable undoes adding it, when it was not
      registered before. */
  lemma AddThenRemoveSame(ls: seq<Listener>, l: Listener)
    requires l !in ls
    ensures Removed(ls + [l], SameListener(l)) == ls
  {
    RemovedConcat(ls, [l], SameListener(l));
    RemovedNoneMatch(ls, SameListener(l));
    assert [l][..0] == [];
  }

  lemma {:induction false} RemovedNoneMatch(ls: seq<Listener>, matches: Listener -> bool)
    requires forall k :: 0 <= k < |ls| ==> !matches(ls[k])
    ensures Removed(ls, matches) == ls
    decreases |ls|
  {
    if ls != [] {
      var init := ls[..|ls| - 1];
      RemovedNoneMatch(init, matches);
      assert ls == init + [ls[|ls| - 1]];
    }
  }

  /** As written, removing one plain function also removes every other plain
      function: two function pointers share their callable type. */
  lemma RemoveByTypeDropsOthers()
    ensures Removed([Listener(0, 1), Listener(0, 2)], SameTargetType(Listener(0, 1))) == []
    ensures Removed([Listener(0, 1), Listener(0, 2)], SameListener(Listener(0, 1))) == [Listener(0, 2)]
  {
    var ls := [Listener(0, 1), Listener(0, 2)];
    assert ls[..1] == [Listener(0, 1)];
    assert ls[..1][..0] == [];
  }
}
