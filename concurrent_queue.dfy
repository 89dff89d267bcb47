/** The sample queue between producers and the publisher thread, with its
    locking and waiting removed: each call is one atomic step on the item
    sequence, front first. */
module ConcurrentQueue {

  class ConcurrentQueue<T> {
    /** The queued items, front first. */
    var items: seq<T>

    constructor()
      ensures items == []
    {
      items := [];
    }

    /** The number of queued items. */
    function Size(): nat
      reads this
    {
      |items|
    }

    /** Adds an item at the back. */
    method Push(item: T)
      modifies this
      ensures items == old(items) + [item]
      ensures Size() == old(Size()) + 1
    {
      items := items + [item];
    }

    /** Takes the front item. The source blocks until an item is there; here
        the caller must ensure there is one. */
    method Pop() returns (item: T)
      requires items != []
      modifies this
      ensures item == old(items)[0]
      ensures items == old(items)[1..]
      ensures Size() == old(Size()) - 1
    {
      item := items[0];
      items := items[1..];
    }
  }

  /** Items pushed one after another come out in the same order: the queue is
      first in, first out. */
  method PushThenPopAll<T>(ms: seq<T>) returns (out: seq<T>)
    ensures out == ms
  {
    var q := new ConcurrentQueue<T>();
    var i := 0;
    while i < |ms|
      invariant 0 <= i <= |ms|
      invariant q.items == ms[..i]
    {
      assert ms[..i + 1] == ms[..i] + [ms[i]];
      q.Push(ms[i]);
      i := i + 1;
    }
    assert ms[..i] == ms;
    out := [];
    while q.Size() > 0
      invariant out + q.items == ms
      decreases |q.items|
    {
      ghost var before := q.items;
      var x := q.Pop();
      assert before == [x] + q.items;
      out := out + [x];
    }
  }
}
