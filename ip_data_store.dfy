/** The client's list of tracked server addresses (`IpDataStore`): kept in a
    store persisted under `tracked-ips`, reset to "disconnected" on load,
    grown by `addIp`, shrunk by `removeIp`, walked by its iterator and used to
    send a configuration message to every connected server. The same class
    exists twice in the client, with different default entries. */
module IpDataStore {
  import opened Common
  import opened Fields

  datatype ConnectionState = Disconnected | Connecting | Connected

  /** A `WebSocket` as the store sees it: its identity, and whether the
      object has a `send` member. */
  datatype SocketRef = SocketRef(id: nat, hasSend: bool)

  /** One tracked address. `socket` is `Socket`, `None` for `null`. */
  datatype IpData = IpData(ipAddress: Text, isEnabled: bool, connectionState: ConnectionState, socket: Option<SocketRef>)

  /** A `ConfigMessage`. */
  datatype ConfigMessage = ConfigMessage(key: Text, value: Text)

  /** One `socket.send(text)` call. */
  datatype Send = Send(socket: nat, text: Text)

  const Separator: Char8 := ';'

  /** The entries used when nothing is stored yet, in `IpDataStore.ts`. */
  const Defaults: seq<IpData> := [
    IpData("127.0.0.1", true, Disconnected, None),
    IpData("::1", true, Disconnected, None)
  ]

  /** The entries used when nothing is stored yet, in the copy in `store.ts`. */
  const StoreDefaults: seq<IpData> := [
    IpData("192.168.1.2", true, Disconnected, None),
    IpData("192.168.3.123", true, Connecting, None),
    IpData("2001:0:130F::09C0:876A:130B", false, Connected, None)
  ]

  /** `UseLocalStorage`: the stored list if there is one, else the defaults. */
  function Loaded(stored: Option<seq<IpData>>, defaults: seq<IpData>): (r: seq<IpData>)
    ensures stored.None? ==> r == defaults
    ensures stored.Some? ==> r == stored.value
  {
    if stored.Some? then stored.value else defaults
  }

  predicate AllDisconnected(ips: seq<IpData>) {
    forall i :: 0 <= i < |ips| ==> ips[i].connectionState == Disconnected
  }

  /** The two lists hold the same entries except, possibly, their states. */
  predicate SameButState(a: seq<IpData>, b: seq<IpData>) {
    |a| == |b| &&
    forall i :: 0 <= i < |a| ==> a[i].(connectionState := Disconnected) == b[i].(connectionState := Disconnected)
  }

  /** `ClearConnectionState`: the `forEach` that sets every entry to
      `Disconnected`. */
  method ClearConnectionState(ips: seq<IpData>) returns (r: seq<IpData>)
    ensures AllDisconnected(r)
    ensures SameButState(r, ips)
  {
    r := ips;
    var i := 0;
    while i < |r|
      invariant 0 <= i <= |r| == |ips|
      invariant forall k :: 0 <= k < i ==> r[k] == ips[k].(connectionState := Disconnected)
      invariant forall k :: i <= k < |r| ==> r[k] == ips[k]
    {
      r := r[i := r[i].(connectionState := Disconnected)];
      i := i + 1;
    }
  }

  /** Clearing twice gives what clearing once gives: the entries are
      determined by the other fields alone. */
  lemma ClearedAreDetermined(a: seq<IpData>, b: seq<IpData>, ips: seq<IpData>)
    requires AllDisconnected(a) && SameButState(a, ips)
    requires AllDisconnected(b) && SameButState(b, ips)
    ensures a == b
  {
    assert forall i :: 0 <= i < |a| ==> a[i] == a[i].(connectionState := Disconnected);
    assert forall i :: 0 <= i < |b| ==> b[i] == b[i].(connectionState := Disconnected);
  }

  /** `ips.find(x => x.IpAddress === ip)`, located by its index (the
      `indexOf` of the found object is that same index). */
  function FirstIndexOf(ips: seq<IpData>, ip: Text): (r: Option<nat>)
    ensures r.None? <==> forall k :: 0 <= k < |ips| ==> ips[k].ipAddress != ip
    ensures r.Some? ==> r.value < |ips| && ips[r.value].ipAddress == ip
    ensures r.Some? ==> forall k :: 0 <= k < r.value ==> ips[k].ipAddress != ip
    decreases |ips|
  {
    if ips == [] then None
    else if ips[0].ipAddress == ip then Some(0)
    else
      match FirstIndexOf(ips[1..], ip)
      case None =>
        assert forall k :: 0 < k < |ips| ==> ips[k] == ips[1..][k - 1];
        None
      case Some(i) =>
        assert forall k :: 0 < k <= i ==> ips[k] == ips[1..][k - 1];
        Some(i + 1)
  }

  /** The list after `removeIp(ip)`: the first entry with that address
      spliced out, or the list unchanged when there is none. */
  function WithoutFirst(ips: seq<IpData>, ip: Text): (r: seq<IpData>)
    ensures FirstIndexOf(ips, ip).None? ==> r == ips
    ensures FirstIndexOf(ips, ip).Some? ==> |r| == |ips| - 1
  {
    match FirstIndexOf(ips, ip)
    case None => ips
    case Some(k) => ips[..k] + ips[k + 1..]
  }

  /** The entries with address `a`, in list order. */
  function Having(ips: seq<IpData>, a: Text): (r: seq<IpData>)
    ensures |r| <= |ips|
    decreases |ips|
  {
    if ips == [] then []
    else Having(ips[..|ips| - 1], a) + Own(ips[|ips| - 1], a)
  }

  function Own(e: IpData, a: Text): (r: seq<IpData>)
    ensures |r| <= 1
  {
    if e.ipAddress == a then [e] else []
  }

  lemma {:induction false} HavingConcat(x: seq<IpData>, y: seq<IpData>, a: Text)
    ensures Having(x + y, a) == Having(x, a) + Having(y, a)
    decreases |y|
  {
    if y == [] {
      assert x + y == x;
    } else {
      var init, last := y[..|y| - 1], y[|y| - 1];
      assert (x + y)[..|x + y| - 1] == x + init && (x + y)[|x + y| - 1] == last;
      HavingConcat(x, init, a);
    }
  }

  lemma {:induction false} HavingNone(ips: seq<IpData>, a: Text)
    requires forall k :: 0 <= k < |ips| ==> ips[k].ipAddress != a
    ensures Having(ips, a) == []
    decreases |ips|
  {
    if ips != [] {
      var init := ips[..|ips| - 1];
      assert forall k :: 0 <= k < |init| ==> init[k] == ips[k];
      HavingNone(init, a);
    }
  }

  /** The entries of one address around a position. */
  lemma HavingSplice(ips: seq<IpData>, k: nat, a: Text)
    requires k < |ips|
    ensures Having(ips, a) == Having(ips[..k], a) + Own(ips[k], a) + Having(ips[k + 1..], a)
    ensures Having(ips[..k] + ips[k + 1..], a) == Having(ips[..k], a) + Having(ips[k + 1..], a)
  {
    var pre, x, post := ips[..k], ips[k], ips[k + 1..];
    assert ips == (pre + [x]) + post;
    HavingConcat(pre + [x], post, a);
    HavingConcat(pre, [x], a);
    HavingConcat(pre, post, a);
    assert [x][1..] == [];
  }

  /** Every other address keeps all its entries, in their order. */
  lemma RemoveKeepsOtherAddresses(ips: seq<IpData>, ip: Text, a: Text)
    requires a != ip
    ensures Having(WithoutFirst(ips, ip), a) == Having(ips, a)
  {
    match FirstIndexOf(ips, ip)
    case None =>
    case Some(k) =>
      SpliceKeepsOthers(ips, k, a);
  }

  lemma SpliceKeepsOthers(ips: seq<IpData>, k: nat, a: Text)
    requires k < |ips| && ips[k].ipAddress != a
    ensures Having(ips[..k] + ips[k + 1..], a) == Having(ips, a)
  {
    HavingSplice(ips, k, a);
  }

  /** Only the first entry with the address goes: the later ones stay, in
      their order. */
  lemma RemoveDropsOnlyFirst(ips: seq<IpData>, ip: Text)
    requires FirstIndexOf(ips, ip).Some?
    ensures [ips[FirstIndexOf(ips, ip).value]] + Having(WithoutFirst(ips, ip), ip) == Having(ips, ip)
  {
    var k := FirstIndexOf(ips, ip).value;
    NoneBeforeFirst(ips, k, ip);
    SpliceDropsFirst(ips, k, ip);
  }

  lemma NoneBeforeFirst(ips: seq<IpData>, k: nat, ip: Text)
    requires k <= |ips| && forall j :: 0 <= j < k ==> ips[j].ipAddress != ip
    ensures Having(ips[..k], ip) == []
  {
    var pre := ips[..k];
    assert forall j :: 0 <= j < k ==> pre[j] == ips[j];
    HavingNone(pre, ip);
  }

  lemma SpliceDropsFirst(ips: seq<IpData>, k: nat, ip: Text)
    requires k < |ips| && ips[k].ipAddress == ip && Having(ips[..k], ip) == []
    ensures [ips[k]] + Having(ips[..k] + ips[k + 1..], ip) == Having(ips, ip)
  {
    HavingSplice(ips, k, ip);
  }

  /** Adding an address that is not tracked and then removing it gives the
      list back. */
  lemma AddThenRemove(ips: seq<IpData>, d: IpData)
    requires forall k :: 0 <= k < |ips| ==> ips[k].ipAddress != d.ipAddress
    ensures WithoutFirst(ips + [d], d.ipAddress) == ips
  {
    var l := ips + [d];
    assert l[|ips|] == d;
    assert forall k :: 0 <= k < |ips| ==> l[k] == ips[k];
    assert l[..|ips|] == ips && l[|ips| + 1..] == [];
  }

  /** The text `${msg.Key};${msg.Value}`. */
  function MessageText(msg: ConfigMessage): (t: Text)
    ensures |t| == |msg.key| + 1 + |msg.value| && t[|msg.key|] == Separator
  {
    msg.key + [Separator] + msg.value
  }

  /** The receiver splits the text back at the first `;`: the key comes out
      whole when it has no `;` of its own. */
  lemma MessageTextSplits(msg: ConfigMessage)
    requires Separator !in msg.key
    ensures Split(MessageText(msg), Separator) == [msg.key] + Split(msg.value, Separator)
    ensures Separator !in msg.value ==> Split(MessageText(msg), Separator) == [msg.key, msg.value]
  {
    SplitAfterField(msg.key, msg.value, Separator);
    if Separator !in msg.value {
      assert IndexOf(msg.value, Separator) == -1;
    }
  }

  /** The sends of `SendMessageToAll`: one per entry whose socket has a
      `send`, in list order. */
  function Sends(ips: seq<IpData>, msg: ConfigMessage): (r: seq<Send>)
    ensures |r| <= |ips|
    decreases |ips|
  {
    if ips == [] then []
    else
      var last := ips[|ips| - 1];
      Sends(ips[..|ips| - 1], msg)
        + (if last.socket.Some? && last.socket.value.hasSend then [Send(last.socket.value.id, MessageText(msg))] else [])
  }

  /** Every send carries the message, and a socket is sent to exactly when
      some entry holds it and it can send. */
  lemma {:induction false} SendsReachSockets(ips: seq<IpData>, msg: ConfigMessage)
    ensures forall x :: x in Sends(ips, msg) ==> x.text == MessageText(msg)
    ensures forall s :: (exists x :: x in Sends(ips, msg) && x.socket == s) <==>
      (exists k :: 0 <= k < |ips| && ips[k].socket == Some(SocketRef(s, true)))
    decreases |ips|
  {
    if ips != [] {
      var init := ips[..|ips| - 1];
      var last := ips[|ips| - 1];
      SendsReachSockets(init, msg);
      assert forall k :: 0 <= k < |init| ==> init[k] == ips[k];
      forall s
        ensures (exists x :: x in Sends(ips, msg) && x.socket == s) <==>
          (exists k :: 0 <= k < |ips| && ips[k].socket == Some(SocketRef(s, true)))
      {
        if exists k :: 0 <= k < |ips| && ips[k].socket == Some(SocketRef(s, true)) {
          var k :| 0 <= k < |ips| && ips[k].socket == Some(SocketRef(s, true));
          if k < |init| {
            assert init[k].socket == Some(SocketRef(s, true));
            var x :| x in Sends(init, msg) && x.socket == s;
            assert x in Sends(ips, msg);
          } else {
            assert Send(s, MessageText(msg)) in Sends(ips, msg);
          }
        }
        if exists x :: x in Sends(ips, msg) && x.socket == s {
          var x :| x in Sends(ips, msg) && x.socket == s;
          if x in Sends(init, msg) {
            var k :| 0 <= k < |init| && init[k].socket == Some(SocketRef(s, true));
            assert ips[k].socket == Some(SocketRef(s, true));
          } else {
            assert last.socket == Some(SocketRef(s, true));
          }
        }
      }
    }
  }

  /** Who is sent to does not depend on the connection states, nor on
      whether the entry is enabled. */
  lemma {:induction false} SendsIgnoreState(a: seq<IpData>, b: seq<IpData>, msg: ConfigMessage)
    requires |a| == |b|
    requires forall i :: 0 <= i < |a| ==> a[i].socket == b[i].socket
    ensures Sends(a, msg) == Sends(b, msg)
    decreases |a|
  {
    if a != [] {
      SendsIgnoreState(a[..|a| - 1], b[..|b| - 1], msg);
    }
  }

  /** Whether the send to an entry throws: its socket has a `send` and is
      still connecting. */
  predicate Stalls(d: IpData, connecting: nat -> bool) {
    d.socket.Some? && d.socket.value.hasSend && connecting(d.socket.value.id)
  }

  /** The position of the first entry whose send throws, or the length when
      none does. */
  function FirstStalled(ips: seq<IpData>, connecting: nat -> bool): (k: nat)
    ensures k <= |ips|
    ensures k < |ips| ==> Stalls(ips[k], connecting)
    ensures forall j :: 0 <= j < k ==> !Stalls(ips[j], connecting)
    decreases |ips|
  {
    if ips == [] then 0
    else if Stalls(ips[0], connecting) then 0
    else
      var k := FirstStalled(ips[1..], connecting);
      assert forall j :: 1 <= j < k + 1 ==> ips[j] == ips[1..][j - 1];
      1 + k
  }

  /** The first entry whose send throws is the one before which none does. */
  lemma FirstStalledAt(ips: seq<IpData>, connecting: nat -> bool, i: nat)
    requires i < |ips| && Stalls(ips[i], connecting)
    requires forall j :: 0 <= j < i ==> !Stalls(ips[j], connecting)
    ensures FirstStalled(ips, connecting) == i
  {
  }

  /** When no socket is still connecting, the message goes to every socket
      that has a `send`. */
  lemma NoneConnectingSendsAll(ips: seq<IpData>, msg: ConfigMessage, connecting: nat -> bool)
    requires forall k :: 0 <= k < |ips| ==> !Stalls(ips[k], connecting)
    ensures FirstStalled(ips, connecting) == |ips|
    ensures Sends(ips[..FirstStalled(ips, connecting)], msg) == Sends(ips, msg)
  {
    assert ips[..|ips|] == ips;
  }

  /** The snapshot walk of `[Symbol.iterator]`: `next` yields the entries in
      order and, once past the end, reports done and rewinds. */
  class IpIterator {
    const values: seq<IpData>
    var index: nat

    constructor(values: seq<IpData>)
      ensures this.values == values && index == 0
    {
      this.values := values;
      index := 0;
    }

    method Next() returns (value: Option<IpData>)
      modifies this
      ensures old(index) < |values| ==> value == Some(values[old(index)]) && index == old(index) + 1
      ensures old(index) >= |values| ==> value.None? && index == 0
    {
      if index < |values| {
        value := Some(values[index]);
        index := index + 1;
      } else {
        index := 0;
        value := None;
      }
    }
  }

  class IpDataStore {
    var trackedIps: seq<IpData>

    /** The constructor of `IpDataStore.ts`: load, then clear the states. */
    constructor(stored: Option<seq<IpData>>)
      ensures AllDisconnected(trackedIps)
      ensures SameButState(trackedIps, Loaded(stored, Defaults))
    {
      var cleared := ClearConnectionState(Loaded(stored, Defaults));
      trackedIps := cleared;
    }

    /** The constructor of the copy in `store.ts`. */
    constructor FromStoreModule(stored: Option<seq<IpData>>)
      ensures AllDisconnected(trackedIps)
      ensures SameButState(trackedIps, Loaded(stored, StoreDefaults))
    {
      var cleared := ClearConnectionState(Loaded(stored, StoreDefaults));
      trackedIps := cleared;
    }

    method AddIp(data: IpData)
      modifies this
      ensures trackedIps == old(trackedIps) + [data]
    {
      trackedIps := trackedIps + [data];
    }

    /** Splices out the first entry with the address and closes its socket,
        if it has one. */
    method RemoveIp(ip: Text) returns (closed: Option<SocketRef>)
      modifies this
      ensures trackedIps == WithoutFirst(old(trackedIps), ip)
      ensures FirstIndexOf(old(trackedIps), ip).None? ==> closed.None?
      ensures FirstIndexOf(old(trackedIps), ip).Some? ==> closed == old(trackedIps)[FirstIndexOf(old(trackedIps), ip).value].socket
    {
      closed := None;
      var found := FirstIndexOf(trackedIps, ip);
      if found.Some? {
        var k := found.value;
        closed := trackedIps[k].socket;
        trackedIps := trackedIps[..k] + trackedIps[k + 1..];
      }
    }

    /** `update(x => x)`: subscribers are told again; the list stays. */
    method Update()
      modifies this
      ensures trackedIps == old(trackedIps)
    {
      trackedIps := trackedIps;
    }

    method Iterator() returns (it: IpIterator)
      ensures fresh(it) && it.values == trackedIps && it.index == 0
    {
      it := new IpIterator(trackedIps);
    }

    /** The `for ... of this` loop sending the message through every entry
        whose socket has a `send`. `WebSocket.send` throws `InvalidStateError`
        on a socket still connecting (`connecting`, by socket identity); the
        exception ends the loop, so later entries receive nothing. */
    method SendMessageToAll(msg: ConfigMessage, connecting: nat -> bool) returns (sent: seq<Send>, thrown: bool)
      ensures sent == Sends(trackedIps[..FirstStalled(trackedIps, connecting)], msg)
      ensures thrown <==> FirstStalled(trackedIps, connecting) < |trackedIps|
    {
      var it := Iterator();
      sent := [];
      var done := false;
      thrown := false;
      while !done
        invariant it.values == trackedIps && !thrown
        invariant !done ==> it.index <= |it.values| && sent == Sends(it.values[..it.index], msg)
        invariant !done ==> forall j :: 0 <= j < it.index ==> !Stalls(it.values[j], connecting)
        invariant done ==> sent == Sends(trackedIps, msg) && FirstStalled(trackedIps, connecting) == |trackedIps|
        decreases if done then 0 else 1, |it.values| - it.index
      {
        ghost var before := it.index;
        var e := it.Next();
        if e.None? {
          assert it.values[..before] == trackedIps;
          done := true;
        } else {
          assert it.values[..before + 1][..before] == it.values[..before];
          var socket := e.value.socket;
          if socket.Some? && socket.value.hasSend {
            if connecting(socket.value.id) {
              assert Stalls(trackedIps[before], connecting);
              FirstStalledAt(trackedIps, connecting, before);
              return sent, true;
            }
            sent := sent + [Send(socket.value.id, MessageText(msg))];
          }
        }
      }
      assert trackedIps[..|trackedIps|] == trackedIps;
    }
  }

  /** A freshly loaded store sends to the same sockets as the stored list. */
  lemma LoadedStoreSends(stored: seq<IpData>, cleared: seq<IpData>, msg: ConfigMessage)
    requires SameButState(cleared, stored)
    ensures Sends(cleared, msg) == Sends(stored, msg)
  {
    assert forall i :: 0 <= i < |cleared| ==> cleared[i].socket == cleared[i].(connectionState := Disconnected).socket;
    SendsIgnoreState(cleared, stored, msg);
  }

  /** After `addIp`, the message also goes to the new entry, last. */
  lemma AddIpSendsLast(ips: seq<IpData>, d: IpData, msg: ConfigMessage)
    requires d.socket.Some? && d.socket.value.hasSend
    ensures Sends(ips + [d], msg) == Sends(ips, msg) + [Send(d.socket.value.id, MessageText(msg))]
  {
    assert (ips + [d])[..|ips|] == ips;
  }
}
