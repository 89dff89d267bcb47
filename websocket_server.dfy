/** The WebSocket server's state: the running flag, the registry of accepted
    clients with their per-connection handshake flag, and the octets it sends.

    Sockets, threads and `select`/`recv` are not modelled: an accepted
    connection is a call to `AcceptClient`, one `recv` that returned data is a
    call to `ReceiveChunk`, and every `send` appends to `sent`. */
module WebSocketServer {
  import opened Common
  import opened WebSocketFrame
  import opened Handshake

  type Socket = int

  /** One entry of the client registry. `established` is the WebSocket-level
      handshake flag, not the TCP connection state. */
  datatype ClientConnection = ClientConnection(socket: Socket, established: bool)

  /** What one received chunk makes the server report to its owner. */
  datatype ClientEvent =
    | Connected(socket: Socket)
    | MessageReceived(socket: Socket, text: Text)
    | NoEvent

  /** The sends of a broadcast: one frame to every established client, in
      registry order. */
  function BroadcastSends(cs: seq<ClientConnection>, message: Text): (r: seq<(Socket, seq<Byte>)>)
    ensures |r| <= |cs|
    ensures forall k :: 0 <= k < |r| ==> r[k].1 == EncodeFrame(message)
  {
    if cs == [] then []
    else
      var head := if cs[0].established then [(cs[0].socket, EncodeFrame(message))] else [];
      head + BroadcastSends(cs[1..], message)
  }

  lemma {:induction false} BroadcastSendsAppend(a: seq<ClientConnection>, b: seq<ClientConnection>, message: Text)
    ensures BroadcastSends(a + b, message) == BroadcastSends(a, message) + BroadcastSends(b, message)
  {
    if a == [] {
      assert a + b == b;
    } else {
      assert (a + b)[1..] == a[1..] + b;
      BroadcastSendsAppend(a[1..], b, message);
    }
  }

  lemma BroadcastSendsOne(c: ClientConnection, message: Text)
    ensures BroadcastSends([c], message) == if c.established then [(c.socket, EncodeFrame(message))] else []
  {
    assert [c][1..] == [];
  }

  /** The established clients of a registry, in order. */
  function Established(cs: seq<ClientConnection>): (r: seq<ClientConnection>)
    ensures forall c :: c in r <==> c in cs && c.established
  {
    if cs == [] then []
    else (if cs[0].established then [cs[0]] else []) + Established(cs[1..])
  }

  /** A broadcast sends to exactly the established clients, once each and in
      registry order. */
  lemma {:induction false} BroadcastReachesEstablished(cs: seq<ClientConnection>, message: Text)
    ensures |BroadcastSends(cs, message)| == |Established(cs)|
    ensures forall k :: 0 <= k < |Established(cs)| ==>
      BroadcastSends(cs, message)[k] == (Established(cs)[k].socket, EncodeFrame(message))
  {
    if cs != [] {
      var frame := EncodeFrame(message);
      var tailSends, tailEst := BroadcastSends(cs[1..], message), Established(cs[1..]);
      BroadcastReachesEstablished(cs[1..], message);
      if cs[0].established {
        assert BroadcastSends(cs, message) == [(cs[0].socket, frame)] + tailSends;
        assert Established(cs) == [cs[0]] + tailEst;
      } else {
        assert BroadcastSends(cs, message) == [] + tailSends;
        assert Established(cs) == [] + tailEst;
      }
    }
  }

  /** The registry after `remove_if` on a socket and `erase`: every other entry,
      in order. */
  function RemoveSocket(cs: seq<ClientConnection>, socket: Socket): (r: seq<ClientConnection>)
    ensures |r| <= |cs|
  {
    if cs == [] then []
    else (if cs[0].socket == socket then [] else [cs[0]]) + RemoveSocket(cs[1..], socket)
  }

  /** Removal keeps exactly the entries of the other sockets. */
  lemma {:induction false} RemoveSocketMembers(cs: seq<ClientConnection>, socket: Socket)
    ensures forall c :: c in RemoveSocket(cs, socket) <==> c in cs && c.socket != socket
  {
    if cs != [] {
      RemoveSocketMembers(cs[1..], socket);
      assert cs == [cs[0]] + cs[1..];
    }
  }

  /** Removal keeps relative order: it distributes over concatenation. */
  lemma {:induction false} RemoveSocketAppend(a: seq<ClientConnection>, b: seq<ClientConnection>, socket: Socket)
    ensures RemoveSocket(a + b, socket) == RemoveSocket(a, socket) + RemoveSocket(b, socket)
  {
    if a == [] {
      assert a + b == b;
    } else {
      assert (a + b)[1..] == a[1..] + b;
      RemoveSocketAppend(a[1..], b, socket);
    }
  }

  lemma RemoveSocketOne(c: ClientConnection, socket: Socket)
    ensures RemoveSocket([c], socket) == if c.socket == socket then [] else [c]
  {
    assert [c][1..] == [];
  }

  /** A registry without the socket is unchanged by its removal. */
  lemma {:induction false} RemoveAbsentSocket(cs: seq<ClientConnection>, socket: Socket)
    requires forall k :: 0 <= k < |cs| ==> cs[k].socket != socket
    ensures RemoveSocket(cs, socket) == cs
  {
    if cs != [] {
      RemoveAbsentSocket(cs[1..], socket);
      assert [cs[0]] + cs[1..] == cs;
    }
  }

  /** Removing a socket twice is removing it once. */
  lemma RemoveSocketIdempotent(cs: seq<ClientConnection>, socket: Socket)
    ensures RemoveSocket(RemoveSocket(cs, socket), socket) == RemoveSocket(cs, socket)
  {
    var r := RemoveSocket(cs, socket);
    RemoveSocketMembers(cs, socket);
    forall k | 0 <= k < |r| ensures r[k].socket != socket {
      assert r[k] in r;
    }
    RemoveAbsentSocket(r, socket);
  }

  /** The octets sent in reply to a handshake request, if any. */
  function HandshakeSends(sha1: Text -> Digest, socket: Socket, request: Text): seq<(Socket, seq<Byte>)> {
    match Negotiate(sha1, request)
    case None => []
    case Some(response) => [(socket, ToBytes(response))]
  }

  /** The event a chunk on an established connection produces. */
  function FrameEvent(socket: Socket, chunk: seq<Byte>): ClientEvent {
    match Decode(chunk)
    case Message(text) => MessageReceived(socket, text)
    case _ => NoEvent
  }

  class WebSocketServer {
    var port: int
    var isRunning: bool
    var clients: seq<ClientConnection>
    var sent: seq<(Socket, seq<Byte>)>
    const sha1: Text -> Digest

    constructor(sha1: Text -> Digest)
      ensures this.sha1 == sha1
      ensures port == 0 && !isRunning && clients == [] && sent == []
    {
      this.sha1 := sha1;
      port := 0;
      isRunning := false;
      clients := [];
      sent := [];
    }

    /** Starts the server on a port; fails without change when it already runs. */
    method Start(newPort: int) returns (o: Outcome)
      modifies this
      ensures old(isRunning) ==> o.Fail? && port == old(port) && isRunning
      ensures !old(isRunning) ==> o == Pass && port == newPort && isRunning
      ensures clients == old(clients) && sent == old(sent)
    {
      if isRunning {
        return Fail("Server is already running!");
      }
      port := newPort;
      isRunning := true;
      o := Pass;
    }

    /** Stops the server; fails without change when it does not run. */
    method Stop() returns (o: Outcome)
      modifies this
      ensures !old(isRunning) ==> o.Fail?
      ensures old(isRunning) ==> o == Pass
      ensures !isRunning && port == old(port) && clients == old(clients) && sent == old(sent)
    {
      if !isRunning {
        return Fail("Server is not running!");
      }
      isRunning := false;
      o := Pass;
    }

    function IsRunning(): bool
      reads this
    {
      isRunning
    }

    /** A newly accepted connection joins the registry, not yet established. */
    method AcceptClient(socket: Socket)
      modifies this
      ensures clients == old(clients) + [ClientConnection(socket, false)]
      ensures isRunning == old(isRunning) && port == old(port) && sent == old(sent)
    {
      clients := clients + [ClientConnection(socket, false)];
    }

    /** One frame: the header fields, the extended length, then the text up to
      its first NUL. */
    method SendWebMessage(socket: Socket, message: Text)
      modifies this
      ensures sent == old(sent) + [(socket, EncodeFrame(message))]
      ensures clients == old(clients) && isRunning == old(isRunning) && port == old(port)
    {
      var data := BuildControlData(|message|);
      var frame := Pack(data) + ExtendedLength(|message|) + ToBytes(CStr(message));
      sent := sent + [(socket, frame)];
    }

    /** Sends a message to every established client in registry order. */
    method BroadcastMessage(message: Text)
      modifies this
      ensures sent == old(sent) + BroadcastSends(old(clients), message)
      ensures clients == old(clients) && isRunning == old(isRunning) && port == old(port)
    {
      var i := 0;
      while i < |clients|
        invariant 0 <= i <= |clients|
        invariant clients == old(clients) && isRunning == old(isRunning) && port == old(port)
        invariant sent == old(sent) + BroadcastSends(clients[..i], message)
      {
        assert clients[..i + 1] == clients[..i] + [clients[i]];
        BroadcastSendsAppend(clients[..i], [clients[i]], message);
        BroadcastSendsOne(clients[i], message);
        if clients[i].established {
          SendWebMessage(clients[i].socket, message);
        }
        i := i + 1;
      }
      assert clients[..i] == clients;
    }

    /** The body of a client's receive loop for one chunk that `recv` returned on
      the client at `index`. The first chunk is the handshake: it is answered if
      it asks for the upgrade and, either way, marks the client established. Later
      chunks are read as frames. */
    method ReceiveChunk(index: nat, chunk: seq<Byte>) returns (ev: ClientEvent)
      requires index < |clients|
      requires 0 < |chunk| <= 4096
      modifies this
      ensures var c := old(clients[index]);
        !c.established ==>
          clients == old(clients)[index := c.(established := true)]
          && sent == old(sent) + HandshakeSends(sha1, c.socket, FromBytes(chunk))
          && ev == Connected(c.socket)
      ensures var c := old(clients[index]);
        c.established ==>
          clients == old(clients) && sent == old(sent) && ev == FrameEvent(c.socket, chunk)
      ensures isRunning == old(isRunning) && port == old(port)
    {
      var c := clients[index];
      if !c.established {
        var reply := Negotiate(sha1, FromBytes(chunk));
        if reply.Some? {
          sent := sent + [(c.socket, ToBytes(reply.value))];
        }
        clients := clients[index := c.(established := true)];
        return Connected(c.socket);
      }
      var r := ReceiveFrame(chunk);
      if r.Message? {
        ev := MessageReceived(c.socket, r.text);
      } else {
        ev := NoEvent;
      }
    }

    /** Drops every registry entry of a closed socket and keeps the others in order. */
    method CleanupClientSocket(socket: Socket)
      modifies this
      ensures clients == RemoveSocket(old(clients), socket)
      ensures sent == old(sent) && isRunning == old(isRunning) && port == old(port)
    {
      clients := KeepOtherSockets(clients, socket);
    }
  }

  /** The `remove_if` pass of the cleanup: the entries of other sockets, in order. */
  method KeepOtherSockets(cs: seq<ClientConnection>, socket: Socket) returns (kept: seq<ClientConnection>)
    ensures kept == RemoveSocket(cs, socket)
  {
    kept := [];
    var i := 0;
    while i < |cs|
      invariant 0 <= i <= |cs|
      invariant kept == RemoveSocket(cs[..i], socket)
    {
      assert cs[..i + 1] == cs[..i] + [cs[i]];
      RemoveSocketAppend(cs[..i], [cs[i]], socket);
      RemoveSocketOne(cs[i], socket);
      if cs[i].socket != socket {
        kept := kept + [cs[i]];
      }
      i := i + 1;
    }
    assert cs[..i] == cs;
  }

  /** A client is established from its first received chunk on, whether or not
      the handshake was answered. */
  method FirstChunkEstablishes(sha1: Text -> Digest, socket: Socket, chunk: seq<Byte>)
      returns (s: WebSocketServer)
    requires 0 < |chunk| <= 4096
    ensures s.clients == [ClientConnection(socket, true)]
  {
    s := new WebSocketServer(sha1);
    s.AcceptClient(socket);
    var ev := s.ReceiveChunk(0, chunk);
    assert ev == Connected(socket);
  }
}
