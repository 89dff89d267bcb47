/** WebSocket data frames as the server writes and reads them (section 5.2 of
    RFC 6455, base framing protocol, and section 5.3, client-to-server masking).

    The server only ever sends unmasked, final text frames. It reads one frame
    from the start of each received chunk and hands its unmasked payload, cut at
    the first NUL, to the message handler. */
module WebSocketFrame {
  import opened Common
  import opened ByteOrder

  /** The two header octets of a server frame, field by field as the source's
      bitfield struct declares them: each octet's fields from its least
      significant bit up. */
  datatype ControlData = ControlData(
    opcode: bv4, rsv3: bv1, rsv2: bv1, rsv1: bv1, fin: bv1,
    payloadLength: bv7, mask: bv1)

  /** Opcode 0x1: a text frame. */
  const TextOpcode: bv4 := 1

  /** The octets of a `ControlData` when bitfields are allocated from the least
      significant bit, as the compilers the library targets lay them out. */
  function Pack(d: ControlData): (b: seq<Byte>)
    ensures |b| == 2
  {
    [ (d.opcode as Byte)
        | ((d.rsv3 as Byte) << 4)
        | ((d.rsv2 as Byte) << 5)
        | ((d.rsv1 as Byte) << 6)
        | ((d.fin as Byte) << 7),
      (d.payloadLength as Byte) | ((d.mask as Byte) << 7) ]
  }

  /** The 7-bit payload length: the size itself below 126, otherwise the marker
      for a 16-bit (126) or 64-bit (127) extended length. */
  function LengthCode(size: nat): (c: nat)
    ensures c < 128
    ensures c < 126 <==> size < 126
    ensures c < 126 ==> c == size
  {
    if size < 126 then size else if size < 65536 then 126 else 127
  }

  function Nibble7(n: nat): (b: bv7)
    requires n < 16
    ensures (b as Byte) as int == n && b < 16
  {
    n as bv7
  }

  lemma SevenBitsValue(high: bv7, low: bv7)
    requires high < 8 && low < 16
    ensures ((high * 16 + low) as Byte) as int == (high as Byte) as int * 16 + (low as Byte) as int
  {
  }

  /** A value below 128 stored in the 7-bit length field. */
  function SevenBits(c: nat): (b: bv7)
    requires c < 128
    ensures (b as Byte) as int == c
  {
    var high, low := Nibble7(c / 16), Nibble7(c % 16);
    SevenBitsValue(high, low);
    high * 16 + low
  }

  /** The header the server fills in for a message of `size` characters. */
  function HeaderFor(size: nat): ControlData {
    ControlData(TextOpcode, 0, 0, 0, 1, SevenBits(LengthCode(size)), 0)
  }

  /** Fills the header struct one field after the other. */
  method BuildControlData(size: nat) returns (data: ControlData)
    ensures data == HeaderFor(size)
    ensures data.opcode == TextOpcode && data.fin == 1
    ensures data.rsv1 == 0 && data.rsv2 == 0 && data.rsv3 == 0 && data.mask == 0
  {
    data := ControlData(0, 0, 0, 0, 0, 0, 0);
    data := data.(opcode := 1);
    data := data.(fin := 1);
    data := data.(rsv1 := 0);
    data := data.(rsv2 := 0);
    data := data.(rsv3 := 0);
    data := data.(mask := 0);
    if size < 126 {
      data := data.(payloadLength := SevenBits(size));
    } else if size < 65536 {
      data := data.(payloadLength := SevenBits(126));
    } else {
      data := data.(payloadLength := SevenBits(127));
    }
  }

  /** The extended length the server writes after the header: the size as a
      `uint16_t` or `uint64_t` copied byte for byte, so in host order, fixed here
      as little-endian. */
  function ExtendedLength(size: nat): (b: seq<Byte>) {
    if size < 126 then []
    else if size < 65536 then LeBytes(size, 2)
    else LeBytes(size, 8)
  }

  /** Every octet the server sends for one message. The header declares the full
      string size, while the payload is sent through `strlen`, so only the
      characters before the first NUL follow. */
  function EncodeFrame(message: Text): (f: seq<Byte>) {
    Pack(HeaderFor(|message|)) + ExtendedLength(|message|) + ToBytes(CStr(message))
  }

  lemma Pow256Values()
    ensures Pow256(2) == 0x1_0000
    ensures Pow256(8) == 0x1_0000_0000_0000_0000
  {
    assert Pow256(1) == 256;
    assert Pow256(2) == 0x1_0000;
    assert Pow256(3) == 0x100_0000;
    assert Pow256(4) == 0x1_0000_0000;
    assert Pow256(5) == 0x100_0000_0000;
    assert Pow256(6) == 0x1_0000_0000_0000;
    assert Pow256(7) == 0x100_0000_0000_0000;
  }

  lemma LowSevenBits(b: bv7, m: bv1)
    ensures ((b as Byte) | ((m as Byte) << 7)) & 0x7F == b as Byte
    ensures (((b as Byte) | ((m as Byte) << 7)) & 0x80 != 0) <==> m == 1
  {
  }

  lemma PackedHeaderBits(size: nat)
    ensures Pack(HeaderFor(size))[0] == 0x81
    ensures Pack(HeaderFor(size))[1] & 0x80 == 0
    ensures (Pack(HeaderFor(size))[1] & 0x7F) as nat == LengthCode(size)
  {
    LowSevenBits(SevenBits(LengthCode(size)), 0);
  }

  /** The three parts of a server frame: header, extended length, payload. */
  lemma EncodeFrameParts(message: Text)
    ensures EncodeFrame(message)[..2] == Pack(HeaderFor(|message|))
    ensures EncodeFrame(message)[2..2 + |ExtendedLength(|message|)|] == ExtendedLength(|message|)
    ensures EncodeFrame(message)[2 + |ExtendedLength(|message|)|..] == ToBytes(CStr(message))
  {
  }

  /** Every server frame is a final, unreserved, unmasked text frame whose
      7-bit length field is the length code of the message size. */
  lemma ServerHeaderBits(message: Text)
    ensures EncodeFrame(message)[0] == 0x81
    ensures EncodeFrame(message)[0] & 0x0F == 0x1
    ensures EncodeFrame(message)[0] & 0x80 == 0x80
    ensures EncodeFrame(message)[0] & 0x70 == 0
    ensures EncodeFrame(message)[1] & 0x80 == 0
    ensures (EncodeFrame(message)[1] & 0x7F) as nat == LengthCode(|message|)
  {
    EncodeFrameParts(message);
    PackedHeaderBits(|message|);
    var f := EncodeFrame(message);
    assert f[0] == f[..2][0] && f[1] == f[..2][1];
  }

  /** How a peer that stores integers in the same host order reads a server
      frame: the declared size and the octets after the header. */
  function ReadServerFrame(f: seq<Byte>): Option<(nat, seq<Byte>)> {
    if |f| < 2 then None
    else
      var c := (f[1] & 0x7F) as nat;
      if c == 126 then (if |f| < 4 then None else Some((LeValue(f[2..4]), f[4..])))
      else if c == 127 then (if |f| < 10 then None else Some((LeValue(f[2..10]), f[10..])))
      else Some((c, f[2..]))
  }

  /** The host-order reading of a header, its extended length and what follows. */
  lemma ReadHostOrderLength(h: seq<Byte>, n: nat, rest: seq<Byte>)
    requires |h| == 2 && (h[1] & 0x7F) as nat == LengthCode(n)
    requires n < 0x1_0000_0000_0000_0000
    ensures ReadServerFrame(h + ExtendedLength(n) + rest) == Some((n, rest))
  {
    var ext := ExtendedLength(n);
    var f := h + ext + rest;
    assert f[1] == h[1];
    Pow256Values();
    if n < 126 {
      assert f[2..] == rest;
    } else if n < 65536 {
      assert f[2..4] == ext && f[4..] == rest;
      LeRoundTrip(n, 2);
      ModUnique(n, 0x1_0000, 0, n);
    } else {
      assert f[2..10] == ext && f[10..] == rest;
      LeRoundTrip(n, 8);
      ModUnique(n, 0x1_0000_0000_0000_0000, 0, n);
    }
  }

  /** The header and the extended length carry the message size, and the text
      before the first NUL follows them. */
  lemma ServerFrameRoundTrip(message: Text)
    requires |message| < 0x1_0000_0000_0000_0000
    ensures ReadServerFrame(EncodeFrame(message)) == Some((|message|, ToBytes(CStr(message))))
  {
    PackedHeaderBits(|message|);
    ReadHostOrderLength(Pack(HeaderFor(|message|)), |message|, ToBytes(CStr(message)));
  }

  /** The declared size equals the number of payload octets sent exactly when the
      message holds no NUL. */
  lemma DeclaredSizeMatchesPayload(message: Text)
    ensures |ToBytes(CStr(message))| == |message| <==> NUL !in message
  {
    if NUL !in message {
      CStrOfNulFree(message);
    }
  }

  /** A network-order reader takes the host-order 16-bit extended length with
      its two octets swapped: a 300-character message is read as declaring 11265. */
  lemma ExtendedLengthByteOrderMismatch(message: Text)
    requires 126 <= |message| < 65536
    ensures BeValue(EncodeFrame(message)[2..4]) == (|message| % 256) * 256 + |message| / 256
    ensures |message| == 300 ==> BeValue(EncodeFrame(message)[2..4]) == 11265
  {
    EncodeFrameParts(message);
    ReadBackSwapped(|message|);
  }

  /** What the receive loop makes of one received chunk. */
  datatype Received =
    | Message(text: Text)   // handed to the message handler
    | EmptyIgnored          // declared length 0
    | UnmaskedIgnored       // mask bit clear
    | Incomplete            // the declared frame runs past the received octets

  predicate MaskBit(b1: Byte) {
    b1 & 0x80 != 0
  }

  /** The declared payload length and the offset of the masking key: a 7-bit
      length below 126 at offset 2, a network-order 16-bit length at offset 4,
      or a network-order 64-bit length at offset 10. None when the chunk ends
      inside the header. */
  function DeclaredLength(buf: seq<Byte>): Option<(nat, nat)> {
    if |buf| < 2 then None
    else
      var c := (buf[1] & 0x7F) as nat;
      if c == 126 then (if |buf| < 4 then None else Some((BeValue(buf[2..4]), 4)))
      else if c == 127 then (if |buf| < 10 then None else Some((BeValue(buf[2..10]), 10)))
      else Some((c, 2))
  }

  /** The `len` payload octets after the masking key at `offset`, each XORed
      with key octet `i mod 4`. */
  function Unmasked(buf: seq<Byte>, offset: nat, len: nat): seq<Byte>
    requires offset + 4 + len <= |buf|
  {
    seq(len, i requires 0 <= i < len => buf[offset + 4 + i] ^ buf[offset + i % 4])
  }

  /** The receive loop's reading of a chunk of an established connection. An
      empty frame is ignored before the mask bit is looked at. The source does
      not compare the declared length with the octets received; here a frame
      that runs past them yields `Incomplete`. */
  function Decode(buf: seq<Byte>): (r: Received)
    ensures r.Message? ==> NUL !in r.text
  {
    match DeclaredLength(buf)
    case None => Incomplete
    case Some((len, offset)) =>
      if len == 0 then EmptyIgnored
      else if !MaskBit(buf[1]) then UnmaskedIgnored
      else if |buf| < offset + 4 + len then Incomplete
      else Message(CStr(FromBytes(Unmasked(buf, offset, len))))
  }

  /** Unmasking as the receive loop does it: into a fresh buffer one longer than
      the payload, NUL-terminated, then read as a C string. */
  method ReceiveFrame(buf: seq<Byte>) returns (r: Received)
    ensures r == Decode(buf)
  {
    var declared := DeclaredLength(buf);
    if declared.None? {
      return Incomplete;
    }
    var (msglen, offset) := declared.value;
    if msglen == 0 {
      return EmptyIgnored;
    }
    if !MaskBit(buf[1]) {
      return UnmaskedIgnored;
    }
    if |buf| < offset + 4 + msglen {
      return Incomplete;
    }
    var decoded := UnmaskPayload(buf, offset, msglen);
    var payload := Unmasked(buf, offset, msglen);
    FromBytesAppendZero(payload);
    CStrStopsAtNul(FromBytes(payload));
    r := Message(CStr(FromBytes(decoded[..])));
  }

  /** The unmasking loop: a buffer one longer than the payload, holding each
      payload octet XORed with its key octet and then a terminating zero. */
  method UnmaskPayload(buf: seq<Byte>, offset: nat, msglen: nat) returns (decoded: array<Byte>)
    requires offset + 4 + msglen <= |buf|
    ensures fresh(decoded)
    ensures decoded[..] == Unmasked(buf, offset, msglen) + [0]
  {
    decoded := new Byte[msglen + 1];
    var masks := buf[offset..offset + 4];
    var start := offset + 4;
    var i := 0;
    while i < msglen
      invariant 0 <= i <= msglen
      invariant forall j :: 0 <= j < i ==> decoded[j] == buf[start + j] ^ masks[j % 4]
    {
      decoded[i] := buf[start + i] ^ masks[i % 4];
      i := i + 1;
    }
    decoded[msglen] := 0;
    var payload := Unmasked(buf, offset, msglen);
    forall j | 0 <= j < msglen + 1 ensures decoded[..][j] == (payload + [0])[j] {
      if j < msglen {
        assert masks[j % 4] == buf[offset + j % 4];
      }
    }
    assert decoded[..] == payload + [0];
  }

  lemma FromBytesAppendZero(b: seq<Byte>)
    ensures FromBytes(b + [0]) == FromBytes(b) + [NUL]
  {
    var l, r := FromBytes(b + [0]), FromBytes(b) + [NUL];
    forall i | 0 <= i < |l| ensures l[i] == r[i] {
      if i < |b| {
        assert (b + [0])[i] == b[i];
      }
    }
  }

  /** XOR of each payload octet with key octet `i mod 4` (section 5.3 of RFC 6455). */
  function Mask(payload: seq<Byte>, key: seq<Byte>): (m: seq<Byte>)
    requires |key| == 4
    ensures |m| == |payload|
  {
    seq(|payload|, i requires 0 <= i < |payload| => payload[i] ^ key[i % 4])
  }

  lemma MaskInvolutive(payload: seq<Byte>, key: seq<Byte>)
    requires |key| == 4
    ensures Mask(Mask(payload, key), key) == payload
  {
  }

  /** The header octets a client writes: final text frame, mask bit as given. */
  function ClientHeader(n: nat, masked: bool): (h: seq<Byte>) {
    [0x81, (SevenBits(LengthCode(n)) as Byte) | (if masked then 0x80 else 0)]
  }

  /** A network-order extended length, as a conforming client writes it. */
  function NetworkExtendedLength(n: nat): (b: seq<Byte>) {
    if n < 126 then [] else if n < 65536 then BeBytes(n, 2) else BeBytes(n, 8)
  }

  /** A frame as a conforming client sends it: final text frame, mask bit set,
      network-order extended length, masking key, masked payload. */
  function ClientFrame(payload: seq<Byte>, key: seq<Byte>): (f: seq<Byte>)
    requires |key| == 4
  {
    ClientHeader(|payload|, true) + NetworkExtendedLength(|payload|) + key + Mask(payload, key)
  }

  lemma ClientHeaderBits(n: nat, masked: bool)
    ensures (ClientHeader(n, masked)[1] & 0x7F) as nat == LengthCode(n)
    ensures MaskBit(ClientHeader(n, masked)[1]) <==> masked
  {
    var m: bv1 := if masked then 1 else 0;
    LowSevenBits(SevenBits(LengthCode(n)), m);
    assert (m as Byte) << 7 == if masked then 0x80 else 0;
  }

  /** The frame reader's view of a header, a network-order extended length and
      what follows. */
  lemma ReadNetworkOrderLength(h: seq<Byte>, n: nat, rest: seq<Byte>)
    requires |h| == 2 && (h[1] & 0x7F) as nat == LengthCode(n)
    requires n < 0x1_0000_0000_0000_0000
    ensures DeclaredLength(h + NetworkExtendedLength(n) + rest) == Some((n, 2 + |NetworkExtendedLength(n)|))
  {
    var ext := NetworkExtendedLength(n);
    var f := h + ext + rest;
    assert f[1] == h[1];
    Pow256Values();
    if n < 126 {
    } else if n < 65536 {
      assert f[2..4] == ext;
      BeRoundTrip(n, 2);
      ModUnique(n, 0x1_0000, 0, n);
    } else {
      assert f[2..10] == ext;
      BeRoundTrip(n, 8);
      ModUnique(n, 0x1_0000_0000_0000_0000, 0, n);
    }
  }

  /** A masked client frame of any non-empty payload decodes to that payload as
      text, cut at its first NUL. */
  lemma ClientFrameRoundTrip(payload: seq<Byte>, key: seq<Byte>)
    requires |key| == 4
    requires 0 < |payload| < 0x1_0000_0000_0000_0000
    ensures Decode(ClientFrame(payload, key)) == Message(CStr(FromBytes(payload)))
  {
    var n := |payload|;
    var h, ext, rest := ClientHeader(n, true), NetworkExtendedLength(n), key + Mask(payload, key);
    var f := ClientFrame(payload, key);
    assert f == h + ext + rest;
    ClientHeaderBits(n, true);
    ReadNetworkOrderLength(h, n, rest);
    assert f[1] == h[1];
    assert f == (h + ext) + rest;
    UnmaskAfter(h + ext, payload, key);
  }

  /** Whatever precedes them, a masking key and a masked payload unmask to the payload. */
  lemma UnmaskAfter(prefix: seq<Byte>, payload: seq<Byte>, key: seq<Byte>)
    requires |key| == 4
    ensures Unmasked(prefix + (key + Mask(payload, key)), |prefix|, |payload|) == payload
  {
    var u := Unmasked(prefix + (key + Mask(payload, key)), |prefix|, |payload|);
    forall i | 0 <= i < |payload| ensures u[i] == payload[i] {
      UnmaskAt(prefix, payload, key, i);
    }
  }

  lemma UnmaskAt(prefix: seq<Byte>, payload: seq<Byte>, key: seq<Byte>, i: nat)
    requires |key| == 4 && i < |payload|
    ensures Unmasked(prefix + (key + Mask(payload, key)), |prefix|, |payload|)[i] == payload[i]
  {
    var f := prefix + (key + Mask(payload, key));
    var offset := |prefix|;
    var m, k := f[offset + 4 + i], f[offset + i % 4];
    assert m == Mask(payload, key)[i];
    assert k == key[i % 4];
    XorTwice(payload[i], key[i % 4]);
  }

  lemma XorTwice(a: Byte, b: Byte)
    ensures (a ^ b) ^ b == a
  {
  }

  /** A frame declaring no payload produces no message, whatever else it holds. */
  lemma EmptyFrameIgnored(key: seq<Byte>)
    requires |key| == 4
    ensures Decode(ClientFrame([], key)) == EmptyIgnored
  {
    var h := ClientHeader(0, true);
    ClientHeaderBits(0, true);
    var f := ClientFrame([], key);
    assert f == h + NetworkExtendedLength(0) + key + [];
    ReadNetworkOrderLength(h, 0, key + Mask([], key));
  }

  /** An otherwise valid client frame with the mask bit clear produces no message. */
  lemma UnmaskedFrameIgnored(payload: seq<Byte>, key: seq<Byte>)
    requires |key| == 4
    requires 0 < |payload| < 0x1_0000_0000_0000_0000
    ensures Decode(ClientHeader(|payload|, false) + NetworkExtendedLength(|payload|) + key
                   + Mask(payload, key)) == UnmaskedIgnored
  {
    var n := |payload|;
    var h, rest := ClientHeader(n, false), key + Mask(payload, key);
    var f := h + NetworkExtendedLength(n) + key + Mask(payload, key);
    assert f == h + NetworkExtendedLength(n) + rest;
    ClientHeaderBits(n, false);
    ReadNetworkOrderLength(h, n, rest);
    assert f[1] == h[1];
  }
}
