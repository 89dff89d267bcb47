/** The server side of the opening handshake (section 4.2.2 of RFC 6455): the
    first chunk a client sends is read as an HTTP upgrade request; if it asks
    for the websocket upgrade, the server answers `101 Switching Protocols`
    with an accept key derived from the request's `Sec-WebSocket-Key`. */
module Handshake {
  import opened Common
  import Base64

  /** A SHA-1 digest. */
  type Digest = d: seq<Byte> | |d| == 20 witness seq(20, _ => 0)

  const UpgradeHeader: Text := "Upgrade: websocket"
  const KeyAttribute: Text := "Sec-WebSocket-Key: "
  /** The key suffix fixed by section 1.3 of RFC 6455. */
  const KeyGuid: Text := "258EAFA5-E914-47DA-95CA-C5AB0DC85B11"

  /** `std::string::npos` and the arithmetic of `size_t`. */
  const SizeModulus: nat := 0x1_0000_0000_0000_0000
  const Npos: nat := SizeModulus - 1

  predicate MatchAt(s: Text, pat: Text, i: nat) {
    i + |pat| <= |s| && s[i..i + |pat|] == pat
  }

  /** `s.find(pat, from)`: the first index at or after `from` where `pat` occurs. */
  function FindFrom(s: Text, pat: Text, from: nat): (r: Option<nat>)
    ensures r.Some? ==> from <= r.value && MatchAt(s, pat, r.value)
                        && forall j :: from <= j < r.value ==> !MatchAt(s, pat, j)
    ensures r.None? ==> forall j :: from <= j ==> !MatchAt(s, pat, j)
    decreases |s| - from
  {
    if from + |pat| > |s| then None
    else if s[from..from + |pat|] == pat then Some(from)
    else FindFrom(s, pat, from + 1)
  }

  function Find(s: Text, pat: Text): (r: Option<nat>) {
    FindFrom(s, pat, 0)
  }

  lemma {:induction false} FindFromFirst(s: Text, pat: Text, from: nat, p: nat)
    requires from <= p && MatchAt(s, pat, p)
    requires forall j :: from <= j < p ==> !MatchAt(s, pat, j)
    ensures FindFrom(s, pat, from) == Some(p)
    decreases p - from
  {
    if from < p {
      assert !MatchAt(s, pat, from);
      FindFromFirst(s, pat, from + 1, p);
    }
  }

  predicate IsLineBreak(c: char) {
    c == '\r' || c == '\n'
  }

  /** `s.find_first_of("\r\n", from)`. */
  function FindLineBreak(s: Text, from: nat): (r: Option<nat>)
    ensures r.Some? ==> from <= r.value < |s| && IsLineBreak(s[r.value])
                        && forall j :: from <= j < r.value ==> !IsLineBreak(s[j])
    ensures r.None? ==> forall j :: from <= j < |s| ==> !IsLineBreak(s[j])
    decreases |s| - from
  {
    if from >= |s| then None
    else if IsLineBreak(s[from]) then Some(from)
    else FindLineBreak(s, from + 1)
  }

  /** Where the key is taken from: just after the attribute name, or, when the
      request has none, `npos + 19`, which wraps around to 18. */
  function KeyStart(request: Text): nat {
    match Find(request, KeyAttribute)
    case Some(i) => i + |KeyAttribute|
    case None => (Npos + |KeyAttribute|) % SizeModulus
  }

  /** `request.substr(startIdx, endIdx - startIdx)`: from the key start up to
      the first CR or LF after it, or to the end. None where `substr` would
      throw because the start lies past the end. */
  function ExtractKey(request: Text): (r: Option<Text>) {
    var start := KeyStart(request);
    if start > |request| then None
    else
      var end := match FindLineBreak(request, start) case Some(e) => e case None => |request|;
      Some(request[start..end])
  }

  /** `std::string::find_first_not_of(' ')` and `find_last_not_of(' ')`, then
      the substring between them; a string of spaces only is returned as it is. */
  function Trim(s: Text): (r: Text) {
    match FirstNonSpace(s, 0)
    case None => s
    case Some(first) =>
      var last := LastNonSpace(s, |s|);
      s[first..last + 1]
  }

  function FirstNonSpace(s: Text, from: nat): (r: Option<nat>)
    ensures r.Some? ==> from <= r.value < |s| && s[r.value] != ' '
                        && forall j :: from <= j < r.value ==> s[j] == ' '
    ensures r.None? ==> forall j :: from <= j < |s| ==> s[j] == ' '
    decreases |s| - from
  {
    if from >= |s| then None
    else if s[from] != ' ' then Some(from)
    else FirstNonSpace(s, from + 1)
  }

  /** The last index below `upTo` that does not hold a space, when there is one. */
  function LastNonSpace(s: Text, upTo: nat): (last: nat)
    requires upTo <= |s|
    requires exists j :: 0 <= j < upTo && s[j] != ' '
    ensures last < upTo && s[last] != ' '
    ensures forall j :: last < j < upTo ==> s[j] == ' '
  {
    if s[upTo - 1] != ' ' then upTo - 1
    else
      var j :| 0 <= j < upTo && s[j] != ' ';
      assert j < upTo - 1;
      LastNonSpace(s, upTo - 1)
  }

  /** The number of spaces a string starts with. */
  function LeadingSpaces(s: Text): (n: nat)
    ensures n <= |s| && forall j :: 0 <= j < n ==> s[j] == ' '
    ensures n < |s| ==> s[n] != ' '
  {
    if s == [] || s[0] != ' ' then 0 else 1 + LeadingSpaces(s[1..])
  }

  /** The number of spaces a string ends with. */
  function TrailingSpaces(s: Text): (n: nat)
    ensures n <= |s| && forall j :: |s| - n <= j < |s| ==> s[j] == ' '
    ensures n < |s| ==> s[|s| - n - 1] != ' '
  {
    if s == [] || s[|s| - 1] != ' ' then 0 else 1 + TrailingSpaces(s[..|s| - 1])
  }

  /** `Trim` strips exactly the leading and the trailing spaces, and what is
      left neither starts nor ends with a space. */
  lemma TrimStripsSpaces(s: Text)
    requires exists j :: 0 <= j < |s| && s[j] != ' '
    ensures LeadingSpaces(s) + TrailingSpaces(s) < |s|
    ensures s == Repeat(' ', LeadingSpaces(s)) + Trim(s) + Repeat(' ', TrailingSpaces(s))
    ensures Trim(s)[0] != ' ' && Trim(s)[|Trim(s)| - 1] != ' '
  {
    var first := FirstNonSpace(s, 0).value;
    var last := LastNonSpace(s, |s|);
    var lead, trail := LeadingSpaces(s), TrailingSpaces(s);
    assert first == lead;
    assert last == |s| - trail - 1;
    var t := Trim(s);
    assert t == s[lead..|s| - trail];
    assert s == s[..lead] + t + s[|s| - trail..];
    assert s[..lead] == Repeat(' ', lead);
    assert s[|s| - trail..] == Repeat(' ', trail);
  }

  /** A string of spaces only, the empty one included, is returned as it is. */
  lemma TrimOnlySpaces(s: Text)
    requires forall j :: 0 <= j < |s| ==> s[j] == ' '
    ensures Trim(s) == s
  {
  }

  /** A string that neither starts nor ends with a space is left as it is. */
  lemma TrimNoEdgeSpaces(s: Text)
    requires s != [] ==> s[0] != ' ' && s[|s| - 1] != ' '
    ensures Trim(s) == s
  {
    if s != [] {
      assert FirstNonSpace(s, 0) == Some(0);
      assert LastNonSpace(s, |s|) == |s| - 1;
    }
  }

  /** The accept key: Base64 of the SHA-1 of key and GUID, trimmed. */
  function AcceptKey(sha1: Text -> Digest, key: Text): (accept: Text) {
    Trim(Base64.Encode(sha1(key + KeyGuid)))
  }

  /** Trimming never changes the Base64 of a digest: the accept key is exactly
      that encoding, 28 characters ending in one `=`. */
  lemma AcceptKeyIsEncodedDigest(sha1: Text -> Digest, key: Text)
    ensures AcceptKey(sha1, key) == Base64.Encode(sha1(key + KeyGuid))
    ensures |AcceptKey(sha1, key)| == 28
    ensures AcceptKey(sha1, key)[27] == '='
  {
    var e := Base64.Encode(sha1(key + KeyGuid));
    Base64.DigestEncoding(sha1(key + KeyGuid));
    assert Base64.IsSymbol(e[0]);
    TrimNoEdgeSpaces(e);
  }

  const StatusLine: Text := "HTTP/1.1 101 Switching Protocols\r\n"
  const ConnectionLine: Text := "Connection: Upgrade\r\n"
  const UpgradeLine: Text := "Upgrade: websocket\r\n"
  const AcceptField: Text := "Sec-WebSocket-Accept: "

  /** The 101 response carrying an accept key. */
  function Response(accept: Text): (r: Text) {
    StatusLine + ConnectionLine + UpgradeLine + AcceptField + accept + "\r\n" + "\r\n"
  }

  /** The reply to the first chunk of a connection: a 101 response when the
      request asks for the websocket upgrade, nothing otherwise. */
  function Negotiate(sha1: Text -> Digest, request: Text): (reply: Option<Text>) {
    if Find(request, UpgradeHeader).None? then None
    else
      match ExtractKey(request)
      case None => None
      case Some(key) => Some(Response(AcceptKey(sha1, key)))
  }

  /** When the upgrade header is present the key start lies within the
      request, so `substr` never throws there. */
  lemma KeyStartInRange(request: Text)
    requires Find(request, UpgradeHeader).Some?
    ensures KeyStart(request) <= |request|
    ensures ExtractKey(request).Some?
  {
    assert |UpgradeHeader| == 18 && |KeyAttribute| == 19;
    var i := Find(request, UpgradeHeader).value;
    assert MatchAt(request, UpgradeHeader, i);
    match Find(request, KeyAttribute)
    case Some(k) => assert MatchAt(request, KeyAttribute, k);
    case None =>
  }

  /** A reply is sent exactly when the request contains the upgrade header. */
  lemma ReplyIffUpgrade(sha1: Text -> Digest, request: Text)
    ensures Negotiate(sha1, request).Some? <==> Find(request, UpgradeHeader).Some?
  {
    if Find(request, UpgradeHeader).Some? {
      KeyStartInRange(request);
    }
  }

  /** For a request whose first key attribute is followed by a key and a line
      break, the reply is the 101 text carrying that key's accept value. */
  lemma ReplyForKey(sha1: Text -> Digest, request: Text, prefix: Text, key: Text, rest: Text)
    requires request == prefix + KeyAttribute + key + "\r\n" + rest
    requires forall j :: 0 <= j < |prefix| ==> !MatchAt(request, KeyAttribute, j)
    requires forall j :: 0 <= j < |key| ==> !IsLineBreak(key[j])
    requires Find(request, UpgradeHeader).Some?
    ensures ExtractKey(request) == Some(key)
    ensures Negotiate(sha1, request)
      == Some(Response(Base64.Encode(sha1(key + KeyGuid))))
  {
    KeyOfRequest(request, prefix, key, rest);
    AcceptKeyIsEncodedDigest(sha1, key);
  }

  /** The key extracted from such a request. */
  lemma KeyOfRequest(request: Text, prefix: Text, key: Text, rest: Text)
    requires request == prefix + KeyAttribute + key + "\r\n" + rest
    requires forall j :: 0 <= j < |prefix| ==> !MatchAt(request, KeyAttribute, j)
    requires forall j :: 0 <= j < |key| ==> !IsLineBreak(key[j])
    ensures ExtractKey(request) == Some(key)
  {
    KeyStartAfterAttribute(request, prefix, key + "\r\n" + rest);
    assert request == (prefix + KeyAttribute) + key + ("\r\n" + rest);
    KeyEndsAtLineBreak(request, prefix + KeyAttribute, key, "\r\n" + rest);
  }

  /** The key starts right after the first key attribute. */
  lemma KeyStartAfterAttribute(request: Text, prefix: Text, after: Text)
    requires request == prefix + KeyAttribute + after
    requires forall j :: 0 <= j < |prefix| ==> !MatchAt(request, KeyAttribute, j)
    ensures KeyStart(request) == |prefix| + |KeyAttribute|
  {
    var p := |prefix|;
    assert request[p..p + |KeyAttribute|] == KeyAttribute;
    FindFromFirst(request, KeyAttribute, 0, p);
  }

  /** A key free of line breaks and followed by one is extracted whole. */
  lemma KeyEndsAtLineBreak(request: Text, before: Text, key: Text, after: Text)
    requires request == before + key + after
    requires forall j :: 0 <= j < |key| ==> !IsLineBreak(key[j])
    requires after != [] && IsLineBreak(after[0])
    ensures FindLineBreak(request, |before|) == Some(|before| + |key|)
    ensures request[|before|..|before| + |key|] == key
  {
    var start := |before|;
    forall j | start <= j < start + |key| ensures !IsLineBreak(request[j]) {
      assert request[j] == key[j - start];
    }
    assert request[start + |key|] == after[0];
    FindLineBreakFirst(request, start, start + |key|);
  }

  lemma {:induction false} FindLineBreakFirst(s: Text, from: nat, p: nat)
    requires from <= p < |s| && IsLineBreak(s[p])
    requires forall j :: from <= j < p ==> !IsLineBreak(s[j])
    ensures FindLineBreak(s, from) == Some(p)
    decreases p - from
  {
    if from < p {
      FindLineBreakFirst(s, from + 1, p);
    }
  }

  /** Without a key attribute the wrapped-around start makes the key whatever
      follows offset 18 up to the next line break, and a reply is still sent
      when the upgrade header is there. */
  lemma MissingKeyReadsFromOffset18(sha1: Text -> Digest, request: Text)
    requires Find(request, KeyAttribute).None?
    requires Find(request, UpgradeHeader).Some?
    ensures KeyStart(request) == 18
    ensures ExtractKey(request).Some? && request[18..] == ExtractKey(request).value + request[18 + |ExtractKey(request).value|..]
    ensures Negotiate(sha1, request) == Some(Response(AcceptKey(sha1, ExtractKey(request).value)))
  {
    KeyStartInRange(request);
    var key := ExtractKey(request).value;
    assert request[18..] == request[18..18 + |key|] + request[18 + |key|..];
  }
}
