/** The `QuickDebug` facade: the registry of receive keys, the dispatch of a
    `key;value` message from the browser to the bound variable, the plot queue
    and the publisher's drain pass, and the start/stop guards.

    The facade's static members are the fields of one `QuickDebug` object.
    Memory reached through a binding's address is the map `targets`; the
    publisher thread is one call of `DrainPass`, and the web server thread
    is only recorded as started. */
module QuickDebug {
  import opened Common
  import opened Fields
  import opened Decimal
  import opened Entities
  import opened FixedString
  import opened ConcurrentQueue
  import opened WebSocketServer
  import Handshake
  import IpDataStore

  // ---- splitting a received message ----

  /** `std::string::npos`, the largest `size_t`. */
  const Npos: nat := Handshake.Npos

  /** No `std::string` is longer than this. */
  const MaxSize: nat := Npos - 1

  /** `msg.find(';')`: the first position of the separator, or `npos`. */
  function FindChar(s: Text, c: Char8): (r: nat)
    ensures c in s ==> r < |s| && s[r] == c && c !in s[..r]
    ensures c !in s ==> r == Npos
  {
    var i := IndexOf(s, c);
    if i == -1 then Npos else i
  }

  /** `s.substr(pos, count)`: the longest piece of the text from `pos` on
      that has at most `count` characters. */
  function Substr(s: Text, pos: nat, count: nat): (r: Text)
    requires pos <= |s|
    ensures |r| <= count && r <= s[pos..]
    ensures |r| == count || r == s[pos..]
  {
    if count >= |s| - pos then s[pos..] else s[pos..pos + count]
  }

  /** `msg.substr(0, msg.find(';'))`. */
  function KeyOf(msg: Text): Text {
    Substr(msg, 0, FindChar(msg, Separator))
  }

  /** `msg.substr(msg.find(';') + 1)`: the addition is on `size_t`, so
      without a separator `npos + 1` wraps to 0. */
  function ValueOf(msg: Text): Text
    requires |msg| <= MaxSize
  {
    Substr(msg, (FindChar(msg, Separator) + 1) % Handshake.SizeModulus, Npos)
  }

  /** The key is the text before the first `;` and the value the text after
      it; without a `;` both are the whole message. */
  lemma KeyValueSplit(msg: Text)
    requires |msg| <= MaxSize
    ensures Separator in msg ==> KeyOf(msg) + [Separator] + ValueOf(msg) == msg && Separator !in KeyOf(msg)
    ensures Separator !in msg ==> KeyOf(msg) == msg && ValueOf(msg) == msg
  {
    if Separator in msg {
      var i := FindChar(msg, Separator);
      assert KeyOf(msg) == msg[..i];
      assert ValueOf(msg) == msg[i + 1..];
      assert msg == msg[..i] + [msg[i]] + msg[i + 1..];
    }
  }

  /** The key is the first field of the message. */
  lemma KeyIsFirstField(msg: Text)
    requires |msg| <= MaxSize
    ensures KeyOf(msg) == Split(msg, Separator)[0]
  {
    KeyValueSplit(msg);
    if Separator in msg {
      SplitAfterField(KeyOf(msg), ValueOf(msg), Separator);
    }
  }

  /** What the client's `SendMessageToAll` sends reaches the native side as
      the same key and value, provided the key has no `;` of its own. */
  lemma ClientMessageReachesKey(m: IpDataStore.ConfigMessage)
    requires Separator !in m.key && |IpDataStore.MessageText(m)| <= MaxSize
    ensures KeyOf(IpDataStore.MessageText(m)) == m.key
    ensures ValueOf(IpDataStore.MessageText(m)) == m.value
  {
    assert IpDataStore.MessageText(m) == m.key + [Separator] + m.value;
    KeyThenValue(m.key, m.value);
  }

  lemma KeyThenValue(key: Text, value: Text)
    requires Separator !in key && |key| + 1 + |value| <= MaxSize
    ensures KeyOf(key + [Separator] + value) == key
    ensures ValueOf(key + [Separator] + value) == value
  {
    var msg := key + [Separator] + value;
    IndexOfAfterPrefix(key, Separator, value);
    assert FindChar(msg, Separator) == |key|;
    assert msg[..|key|] == key && msg[|key| + 1..] == value;
  }

  // ---- std::stoi ----

  type I32 = x: int | -0x8000_0000 <= x < 0x8000_0000

  /** The outcome of `std::stoi`: a value, or the exception it throws. */
  datatype IntParse = IntValue(value: I32) | InvalidArgument | OutOfRange

  predicate IsSpace(c: char) {
    c == ' ' || c == '\t' || c == '\n' || c == '\U{000B}' || c == '\U{000C}' || c == '\r'
  }

  /** The text after the leading white space `strtol` skips. */
  function SkipSpace(s: Text): (r: Text)
    ensures |r| <= |s| && r == s[|s| - |r|..]
    ensures r != [] ==> !IsSpace(r[0])
  {
    if s != [] && IsSpace(s[0]) then SkipSpace(s[1..]) else s
  }

  /** The longest run of decimal digits at the front. */
  function DigitPrefix(s: Text): (r: Text)
    ensures |r| <= |s| && r == s[..|r|]
    ensures forall i :: 0 <= i < |r| ==> IsDigit(r[i])
    ensures |r| < |s| ==> !IsDigit(s[|r|])
  {
    if s != [] && IsDigit(s[0]) then
      var rest := DigitPrefix(s[1..]);
      assert [s[0]] + rest == s[..1 + |rest|];
      [s[0]] + rest
    else []
  }

  /** `std::stoi(s)` in base 10: skip white space, an optional sign, then as
      many digits as there are; no digit is `invalid_argument`, a value
      outside `int` is `out_of_range`. */
  function StoI(s: Text): (r: IntParse) {
    ReadSigned(SkipSpace(s))
  }

  /** An optional sign, then the digits. */
  function ReadSigned(t: Text): IntParse {
    if t != [] && t[0] == '-' then ReadDigits(t[1..], true)
    else if t != [] && t[0] == '+' then ReadDigits(t[1..], false)
    else ReadDigits(t, false)
  }

  /** The digits at the front, range-checked against `int`. */
  function ReadDigits(rest: Text, negative: bool): IntParse {
    var digits := DigitPrefix(rest);
    if digits == [] then InvalidArgument
    else
      var v: int := if negative then -(DigitsValue(digits) as int) else DigitsValue(digits);
      if -0x8000_0000 <= v < 0x8000_0000 then IntValue(v) else OutOfRange
  }

  lemma {:induction false} DigitPrefixOfDigits(s: Text)
    requires forall i :: 0 <= i < |s| ==> IsDigit(s[i])
    ensures DigitPrefix(s) == s
    decreases |s|
  {
    if s != [] {
      assert forall i :: 0 <= i < |s| - 1 ==> s[1..][i] == s[i + 1];
      DigitPrefixOfDigits(s[1..]);
    }
  }

  /** The decimal text of a value `stoi` can hold reads back as that value. */
  lemma StoINatToText(n: nat)
    requires n < 0x8000_0000
    ensures StoI(NatToText(n)) == IntValue(n)
  {
    var s := NatToText(n);
    DigitsReadBack(s);
    NatToTextRoundTrip(n);
  }

  /** A non-empty run of digits is read whole. */
  lemma DigitsReadBack(s: Text)
    requires s != [] && forall i :: 0 <= i < |s| ==> IsDigit(s[i])
    ensures DigitsValue(s) < 0x8000_0000 ==> StoI(s) == IntValue(DigitsValue(s))
  {
    UnsignedIsRead(s);
    DigitsReadWhole(s);
  }

  /** A text starting with a digit has no space or sign to skip. */
  lemma UnsignedIsRead(s: Text)
    requires s != [] && IsDigit(s[0])
    ensures StoI(s) == ReadDigits(s, false)
  {
    assert !IsSpace(s[0]) && s[0] != '-' && s[0] != '+';
    assert SkipSpace(s) == s;
  }

  lemma DigitsReadWhole(s: Text)
    requires s != [] && forall i :: 0 <= i < |s| ==> IsDigit(s[i])
    ensures DigitsValue(s) < 0x8000_0000 ==> ReadDigits(s, false) == IntValue(DigitsValue(s))
  {
    DigitPrefixOfDigits(s);
  }

  /** So does a minus sign in front of it, down to the least `int`. */
  lemma StoINegative(n: nat)
    requires n <= 0x8000_0000
    ensures StoI(['-'] + NatToText(n)) == IntValue(-(n as int))
  {
    var s := ['-'] + NatToText(n);
    assert SkipSpace(s) == s;
    assert s[1..] == NatToText(n);
    assert ReadSigned(s) == ReadDigits(NatToText(n), true);
    DigitPrefixOfDigits(NatToText(n));
    NatToTextRoundTrip(n);
  }

  /** A text without digits after the sign is `invalid_argument`. */
  lemma StoIRejectsNonNumber(s: Text)
    requires s != [] && !IsSpace(s[0]) && !IsDigit(s[0]) && s[0] != '-' && s[0] != '+'
    ensures StoI(s) == InvalidArgument
  {
  }

  // ---- dispatching a received value ----

  /** The type tags `RegisterRecvKey` gives a binding. */
  const FloatTag: TypeTag := 1
  const IntTag: TypeTag := 2
  const StringTag: TypeTag := 3

  /** The capacity of the `FixedString<32>` a string binding points to. */
  const StringCapacity: nat := 32

  /** A bound variable's value: a float's bits as `std::stof` produced them,
      an `i32`, or the text a `FixedString<32>` holds. */
  datatype Target = Float(bits: bv32) | Int(value: I32) | Str(text: Text)

  /** `std::stof`: the float's bits, or `None` when it throws. */
  type Stof = Text -> Option<bv32>

  /** The result of `OnMessageReceived`: whether it returned or threw, and
      the variables afterwards. */
  datatype Received = Received(outcome: Outcome, targets: map<Address, Target>)

  /** The dispatch of one message: look the key up, then write the parsed
      value through the binding's address according to its tag. */
  function Dispatch(bindings: map<Text, RecvMessageConfig>, targets: map<Address, Target>, msg: Text, stof: Stof): Received
    requires |msg| <= MaxSize
  {
    var key := KeyOf(msg);
    var value := ValueOf(msg);
    if key !in bindings then Received(Pass, targets)
    else
      var config := bindings[key];
      var at := config.targetValue;
      if config.targetValueType == FloatTag then
        match stof(value)
        case None => Received(Fail("stof"), targets)
        case Some(bits) => Received(Pass, targets[at := Float(bits)])
      else if config.targetValueType == IntTag then
        match StoI(value)
        case IntValue(v) => Received(Pass, targets[at := Int(v)])
        case _ => Received(Fail("stoi"), targets)
      else if config.targetValueType == StringTag then
        Received(Pass, targets[at := Str(Kept(value, StringCapacity))])
      else Received(Pass, targets)
  }

  /** A key nobody registered, and a message that fails to parse, leave
      every variable as it was. */
  lemma UnknownKeyKeepsTargets(bindings: map<Text, RecvMessageConfig>, targets: map<Address, Target>, msg: Text, stof: Stof)
    requires |msg| <= MaxSize
    ensures KeyOf(msg) !in bindings ==> Dispatch(bindings, targets, msg, stof) == Received(Pass, targets)
    ensures Dispatch(bindings, targets, msg, stof).outcome.Fail? ==> Dispatch(bindings, targets, msg, stof).targets == targets
  {
  }

  /** A known key changes no variable but its own. */
  lemma OnlyOwnTargetChanges(bindings: map<Text, RecvMessageConfig>, targets: map<Address, Target>, msg: Text, stof: Stof, a: Address)
    requires |msg| <= MaxSize
    requires KeyOf(msg) in bindings && a != bindings[KeyOf(msg)].targetValue
    ensures a in Dispatch(bindings, targets, msg, stof).targets <==> a in targets
    ensures a in targets ==> Dispatch(bindings, targets, msg, stof).targets[a] == targets[a]
  {
  }

  /** A registered integer receives the number the client sends for it. */
  lemma IntBindingReceives(bindings: map<Text, RecvMessageConfig>, targets: map<Address, Target>, key: Text, at: Address, n: nat, stof: Stof)
    requires Separator !in key && n < 0x8000_0000
    requires |key| + 1 + |NatToText(n)| <= MaxSize
    ensures Dispatch(bindings[key := RecvMessageConfig(IntTag, at)], targets, key + [Separator] + NatToText(n), stof)
         == Received(Pass, targets[at := Int(n)])
  {
    var m := IpDataStore.ConfigMessage(key, NatToText(n));
    ClientMessageReachesKey(m);
    assert IpDataStore.MessageText(m) == key + [Separator] + NatToText(n);
    StoINatToText(n);
  }

  /** A registered string receives the value cut to 32 characters. */
  lemma StringBindingReceives(bindings: map<Text, RecvMessageConfig>, targets: map<Address, Target>, key: Text, at: Address, value: Text, stof: Stof)
    requires Separator !in key && |key| + 1 + |value| <= MaxSize
    ensures var r := Dispatch(bindings[key := RecvMessageConfig(StringTag, at)], targets, key + [Separator] + value, stof);
      r.outcome == Pass && r.targets == targets[at := Str(Kept(value, StringCapacity))]
      && |r.targets[at].text| <= StringCapacity
  {
    var m := IpDataStore.ConfigMessage(key, value);
    ClientMessageReachesKey(m);
    assert IpDataStore.MessageText(m) == key + [Separator] + value;
  }

  /** A registered integer sent a value that is no number: `std::stoi`
      throws `invalid_argument` before anything is written. */
  lemma MalformedIntThrows(bindings: map<Text, RecvMessageConfig>, targets: map<Address, Target>, key: Text, at: Address, value: Text, stof: Stof)
    requires Separator !in key && |key| + 1 + |value| <= MaxSize
    requires value != [] && !IsSpace(value[0]) && !IsDigit(value[0]) && value[0] != '-' && value[0] != '+'
    ensures Dispatch(bindings[key := RecvMessageConfig(IntTag, at)], targets, key + [Separator] + value, stof)
         == Received(Fail("stoi"), targets)
  {
    KeyThenValue(key, value);
    StoIRejectsNonNumber(value);
  }

  /** A registered float sent a value `std::stof` rejects: it throws before
      anything is written. */
  lemma MalformedFloatThrows(bindings: map<Text, RecvMessageConfig>, targets: map<Address, Target>, key: Text, at: Address, value: Text, stof: Stof)
    requires Separator !in key && |key| + 1 + |value| <= MaxSize
    requires stof(value).None?
    ensures Dispatch(bindings[key := RecvMessageConfig(FloatTag, at)], targets, key + [Separator] + value, stof)
         == Received(Fail("stof"), targets)
  {
    KeyThenValue(key, value);
  }

  // ---- the publisher ----

  /** The frames a broadcast of each message sends, one message after the other. */
  function DrainSends(clients: seq<ClientConnection>, ms: seq<TransmissionMsg>): seq<(Socket, seq<Byte>)>
    decreases |ms|
  {
    if ms == [] then []
    else DrainSends(clients, ms[..|ms| - 1]) + BroadcastSends(clients, ms[|ms| - 1].message)
  }

  /** The number of items one drain pass pops from `n`: the loop counter
      climbs while the size falls, so they meet half way, rounded up. */
  function Popped(n: nat): (k: nat)
    ensures k <= n
  {
    (n + 1) / 2
  }

  /** A pass pops the least count that reaches the falling size: at least
      half, at most half and one, and one at least when anything is queued. */
  lemma PoppedMeetsSize(n: nat)
    ensures n <= 2 * Popped(n) <= n + 1
    ensures n - Popped(n) == n / 2
    ensures n > 0 ==> Popped(n) > 0
    ensures n > 0 ==> 2 * (Popped(n) - 1) < n
  {
  }

  lemma PoppedStep(n: nat, i: nat)
    requires i < n - i
    ensures i + 1 <= Popped(n)
  {
  }

  lemma PoppedExit(n: nat, i: nat)
    requires i <= Popped(n) && n - i <= i
    ensures i == Popped(n)
  {
  }

  lemma DrainSendsStep(clients: seq<ClientConnection>, items: seq<TransmissionMsg>, i: nat)
    requires i < |items|
    ensures DrainSends(clients, items[..i + 1]) == DrainSends(clients, items[..i]) + BroadcastSends(clients, items[i].message)
  {
    assert items[..i + 1][..i] == items[..i];
  }

  // ---- the facade ----

  class QuickDebug {
    const server: WebSocketServer
    const queue: ConcurrentQueue<TransmissionMsg>
    var cfg: QuickDebugConfig
    var recvMessageConfigs: map<Text, RecvMessageConfig>
    var targets: map<Address, Target>
    var webServerStarted: bool

    constructor(sha1: Text -> Handshake.Digest, targets: map<Address, Target>)
      ensures fresh(server) && fresh(queue)
      ensures !server.isRunning && server.clients == [] && server.sent == [] && queue.items == []
      ensures cfg == DefaultConfig && recvMessageConfigs == map[] && this.targets == targets && !webServerStarted
    {
      server := new WebSocketServer(sha1);
      queue := new ConcurrentQueue<TransmissionMsg>();
      cfg := DefaultConfig;
      recvMessageConfigs := map[];
      this.targets := targets;
      webServerStarted := false;
    }

    function IsRunning(): bool
      reads server
    {
      server.IsRunning()
    }

    /** `RegisterRecvKey(key, const f32&)`. */
    method RegisterRecvFloat(key: Text, at: Address)
      modifies this
      ensures recvMessageConfigs == old(recvMessageConfigs)[CStr(key) := RecvMessageConfig(FloatTag, at)]
      ensures targets == old(targets) && cfg == old(cfg) && webServerStarted == old(webServerStarted)
    {
      recvMessageConfigs := recvMessageConfigs[CStr(key) := RecvMessageConfig(FloatTag, at)];
    }

    /** `RegisterRecvKey(key, const i32&)`. */
    method RegisterRecvInt(key: Text, at: Address)
      modifies this
      ensures recvMessageConfigs == old(recvMessageConfigs)[CStr(key) := RecvMessageConfig(IntTag, at)]
      ensures targets == old(targets) && cfg == old(cfg) && webServerStarted == old(webServerStarted)
    {
      recvMessageConfigs := recvMessageConfigs[CStr(key) := RecvMessageConfig(IntTag, at)];
    }

    /** `RegisterRecvKey(key, const FixedString<32>&)`. */
    method RegisterRecvString(key: Text, at: Address)
      modifies this
      ensures recvMessageConfigs == old(recvMessageConfigs)[CStr(key) := RecvMessageConfig(StringTag, at)]
      ensures targets == old(targets) && cfg == old(cfg) && webServerStarted == old(webServerStarted)
    {
      recvMessageConfigs := recvMessageConfigs[CStr(key) := RecvMessageConfig(StringTag, at)];
    }

    method Configure(newCfg: QuickDebugConfig)
      modifies this
      ensures cfg == newCfg
      ensures recvMessageConfigs == old(recvMessageConfigs) && targets == old(targets) && webServerStarted == old(webServerStarted)
    {
      cfg := newCfg;
    }

    /** `Startup(cfg)`: nothing when the server already runs; otherwise keep
        the configuration, start the server on its port and, if asked, the
        web server. */
    method StartupWith(newCfg: QuickDebugConfig)
      modifies this, server
      ensures old(server.isRunning) ==>
        cfg == old(cfg) && webServerStarted == old(webServerStarted) && server.port == old(server.port)
      ensures !old(server.isRunning) ==>
        cfg == newCfg && server.port == newCfg.websocketPort && webServerStarted == (old(webServerStarted) || newCfg.useWebserver)
      ensures server.isRunning
      ensures server.clients == old(server.clients) && server.sent == old(server.sent)
      ensures recvMessageConfigs == old(recvMessageConfigs) && targets == old(targets)
    {
      if server.IsRunning() {
        return;
      }
      cfg := newCfg;
      var started := server.Start(cfg.websocketPort);
      if cfg.useWebserver {
        webServerStarted := true;
      }
    }

    /** `Startup()` as written: a fresh value-initialised configuration,
        so whatever `Configure` stored is replaced by the defaults. */
    method StartupAsWritten()
      modifies this, server
      ensures !old(server.isRunning) ==> cfg == DefaultConfig && server.port == DefaultConfig.websocketPort
      ensures old(server.isRunning) ==> cfg == old(cfg) && server.port == old(server.port)
      ensures server.isRunning
      ensures server.clients == old(server.clients) && server.sent == old(server.sent)
      ensures recvMessageConfigs == old(recvMessageConfigs) && targets == old(targets)
      ensures webServerStarted == old(webServerStarted)
    {
      StartupWith(DefaultConfig);
    }

    /** `Startup()` as its callers rely on: start with the configuration
        `Configure` stored. */
    method Startup()
      modifies this, server
      ensures !old(server.isRunning) ==> cfg == old(cfg) && server.port == old(cfg).websocketPort
      ensures old(server.isRunning) ==> cfg == old(cfg) && server.port == old(server.port)
      ensures server.isRunning
      ensures server.clients == old(server.clients) && server.sent == old(server.sent)
      ensures recvMessageConfigs == old(recvMessageConfigs) && targets == old(targets)
      ensures webServerStarted == (old(webServerStarted) || (!old(server.isRunning) && old(cfg).useWebserver))
    {
      StartupWith(cfg);
    }

    /** `Plot(graph, value)`: start if needed, then queue one plot message.
        The `std::string` overload passes `graph.c_str()`, the same text.
        As written the start goes through `Startup()`, so a stopped facade
        comes up with the default configuration. */
    method Plot(graph: Text, valueText: Text)
      modifies this, server, queue
      ensures queue.items == old(queue.items) + [CreatePlotMessage(graph, valueText)]
      ensures !old(server.isRunning) ==> cfg == DefaultConfig && server.port == DefaultConfig.websocketPort
      ensures old(server.isRunning) ==> cfg == old(cfg) && server.port == old(server.port)
      ensures server.isRunning && server.sent == old(server.sent) && server.clients == old(server.clients)
      ensures recvMessageConfigs == old(recvMessageConfigs) && targets == old(targets)
      ensures webServerStarted == old(webServerStarted)
    {
      StartupAsWritten();
      queue.Push(CreatePlotMessage(graph, valueText));
    }

    /** `Plot` starting with the configuration `Configure` stored. */
    method PlotIntended(graph: Text, valueText: Text)
      modifies this, server, queue
      ensures queue.items == old(queue.items) + [CreatePlotMessage(graph, valueText)]
      ensures cfg == old(cfg)
      ensures !old(server.isRunning) ==> server.port == old(cfg).websocketPort
      ensures old(server.isRunning) ==> server.port == old(server.port)
      ensures server.isRunning && server.sent == old(server.sent) && server.clients == old(server.clients)
      ensures recvMessageConfigs == old(recvMessageConfigs) && targets == old(targets)
      ensures webServerStarted == (old(webServerStarted) || (!old(server.isRunning) && old(cfg).useWebserver))
    {
      Startup();
      queue.Push(CreatePlotMessage(graph, valueText));
    }

    /** `PlotAndSend`: start if needed, through `Startup()` as written, then
        broadcast the plot message at once. */
    method PlotAndSend(graph: Text, valueText: Text)
      modifies this, server
      ensures server.sent == old(server.sent) + BroadcastSends(old(server.clients), CreatePlotMessage(graph, valueText).message)
      ensures !old(server.isRunning) ==> cfg == DefaultConfig && server.port == DefaultConfig.websocketPort
      ensures old(server.isRunning) ==> cfg == old(cfg) && server.port == old(server.port)
      ensures server.isRunning && server.clients == old(server.clients)
      ensures recvMessageConfigs == old(recvMessageConfigs) && targets == old(targets)
      ensures webServerStarted == old(webServerStarted)
    {
      StartupAsWritten();
      server.BroadcastMessage(CreatePlotMessage(graph, valueText).message);
    }

    /** `OnClientConnected`: queue the list of configurable keys. */
    method OnClientConnected(s: Socket)
      modifies queue
      ensures queue.items == old(queue.items) + [CreateConfigurationVariableMessage(recvMessageConfigs)]
    {
      queue.Push(CreateConfigurationVariableMessage(recvMessageConfigs));
    }

    /** `OnMessageReceived`: split, look up, and write through the binding. */
    method OnMessageReceived(s: Socket, msg: Text, stof: Stof) returns (o: Outcome)
      requires |msg| <= MaxSize
      modifies this
      ensures Received(o, targets) == Dispatch(old(recvMessageConfigs), old(targets), msg, stof)
      ensures recvMessageConfigs == old(recvMessageConfigs) && cfg == old(cfg) && webServerStarted == old(webServerStarted)
    {
      var key := Substr(msg, 0, FindChar(msg, Separator));
      var value := Substr(msg, (FindChar(msg, Separator) + 1) % Handshake.SizeModulus, Npos);
      if key !in recvMessageConfigs {
        return Pass;
      }
      var config := recvMessageConfigs[key];
      o := Pass;
      if config.targetValueType == FloatTag {
        var parsed := stof(value);
        if parsed.None? {
          return Fail("stof");
        }
        targets := targets[config.targetValue := Float(parsed.value)];
      } else if config.targetValueType == IntTag {
        var parsed := StoI(value);
        if !parsed.IntValue? {
          return Fail("stoi");
        }
        targets := targets[config.targetValue := Int(parsed.value)];
      } else if config.targetValueType == StringTag {
        targets := targets[config.targetValue := Str(Kept(value, StringCapacity))];
      }
    }

    /** The handler with the parse guarded by a `try`/`catch` that drops the
        message: every message returns, and one that fails to parse writes
        nothing. */
    method OnMessageReceivedCaught(s: Socket, msg: Text, stof: Stof) returns (o: Outcome)
      requires |msg| <= MaxSize
      modifies this
      ensures o == Pass
      ensures targets == Dispatch(old(recvMessageConfigs), old(targets), msg, stof).targets
      ensures Dispatch(old(recvMessageConfigs), old(targets), msg, stof).outcome.Fail? ==> targets == old(targets)
      ensures recvMessageConfigs == old(recvMessageConfigs) && cfg == old(cfg) && webServerStarted == old(webServerStarted)
    {
      var thrown := OnMessageReceived(s, msg, stof);
      UnknownKeyKeepsTargets(old(recvMessageConfigs), old(targets), msg, stof);
      o := Pass;
    }

    /** One pass of the publisher thread's loop: `for (i = 0; i < Size(); i++)`
        pops and broadcasts, re-reading the size every time. */
    method DrainPass()
      modifies queue, server
      ensures queue.items == old(queue.items)[Popped(|old(queue.items)|)..]
      ensures server.sent == old(server.sent) + DrainSends(old(server.clients), old(queue.items)[..Popped(|old(queue.items)|)])
      ensures server.clients == old(server.clients) && server.isRunning == old(server.isRunning)
    {
      ghost var n := |queue.items|;
      ghost var items := queue.items;
      ghost var clients, sent0, running := server.clients, server.sent, server.isRunning;
      var i := 0;
      while i < queue.Size()
        invariant 0 <= i <= Popped(n) && queue.items == items[i..]
        invariant server.sent == sent0 + DrainSends(clients, items[..i])
        invariant server.clients == clients && server.isRunning == running
      {
        PoppedStep(n, i);
        PopAndBroadcast(items, i, clients, sent0);
        i := i + 1;
      }
      PoppedExit(n, i);
    }

    /** The body of the drain loop: pop the front message and broadcast it,
        which extends the sends of the `i` messages popped so far from
        `items` by those of message `i`. */
    method PopAndBroadcast(ghost items: seq<TransmissionMsg>, ghost i: nat, ghost clients: seq<ClientConnection>, ghost sent0: seq<(Socket, seq<Byte>)>)
      requires i < |items| && queue.items == items[i..]
      requires server.clients == clients && server.sent == sent0 + DrainSends(clients, items[..i])
      modifies queue, server
      ensures queue.items == items[i + 1..]
      ensures server.sent == sent0 + DrainSends(clients, items[..i + 1])
      ensures server.clients == clients && server.isRunning == old(server.isRunning)
    {
      var data := queue.Pop();
      server.BroadcastMessage(data.message);
      DrainSendsStep(clients, items, i);
      assert data == items[i] && queue.items == items[i + 1..];
    }

    /** `Shutdown` as written: stop the server, then `join` the publisher
        thread, which was detached at startup and so is not joinable:
        `std::thread::join` throws `std::system_error`. */
    method ShutdownAsWritten() returns (o: Outcome)
      modifies server
      ensures !old(server.isRunning) ==> o == Pass && server.isRunning == old(server.isRunning)
      ensures old(server.isRunning) ==> o.Fail? && !server.isRunning
      ensures server.clients == old(server.clients) && server.sent == old(server.sent)
    {
      if server.IsRunning() {
        var stopped := server.Stop();
        return Fail("join: thread is not joinable");
      }
      o := Pass;
    }

    /** `Shutdown` without joining the detached threads: the server stops and
        the publisher loop ends with it. */
    method Shutdown() returns (o: Outcome)
      modifies server
      ensures o == Pass && !server.isRunning
      ensures server.clients == old(server.clients) && server.sent == old(server.sent)
    {
      if server.IsRunning() {
        var stopped := server.Stop();
      }
      o := Pass;
    }
  }

  /** As written, a configured port is ignored by the first `Plot`: the
      server comes up on the default port 8126. */
  method ConfigureThenPlotAsWritten(sha1: Text -> Handshake.Digest, c: QuickDebugConfig, graph: Text, valueText: Text) returns (port: int)
    ensures port == DefaultConfig.websocketPort
  {
    var qd := new QuickDebug(sha1, map[]);
    qd.Configure(c);
    qd.Plot(graph, valueText);
    port := qd.server.port;
  }

  /** With `Startup()` using the stored configuration, the first `Plot`
      starts the server on the configured port. */
  method ConfigureThenPlot(sha1: Text -> Handshake.Digest, c: QuickDebugConfig, graph: Text, valueText: Text) returns (port: int)
    ensures port == c.websocketPort
  {
    var qd := new QuickDebug(sha1, map[]);
    qd.Configure(c);
    qd.PlotIntended(graph, valueText);
    port := qd.server.port;
  }

  /** As written, shutting a started facade down throws. */
  method StartThenShutdownAsWritten(sha1: Text -> Handshake.Digest) returns (o: Outcome)
    ensures o.Fail?
  {
    var qd := new QuickDebug(sha1, map[]);
    qd.StartupAsWritten();
    o := qd.ShutdownAsWritten();
  }

  /** Without the joins, it stops and returns. */
  method StartThenShutdown(sha1: Text -> Handshake.Digest) returns (o: Outcome, running: bool)
    ensures o == Pass && !running
  {
    var qd := new QuickDebug(sha1, map[]);
    qd.Startup();
    o := qd.Shutdown();
    running := qd.IsRunning();
  }

  /** The message `n;abc`: a value for the key `n` that is no number. */
  const MalformedKey: Text := "n"
  const MalformedValue: Text := "abc"

  /** A `std::stof` that rejects every text; the scenarios below bind no
      float. */
  function NoFloat(t: Text): Option<bv32> {
    None
  }

  /** As written, a client sending `n;abc` for an integer binding makes the
      handler throw; nothing between it and the client thread's entry point
      catches the exception. */
  method MalformedIntAsWritten(sha1: Text -> Handshake.Digest) returns (o: Outcome)
    ensures o == Fail("stoi")
  {
    var qd := new QuickDebug(sha1, map[0 := Int(7)]);
    CStrOfNulFree(MalformedKey);
    qd.RegisterRecvInt(MalformedKey, 0);
    MalformedIntThrows(map[], map[0 := Int(7)], MalformedKey, 0, MalformedValue, NoFloat);
    o := qd.OnMessageReceived(0, MalformedKey + [Separator] + MalformedValue, NoFloat);
  }

  /** With the parse guarded, the same message is dropped and the bound
      integer keeps its value. */
  method MalformedIntCaught(sha1: Text -> Handshake.Digest) returns (o: Outcome, value: Target)
    ensures o == Pass && value == Int(7)
  {
    var qd := new QuickDebug(sha1, map[0 := Int(7)]);
    CStrOfNulFree(MalformedKey);
    qd.RegisterRecvInt(MalformedKey, 0);
    MalformedIntThrows(map[], map[0 := Int(7)], MalformedKey, 0, MalformedValue, NoFloat);
    o := qd.OnMessageReceivedCaught(0, MalformedKey + [Separator] + MalformedValue, NoFloat);
    value := qd.targets[0];
  }
}
