/** The library's configuration record, the receive-key binding record and the
    `;`-delimited messages it sends to the browser client. The first field of
    every message is its type: `1` plot sample, `2` configurable variables,
    `3` recording control. */
module Entities {
  import opened Common
  import opened Fields
  import opened TextOrder

  type Port = p: int | 0 <= p < 0x1_0000

  datatype QuickDebugConfig = QuickDebugConfig(useWebserver: bool, websocketPort: Port)

  /** A value-initialised configuration: no web server, WebSocket port 8126. */
  const DefaultConfig: QuickDebugConfig := QuickDebugConfig(false, 8126)

  /** The signed 8-bit type tag: 1 float, 2 32-bit integer, 3 32-character string. */
  type TypeTag = t: int | -128 <= t < 128

  /** A target variable, identified by its address. */
  type Address = nat

  datatype RecvMessageConfig = RecvMessageConfig(targetValueType: TypeTag, targetValue: Address)

  datatype TransmissionMsg = TransmissionMsg(message: Text)

  const Separator: Char8 := ';'

  /** The first field of each kind of message. */
  const PlotType: Text := "1"
  const ConfigurationType: Text := "2"
  const RecordingType: Text := "3"

  /** The second field of a recording-control message. */
  const RecordingStarted: Text := "1"
  const RecordingStopped: Text := "0"

  /** A C string read up to its NUL has no separator if the whole buffer has none. */
  lemma CStrKeepsSeparatorOut(s: Text)
    requires Separator !in s
    ensures Separator !in CStr(s)
  {
    var r := CStr(s);
    assert r == s[..|r|];
  }

  /** `1;graph;value`, where `graph` is read as a C string and `valueText` is
      the float's decimal rendering. */
  function CreatePlotMessage(graph: Text, valueText: Text): (m: TransmissionMsg)
    ensures |m.message| == 3 + |CStr(graph)| + |valueText|
  {
    TransmissionMsg(PlotType + [Separator] + CStr(graph) + [Separator] + valueText)
  }

  /** The client reads back the graph name and the value as the plot message's
      second and third fields. */
  lemma PlotMessageFields(graph: Text, valueText: Text)
    requires Separator !in graph && Separator !in valueText
    ensures Split(CreatePlotMessage(graph, valueText).message, Separator) == [PlotType, CStr(graph), valueText]
  {
    CStrKeepsSeparatorOut(graph);
    SplitThree(PlotType, CStr(graph), valueText, Separator);
  }

  /** `2;` followed by `key;` for every bound key, in the map's ascending key order. */
  function CreateConfigurationVariableMessage(variables: map<Text, RecvMessageConfig>): (m: TransmissionMsg)
    ensures variables == map[] ==> m.message == "2;"
  {
    TransmissionMsg(ConfigurationType + [Separator] + JoinAfter(SortedKeys(variables.Keys), [Separator]))
  }

  /** A field, a separator and then every key with a separator after it is the
      join of the field, the keys and one final empty field. */
  lemma {:induction false} JoinAfterAsJoin(head: Text, keys: seq<Text>)
    ensures head + [Separator] + JoinAfter(keys, [Separator]) == Join([head] + keys + [[]], Separator)
    decreases |keys|
  {
    if keys == [] {
      assert [head] + keys + [[]] == [head, []];
    } else {
      JoinAfterAsJoin(keys[0], keys[1..]);
      assert [keys[0]] + keys[1..] + [[]] == keys + [[]];
      assert ([head] + keys + [[]])[1..] == keys + [[]];
    }
  }

  /** The client reads the configuration message as its type, then every key
      once in ascending order, then an empty last field. */
  lemma ConfigurationMessageFields(variables: map<Text, RecvMessageConfig>)
    requires forall k :: k in variables ==> Separator !in k
    ensures var keys := SortedKeys(variables.Keys);
      Split(CreateConfigurationVariableMessage(variables).message, Separator) == [ConfigurationType] + keys + [[]]
      && StrictlySorted(keys)
      && (forall k :: k in keys <==> k in variables)
  {
    var keys := SortedKeys(variables.Keys);
    SortedKeysSorted(variables.Keys);
    SortedKeysComplete(variables.Keys);
    JoinAfterAsJoin(ConfigurationType, keys);
    var parts := [ConfigurationType] + keys + [[]];
    forall i | 0 <= i < |parts| ensures Separator !in parts[i] {
      if 0 < i < |parts| - 1 {
        assert parts[i] == keys[i - 1];
        assert keys[i - 1] in keys;
      }
    }
    SplitJoin(parts, Separator);
  }

  /** `3;1;name`, with `name` read as a C string. */
  function CreateStartRecordingMessage(name: Text): (m: TransmissionMsg)
    ensures |m.message| == 4 + |CStr(name)|
  {
    TransmissionMsg(RecordingType + [Separator] + RecordingStarted + [Separator] + CStr(name))
  }

  lemma StartRecordingMessageFields(name: Text)
    requires Separator !in name
    ensures Split(CreateStartRecordingMessage(name).message, Separator)
      == [RecordingType, RecordingStarted, CStr(name)]
  {
    CStrKeepsSeparatorOut(name);
    SplitThree(RecordingType, RecordingStarted, CStr(name), Separator);
  }

  /** `3;0`: a recording-control message with no name field. */
  function CreateStopRecordingMessage(): (m: TransmissionMsg)
    ensures Split(m.message, Separator) == [RecordingType, RecordingStopped]
  {
    var parts := [RecordingType, RecordingStopped];
    SplitJoin(parts, Separator);
    TransmissionMsg(Join(parts, Separator))
  }

  /** The four builders are told apart by their first two fields. */
  lemma MessageKindsDiffer(graph: Text, valueText: Text, variables: map<Text, RecvMessageConfig>, name: Text)
    ensures CreatePlotMessage(graph, valueText).message[..2] == "1;"
    ensures CreateConfigurationVariableMessage(variables).message[..2] == "2;"
    ensures CreateStartRecordingMessage(name).message[..4] == "3;1;"
    ensures CreateStopRecordingMessage().message[..] == "3;0"
  {
  }
}
