/** The client's recordings: a recording is a named list of (data flow,
    value) records. It reports how many records each flow has and exports
    itself as CSV: a `Time,` header with one column per flow, then one line
    per value index starting with the index. The manager holds at most one
    active recording and the finished ones; a stored recording gets the
    first name not yet taken. A value is kept as the text JavaScript renders
    it to. */
module RecordingManager {
  import opened Common
  import opened Fields
  import opened Decimal
  import opened CsvTable

  datatype Record = Record(dataFlow: Text, data: Text)

  datatype Recording = Recording(name: Text, recordingData: seq<Record>)

  const TimeHeader: Text := "Time"
  const UnnamedRecording: Text := "UnnamedRecording"
  const NameSeparator: Text := "_"

  // ---- which flows a recording has, and how many records each ----

  /** The flows in the order they first occur. */
  function Flows(rs: seq<Record>): (r: seq<Text>)
    ensures forall a, b :: 0 <= a < b < |r| ==> r[a] != r[b]
    decreases |rs|
  {
    if rs == [] then []
    else
      var f := Flows(rs[..|rs| - 1]);
      var flow := rs[|rs| - 1].dataFlow;
      if flow in f then f else f + [flow]
  }

  /** A flow is listed exactly when some record has it. */
  lemma {:induction false} FlowsAreTheFlows(rs: seq<Record>)
    ensures forall x :: x in Flows(rs) <==> exists i :: 0 <= i < |rs| && rs[i].dataFlow == x
    decreases |rs|
  {
    if rs != [] {
      var init := rs[..|rs| - 1];
      FlowsAreTheFlows(init);
      assert forall i :: 0 <= i < |init| ==> rs[i] == init[i];
      assert rs == init + [rs[|rs| - 1]];
    }
  }

  /** The values of one flow, in record order. */
  function FlowData(rs: seq<Record>, flow: Text): (r: seq<Text>)
    ensures |r| <= |rs|
    decreases |rs|
  {
    if rs == [] then []
    else
      var last := rs[|rs| - 1];
      FlowData(rs[..|rs| - 1], flow) + (if last.dataFlow == flow then [last.data] else [])
  }

  /** The number of records with a flow: `gatherStats`' entry for it. */
  function Stats(rs: seq<Record>): (m: map<Text, nat>)
    decreases |rs|
  {
    if rs == [] then map[]
    else
      var m := Stats(rs[..|rs| - 1]);
      var flow := rs[|rs| - 1].dataFlow;
      m[flow := (if flow in m then m[flow] else 0) + 1]
  }

  /** The statistics have an entry exactly for each flow, and it counts that
      flow's records. */
  lemma {:induction false} StatsCountFlows(rs: seq<Record>)
    ensures forall x :: x in Stats(rs) <==> x in Flows(rs)
    ensures forall x :: x in Stats(rs) ==> Stats(rs)[x] == |FlowData(rs, x)|
    ensures forall x :: x !in Stats(rs) ==> FlowData(rs, x) == []
    decreases |rs|
  {
    if rs != [] {
      StatsCountFlows(rs[..|rs| - 1]);
    }
  }

  /** The entries of `m` for the flows in `order`, added up. */
  function SumOver(m: map<Text, nat>, order: seq<Text>): nat
    decreases |order|
  {
    if order == [] then 0
    else
      var k := order[|order| - 1];
      SumOver(m, order[..|order| - 1]) + (if k in m then m[k] else 0)
  }

  lemma {:induction false} SumOverIgnores(m: map<Text, nat>, order: seq<Text>, k: Text, v: nat)
    requires k !in order
    ensures SumOver(m[k := v], order) == SumOver(m, order)
    decreases |order|
  {
    if order != [] {
      SumOverIgnores(m, order[..|order| - 1], k, v);
    }
  }

  lemma {:induction false} SumOverBump(m: map<Text, nat>, order: seq<Text>, k: Text)
    requires k in m && k in order
    requires forall a, b :: 0 <= a < b < |order| ==> order[a] != order[b]
    ensures SumOver(m[k := m[k] + 1], order) == SumOver(m, order) + 1
    decreases |order|
  {
    var init := order[..|order| - 1];
    if order[|order| - 1] == k {
      forall a | 0 <= a < |init| ensures init[a] != k {
        assert init[a] == order[a];
      }
      SumOverIgnores(m, init, k, m[k] + 1);
    } else {
      assert k in init by {
        var a :| 0 <= a < |order| && order[a] == k;
        assert a < |init| && init[a] == k;
      }
      SumOverBump(m, init, k);
    }
  }

  /** The per-flow counts add up to the total, the number of records. */
  lemma {:induction false} StatsAddUp(rs: seq<Record>)
    ensures SumOver(Stats(rs), Flows(rs)) == |rs|
    decreases |rs|
  {
    if rs != [] {
      var init := rs[..|rs| - 1];
      var flow := rs[|rs| - 1].dataFlow;
      var m := Stats(init);
      var f := Flows(init);
      StatsAddUp(init);
      StatsCountFlows(init);
      if flow in f {
        SumOverBump(m, f, flow);
      } else {
        SumOverIgnores(m, f, flow, 1);
      }
    }
  }

  /** `gatherStats`. The JS `Map` also keeps its keys in first-insertion
      order, which `order` returns. */
  method GatherStats(recording: Recording) returns (stats: map<Text, nat>, order: seq<Text>, total: nat)
    ensures stats == Stats(recording.recordingData)
    ensures order == Flows(recording.recordingData)
    ensures total == |recording.recordingData|
  {
    var rs := recording.recordingData;
    stats := map[];
    order := [];
    var i := 0;
    while i < |rs|
      invariant 0 <= i <= |rs|
      invariant stats == Stats(rs[..i])
      invariant order == Flows(rs[..i])
      invariant forall x :: x in stats <==> x in order
    {
      assert rs[..i + 1][..i] == rs[..i];
      var flow := rs[i].dataFlow;
      if flow !in stats {
        stats := stats[flow := 0];
        order := order + [flow];
      }
      stats := stats[flow := stats[flow] + 1];
      i := i + 1;
    }
    assert rs[..i] == rs;
    total := |rs|;
  }

  // ---- the CSV toExport ----

  /** The values grouped by flow: the object `reduce` builds. */
  function Grouped(rs: seq<Record>): (m: map<Text, seq<Text>>)
    decreases |rs|
  {
    if rs == [] then map[]
    else
      var m := Grouped(rs[..|rs| - 1]);
      var last := rs[|rs| - 1];
      m[last.dataFlow := Values(m, last.dataFlow) + [last.data]]
  }

  /** Each flow's column holds exactly its values, in record order. */
  lemma {:induction false} GroupedColumns(rs: seq<Record>)
    ensures forall x :: x in Grouped(rs) <==> x in Flows(rs)
    ensures forall x :: Values(Grouped(rs), x) == FlowData(rs, x)
    decreases |rs|
  {
    if rs != [] {
      GroupedColumns(rs[..|rs| - 1]);
    }
  }

  /** Whether a flow is exported: an empty list exports every flow. */
  predicate Exports(toExport: seq<Text>, flow: Text) {
    toExport == [] || flow in toExport
  }

  /** The exported flows, in their order. */
  function Exported(flows: seq<Text>, toExport: seq<Text>): (r: seq<Text>)
    ensures |r| <= |flows|
    decreases |flows|
  {
    if flows == [] then []
    else
      var last := flows[|flows| - 1];
      Exported(flows[..|flows| - 1], toExport) + (if Exports(toExport, last) then [last] else [])
  }

  /** Exactly the listed flows are kept (all of them for an empty list), and
      no flow twice. */
  lemma {:induction false} ExportedFlows(flows: seq<Text>, toExport: seq<Text>)
    requires forall a, b :: 0 <= a < b < |flows| ==> flows[a] != flows[b]
    ensures forall x :: x in Exported(flows, toExport) <==> x in flows && Exports(toExport, x)
    ensures forall a, b :: 0 <= a < b < |Exported(flows, toExport)| ==> Exported(flows, toExport)[a] != Exported(flows, toExport)[b]
    ensures toExport == [] ==> Exported(flows, toExport) == flows
    decreases |flows|
  {
    if flows != [] {
      var init := flows[..|flows| - 1];
      var last := flows[|flows| - 1];
      ExportedFlows(init, toExport);
      forall a | 0 <= a < |init| ensures init[a] != last {
        assert init[a] == flows[a];
      }
      assert flows == init + [last];
    }
  }

  /** The grouped values after the unexported flows are deleted. */
  function Columns(rs: seq<Record>, toExport: seq<Text>): map<Text, seq<Text>> {
    var g := Grouped(rs);
    map f | f in g && Exports(toExport, f) :: g[f]
  }

  function HeaderLine(order: seq<Text>): Text {
    JoinAfter([TimeHeader] + order, [Comma])
  }

  function RowLine(data: map<Text, seq<Text>>, order: seq<Text>, i: nat): Text {
    JoinAfter([NatToText(i)] + RowCells(data, order, i), [Comma])
  }

  function RowLines(data: map<Text, seq<Text>>, order: seq<Text>, n: nat): (r: seq<Text>)
    ensures |r| == n
  {
    seq(n, i requires 0 <= i < n => RowLine(data, order, i))
  }

  function CsvLines(rs: seq<Record>, toExport: seq<Text>): seq<Text> {
    var data := Columns(rs, toExport);
    var order := Exported(Flows(rs), toExport);
    [HeaderLine(order)] + RowLines(data, order, MaxLength(data, order))
  }

  /** The text `convertToCSV` returns: every line followed by a newline. */
  function CsvText(rs: seq<Record>, toExport: seq<Text>): Text {
    JoinAfter(CsvLines(rs, toExport), [Newline])
  }

  /** The exported columns are the exported flows, each with all its values. */
  lemma ColumnsAreExportedFlows(rs: seq<Record>, toExport: seq<Text>)
    ensures IsIterationOrder(Exported(Flows(rs), toExport), Columns(rs, toExport))
    ensures forall x :: x in Columns(rs, toExport) ==> Columns(rs, toExport)[x] == FlowData(rs, x)
  {
    GroupedColumns(rs);
    ExportedFlows(Flows(rs), toExport);
  }

  /** The header is `Time` and the flows, the value line `i` is `i` and
      each flow's `i`-th value or an empty cell, and there are as many value
      lines as the longest column has values. Read back at the newlines and
      commas, when no flow name or value holds either. */
  lemma CsvReadsBack(rs: seq<Record>, toExport: seq<Text>, i: nat)
    requires PlainData(Grouped(rs))
    ensures var data := Columns(rs, toExport);
      var order := Exported(Flows(rs), toExport);
      && Split(CsvText(rs, toExport), Newline) == [HeaderLine(order)] + RowLines(data, order, MaxLength(data, order)) + [[]]
      && Split(HeaderLine(order), Comma) == [TimeHeader] + order + [[]]
      && Split(RowLine(data, order, i), Comma) == [NatToText(i)] + RowCells(data, order, i) + [[]]
  {
    var data := Columns(rs, toExport);
    var order := Exported(Flows(rs), toExport);
    ColumnsArePlain(rs, toExport);
    HeaderCellsPlain(order, data);
    RowCellsWithIndexPlain(data, order, i);
    LinesHaveNoNewline(data, order);
    SplitJoinAfter(CsvLines(rs, toExport), Newline);
    SplitJoinAfter([TimeHeader] + order, Comma);
    SplitJoinAfter([NatToText(i)] + RowCells(data, order, i), Comma);
  }

  lemma ColumnsArePlain(rs: seq<Record>, toExport: seq<Text>)
    requires PlainData(Grouped(rs))
    ensures PlainData(Columns(rs, toExport))
    ensures IsIterationOrder(Exported(Flows(rs), toExport), Columns(rs, toExport))
  {
    ColumnsAreExportedFlows(rs, toExport);
  }

  lemma HeaderCellsPlain(order: seq<Text>, data: map<Text, seq<Text>>)
    requires PlainData(data) && IsIterationOrder(order, data)
    ensures forall k :: 0 <= k < |[TimeHeader] + order| ==> Plain(([TimeHeader] + order)[k])
  {
    forall k | 0 <= k < |[TimeHeader] + order| ensures Plain(([TimeHeader] + order)[k]) {
      if k > 0 {
        assert ([TimeHeader] + order)[k] == order[k - 1];
        assert order[k - 1] in data;
      }
    }
  }

  lemma RowCellsWithIndexPlain(data: map<Text, seq<Text>>, order: seq<Text>, r: nat)
    requires PlainData(data) && IsIterationOrder(order, data)
    ensures forall k :: 0 <= k < |[NatToText(r)] + RowCells(data, order, r)| ==>
      Plain(([NatToText(r)] + RowCells(data, order, r))[k])
  {
    RowCellsPlain(data, order, r);
    NumberIsPlain(r);
  }

  lemma LinesHaveNoNewline(data: map<Text, seq<Text>>, order: seq<Text>)
    requires PlainData(data) && IsIterationOrder(order, data)
    ensures forall k :: 0 <= k < |[HeaderLine(order)] + RowLines(data, order, MaxLength(data, order))| ==>
      Newline !in ([HeaderLine(order)] + RowLines(data, order, MaxLength(data, order)))[k]
  {
    HeaderCellsPlain(order, data);
    JoinAfterAvoids([TimeHeader] + order, Comma, Newline);
    RowsHaveNoNewline(data, order, MaxLength(data, order));
    AvoidsInConcat([HeaderLine(order)], RowLines(data, order, MaxLength(data, order)));
  }

  lemma RowsHaveNoNewline(data: map<Text, seq<Text>>, order: seq<Text>, n: nat)
    requires PlainData(data) && IsIterationOrder(order, data)
    ensures forall r :: 0 <= r < n ==> Newline !in RowLines(data, order, n)[r]
  {
    forall r | 0 <= r < n ensures Newline !in RowLines(data, order, n)[r] {
      RowCellsWithIndexPlain(data, order, r);
      JoinAfterAvoids([NatToText(r)] + RowCells(data, order, r), Comma, Newline);
    }
  }

  /** The `reduce` grouping the values by flow, with the order in which the
      flows become properties of the object. */
  method GroupEntries(rs: seq<Record>) returns (groups: map<Text, seq<Text>>, order: seq<Text>)
    ensures groups == Grouped(rs) && order == Flows(rs)
  {
    groups := map[];
    order := [];
    var i := 0;
    while i < |rs|
      invariant 0 <= i <= |rs|
      invariant groups == Grouped(rs[..i]) && order == Flows(rs[..i])
      invariant forall x :: x in groups <==> x in order
    {
      assert rs[..i + 1][..i] == rs[..i];
      var flow := rs[i].dataFlow;
      if flow !in groups {
        groups := groups[flow := []];
        order := order + [flow];
      }
      groups := groups[flow := groups[flow] + [rs[i].data]];
      i := i + 1;
    }
    assert rs[..i] == rs;
  }

  /** Deleting the flows that are not exported, when an export list is given;
      `order` lists the object's properties. */
  method DeleteUnexported(groups: map<Text, seq<Text>>, order: seq<Text>, toExport: seq<Text>)
    returns (kept: map<Text, seq<Text>>, keptOrder: seq<Text>)
    requires forall x :: x in groups ==> x in order
    requires forall a, b :: 0 <= a < b < |order| ==> order[a] != order[b]
    ensures kept == map f | f in groups && Exports(toExport, f) :: groups[f]
    ensures keptOrder == Exported(order, toExport)
  {
    if |toExport| == 0 {
      assert groups == map f | f in groups && Exports(toExport, f) :: groups[f];
      ExportedFlows(order, toExport);
      return groups, order;
    }
    kept, keptOrder := DeleteUnlisted(groups, order, toExport);
  }

  /** The deletion loop over the properties, for a non-empty export list. */
  method DeleteUnlisted(groups: map<Text, seq<Text>>, order: seq<Text>, toExport: seq<Text>)
    returns (kept: map<Text, seq<Text>>, keptOrder: seq<Text>)
    requires toExport != []
    requires forall x :: x in groups ==> x in order
    ensures kept == map f | f in groups && f in toExport :: groups[f]
    ensures keptOrder == Exported(order, toExport)
  {
    kept := groups;
    keptOrder := [];
    ghost var visited: set<Text> := {};
    var j := 0;
    while j < |order|
      invariant 0 <= j <= |order|
      invariant visited == set q | 0 <= q < j :: order[q]
      invariant keptOrder == Exported(order[..j], toExport)
      invariant forall f :: f in kept <==> f in groups && (f in toExport || f !in visited)
      invariant forall f :: f in kept ==> kept[f] == groups[f]
    {
      assert order[..j + 1][..j] == order[..j];
      var name := order[j];
      if name in toExport {
        keptOrder := keptOrder + [name];
      } else {
        kept := kept - {name};
      }
      visited := visited + {name};
      j := j + 1;
    }
    assert order[..j] == order;
    forall f | f in groups ensures f in visited {
      var q :| 0 <= q < |order| && order[q] == f;
    }
    assert kept == map f | f in groups && f in toExport :: groups[f];
  }

  /** The reduce over the property values keeping the longest length. */
  method Longest(data: map<Text, seq<Text>>, order: seq<Text>) returns (longest: nat)
    ensures longest == MaxLength(data, order)
  {
    longest := 0;
    var j := 0;
    while j < |order|
      invariant 0 <= j <= |order|
      invariant longest == MaxLength(data, order[..j])
    {
      MaxLengthStep(data, order, j);
      var length := |Values(data, order[j])|;
      if length > longest {
        longest := length;
      }
      j := j + 1;
    }
    assert order[..j] == order;
  }

  /** `Time,` and then `name,` for each flow. */
  method WriteHeaderLine(order: seq<Text>) returns (line: Text)
    ensures line == HeaderLine(order)
  {
    line := TimeHeader + [Comma];
    assert JoinAfter([TimeHeader], [Comma]) == line;
    var j := 0;
    while j < |order|
      invariant 0 <= j <= |order|
      invariant line == JoinAfter([TimeHeader] + order[..j], [Comma])
    {
      assert [TimeHeader] + order[..j + 1] == ([TimeHeader] + order[..j]) + [order[j]];
      JoinAfterAppend([TimeHeader] + order[..j], order[j], [Comma]);
      line := line + order[j] + [Comma];
      j := j + 1;
    }
    assert order[..j] == order;
  }

  /** `i,` and then `${values[i] ?? ""},` for each flow. */
  method WriteRowLine(data: map<Text, seq<Text>>, order: seq<Text>, i: nat) returns (line: Text)
    ensures line == RowLine(data, order, i)
  {
    ghost var cells := [NatToText(i)] + RowCells(data, order, i);
    line := NatToText(i) + [Comma];
    assert JoinAfter(cells[..1], [Comma]) == line;
    var j := 0;
    while j < |order|
      invariant 0 <= j <= |order|
      invariant line == JoinAfter(cells[..j + 1], [Comma])
    {
      JoinAfterPrefix(cells, j + 1, [Comma]);
      var values := Values(data, order[j]);
      if i < |values| {
        line := line + values[i] + [Comma];
      } else {
        line := line + [Comma];
      }
      j := j + 1;
    }
    assert cells[..j + 1] == cells;
  }

  /** The value lines after the header line already written. */
  method WriteRowLines(ghost head: seq<Text>, written: Text, data: map<Text, seq<Text>>, order: seq<Text>, n: nat)
    returns (csv: Text)
    requires written == JoinAfter(head, [Newline])
    ensures csv == JoinAfter(head + RowLines(data, order, n), [Newline])
  {
    csv := written;
    assert head + RowLines(data, order, 0) == head;
    var i := 0;
    while i < n
      invariant 0 <= i <= n
      invariant csv == JoinAfter(head + RowLines(data, order, i), [Newline])
    {
      var line := WriteRowLine(data, order, i);
      RowLinesStep(head, data, order, i);
      csv := csv + line + [Newline];
      i := i + 1;
    }
  }

  lemma RowLinesStep(head: seq<Text>, data: map<Text, seq<Text>>, order: seq<Text>, i: nat)
    ensures JoinAfter(head + RowLines(data, order, i + 1), [Newline])
         == JoinAfter(head + RowLines(data, order, i), [Newline]) + RowLine(data, order, i) + [Newline]
  {
    assert head + RowLines(data, order, i + 1) == (head + RowLines(data, order, i)) + [RowLine(data, order, i)];
    JoinAfterAppend(head + RowLines(data, order, i), RowLine(data, order, i), [Newline]);
  }

  /** `convertToCSV`, with the values grouped in a map rather than in a
      plain object (see `ConvertToCsvAsWritten`). */
  method ConvertToCsv(recording: Recording, toExport: seq<Text>) returns (csv: Text)
    ensures csv == CsvText(recording.recordingData, toExport)
  {
    var groups, order := GroupEntries(recording.recordingData);
    csv := ExportGroups(recording.recordingData, groups, order, toExport);
  }

  /** The rest of `convertToCSV` once the values are grouped: delete the
      flows not exported, then write the header and the value lines. */
  method ExportGroups(rs: seq<Record>, groups: map<Text, seq<Text>>, order: seq<Text>, toExport: seq<Text>) returns (csv: Text)
    requires groups == Grouped(rs) && order == Flows(rs)
    ensures csv == CsvText(rs, toExport)
  {
    GroupedColumns(rs);
    var kept, keptOrder := DeleteUnexported(groups, order, toExport);
    var longest := Longest(kept, keptOrder);
    var header := WriteHeaderLine(keptOrder);
    csv := header + [Newline];
    assert csv == JoinAfter([header], [Newline]);
    csv := WriteRowLines([header], csv, kept, keptOrder, longest);
  }

  /** The properties every plain object inherits from `Object.prototype`. */
  const InheritedNames: set<Text> := {
    "constructor", "hasOwnProperty", "isPrototypeOf", "propertyIsEnumerable",
    "toLocaleString", "toString", "valueOf", "__proto__",
    "__defineGetter__", "__defineSetter__", "__lookupGetter__", "__lookupSetter__"
  }

  /** What `acc[name]` yields on the object `reduce` starts from `{}`: an own
      property (always an array here), a member inherited from
      `Object.prototype` (a function, or the prototype itself for
      `__proto__`), or `undefined`. */
  datatype Property = Undefined | OwnArray(items: seq<Text>) | InheritedMember

  function Lookup(own: map<Text, seq<Text>>, name: Text): (v: Property)
    ensures v.OwnArray? <==> name in own
    ensures v.InheritedMember? <==> name !in own && name in InheritedNames
  {
    if name in own then OwnArray(own[name])
    else if name in InheritedNames then InheritedMember
    else Undefined
  }

  /** `!acc[name]`: only `undefined` is falsy; an empty array is not. */
  predicate Falsy(v: Property) {
    v.Undefined?
  }

  /** The `reduce` as written on `{}`: `!acc[flow]` creates an array only for
      a missing property, then `acc[flow].push(data)` throws a `TypeError`
      when the property is an inherited member, which has no `push`. */
  method GroupEntriesAsWritten(rs: seq<Record>) returns (groups: map<Text, seq<Text>>, order: seq<Text>, threw: bool)
    ensures threw <==> exists i :: 0 <= i < |rs| && rs[i].dataFlow in InheritedNames
    ensures !threw ==> groups == Grouped(rs) && order == Flows(rs)
  {
    groups := map[];
    order := [];
    var i := 0;
    while i < |rs|
      invariant 0 <= i <= |rs|
      invariant GroupedSoFar(rs, i, groups, order)
    {
      groups, order, threw := GroupOne(rs, i, groups, order);
      if threw {
        return;
      }
      i := i + 1;
    }
    assert rs[..i] == rs;
    threw := false;
  }

  /** The state of the `reduce` after the first `i` records, none of them
      named like an inherited property. */
  ghost predicate GroupedSoFar(rs: seq<Record>, i: nat, groups: map<Text, seq<Text>>, order: seq<Text>)
    requires i <= |rs|
  {
    && groups == Grouped(rs[..i]) && order == Flows(rs[..i])
    && (forall x :: x in groups <==> x in order)
    && (forall x :: x in groups ==> x !in InheritedNames)
    && (forall j :: 0 <= j < i ==> rs[j].dataFlow !in InheritedNames)
  }

  /** One step of the `reduce`: record `i` either throws, exactly when its
      flow is named like an inherited property, or is appended to its own
      column. */
  method GroupOne(rs: seq<Record>, i: nat, groups: map<Text, seq<Text>>, order: seq<Text>)
    returns (groups': map<Text, seq<Text>>, order': seq<Text>, threw: bool)
    requires i < |rs| && GroupedSoFar(rs, i, groups, order)
    ensures threw <==> rs[i].dataFlow in InheritedNames
    ensures threw ==> exists j :: 0 <= j < |rs| && rs[j].dataFlow in InheritedNames
    ensures !threw ==> GroupedSoFar(rs, i + 1, groups', order')
  {
    assert rs[..i + 1][..i] == rs[..i];
    var flow := rs[i].dataFlow;
    groups', order' := groups, order;
    if Falsy(Lookup(groups', flow)) {
      groups' := groups'[flow := []];
      order' := order' + [flow];
    }
    var column := Lookup(groups', flow);
    if !column.OwnArray? {
      return groups', order', true;
    }
    groups' := groups'[flow := column.items + [rs[i].data]];
    threw := false;
  }

  /** `convertToCSV` as written: the `TypeError` of the grouping leaves the
      export without a result; otherwise the text is the one of the map
      version. */
  method ConvertToCsvAsWritten(recording: Recording, toExport: seq<Text>) returns (csv: Option<Text>)
    ensures csv.None? <==> exists i :: 0 <= i < |recording.recordingData| && recording.recordingData[i].dataFlow in InheritedNames
    ensures csv.Some? ==> csv.value == CsvText(recording.recordingData, toExport)
  {
    var rs := recording.recordingData;
    var groups, order, threw := GroupEntriesAsWritten(rs);
    if threw {
      return None;
    }
    var text := ExportGroups(rs, groups, order, toExport);
    csv := Some(text);
  }

  /** A recording with one value under the flow `toString`: as written the
      export throws. */
  method InheritedNameBreaksExport() returns (csv: Option<Text>)
    ensures csv.None?
  {
    var rs := [Record("toString", "5")];
    assert rs[0].dataFlow in InheritedNames;
    csv := ConvertToCsvAsWritten(Recording("r", rs), []);
  }

  /** Grouped in a map, the same recording exports as the two lines
      `Time,toString,` and `0,5,`. */
  lemma InheritedNameExportsInMap(rs: seq<Record>, toExport: seq<Text>)
    requires rs == [Record("toString", "5")] && toExport == []
    ensures CsvText(rs, toExport) == "Time,toString,\n0,5,\n"
  {
    OneRecordCsvLines(rs, toExport);
    OneRecordCsvText(rs, toExport);
  }

  lemma OneRecordCsvLines(rs: seq<Record>, toExport: seq<Text>)
    requires rs == [Record("toString", "5")] && toExport == []
    ensures CsvLines(rs, toExport) == ["Time,toString,", "0,5,"]
  {
    var data := Columns(rs, toExport);
    var order := Exported(Flows(rs), toExport);
    OneRecordColumns(rs, toExport);
    OneRecordLines(data, order);
  }

  lemma OneRecordCsvText(rs: seq<Record>, toExport: seq<Text>)
    requires CsvLines(rs, toExport) == ["Time,toString,", "0,5,"]
    ensures CsvText(rs, toExport) == "Time,toString,\n0,5,\n"
  {
    OneRecordText(CsvLines(rs, toExport));
  }

  lemma OneRecordText(lines: seq<Text>)
    requires lines == ["Time,toString,", "0,5,"]
    ensures JoinAfter(lines, [Newline]) == "Time,toString,\n0,5,\n"
  {
    JoinTwoLines(lines[0], lines[1]);
  }

  lemma JoinTwoLines(a: Text, b: Text)
    ensures JoinAfter([a, b], [Newline]) == a + [Newline] + b + [Newline]
  {
    var lines := [a, b];
    var none: seq<Text> := [];
    assert lines[1..] == [b] && lines[1..][1..] == none;
  }

  lemma OneRecordColumns(rs: seq<Record>, toExport: seq<Text>)
    requires rs == [Record("toString", "5")] && toExport == []
    ensures Values(Columns(rs, toExport), "toString") == ["5"]
    ensures Exported(Flows(rs), toExport) == ["toString"]
  {
    var none: seq<Record> := [];
    assert rs[..|rs| - 1] == none;
    assert Flows(rs) == ["toString"];
    assert Values(Grouped(none), "toString") == [];
    assert Grouped(rs) == Grouped(none)["toString" := Values(Grouped(none), "toString") + ["5"]];
    assert Flows(rs)[..0] == [];
  }

  lemma OneRecordLines(data: map<Text, seq<Text>>, order: seq<Text>)
    requires order == ["toString"] && Values(data, "toString") == ["5"]
    ensures [HeaderLine(order)] + RowLines(data, order, MaxLength(data, order)) == ["Time,toString,", "0,5,"]
  {
    OneRecordHeader(order);
    assert order[..0] == [];
    assert MaxLength(data, order) == 1;
    OneRecordRow(data, order);
    var rows := RowLines(data, order, 1);
    assert |rows| == 1 && rows[0] == "0,5,";
    assert rows == ["0,5,"];
    assert [HeaderLine(order)] + rows == [HeaderLine(order), rows[0]];
  }

  lemma OneRecordHeader(order: seq<Text>)
    requires order == ["toString"]
    ensures HeaderLine(order) == "Time,toString,"
  {
    var head: seq<Text> := ["Time", "toString"];
    assert [TimeHeader] + order == head;
    assert head[1..] == ["toString"] && head[1..][1..] == [];
    assert JoinAfter(head[1..], [Comma]) == "toString,";
  }

  lemma OneRecordRow(data: map<Text, seq<Text>>, order: seq<Text>)
    requires order == ["toString"] && Values(data, "toString") == ["5"]
    ensures RowLine(data, order, 0) == "0,5,"
  {
    assert NatToText(0) == "0";
    assert RowCells(data, order, 0) == ["5"];
    var row: seq<Text> := ["0", "5"];
    assert [NatToText(0)] + RowCells(data, order, 0) == row;
    assert row[1..] == ["5"] && row[1..][1..] == [];
    assert JoinAfter(row[1..], [Comma]) == "5,";
  }

  // ---- the manager ----

  /** The active recording, if any, and the finished ones. */
  class RecordingManager {
    var isRecording: bool
    var activeRecording: Option<Recording>
    var finishedRecordings: seq<Recording>

    /** `isRecording` says whether a recording is active. */
    predicate Valid()
      reads this
    {
      isRecording <==> activeRecording.Some?
    }

    constructor()
      ensures Valid()
      ensures !isRecording && activeRecording.None? && finishedRecordings == []
    {
      isRecording := false;
      activeRecording := None;
      finishedRecordings := [];
    }

    /** A recording still active is finished first. */
    method StartRecording(name: Text)
      modifies this
      ensures Valid()
      ensures isRecording && activeRecording == Some(Recording(name, []))
      ensures finishedRecordings == old(finishedRecordings) +
        (if old(activeRecording).Some? then [old(activeRecording).value] else [])
    {
      EndRecording();
      activeRecording := Some(Recording(name, []));
      isRecording := true;
    }

    /** Moves the active recording to the finished ones; none active changes
        nothing. */
    method EndRecording()
      modifies this
      ensures old(activeRecording).Some? ==>
        && finishedRecordings == old(finishedRecordings) + [old(activeRecording).value]
        && !isRecording && activeRecording.None?
      ensures old(activeRecording).None? ==>
        finishedRecordings == old(finishedRecordings) && isRecording == old(isRecording) && activeRecording.None?
      ensures old(Valid()) ==> Valid()
    {
      if activeRecording.Some? {
        finishedRecordings := finishedRecordings + [activeRecording.value];
        isRecording := false;
        activeRecording := None;
      }
    }

    /** Appends a record to the active recording; without one, nothing. */
    method RecordValue(dataFlow: Text, data: Text)
      modifies this
      ensures old(activeRecording).Some? ==> activeRecording == Some(Recording(
        old(activeRecording).value.name, old(activeRecording).value.recordingData + [Record(dataFlow, data)]))
      ensures old(activeRecording).None? ==> activeRecording.None?
      ensures isRecording == old(isRecording) && finishedRecordings == old(finishedRecordings)
    {
      if activeRecording.Some? {
        var r := activeRecording.value;
        activeRecording := Some(Recording(r.name, r.recordingData + [Record(dataFlow, data)]));
      }
    }
  }

  // ---- unique names ----

  /** The stem of the numbered candidates. */
  function Stem(name: Text): Text {
    if name == [] then UnnamedRecording else name
  }

  /** `${name}_${index}`. */
  function Candidate(stem: Text, k: nat): Text {
    stem + NameSeparator + NatToText(k)
  }

  lemma CandidateInjective(stem: Text, j: nat, k: nat)
    requires Candidate(stem, j) == Candidate(stem, k)
    ensures j == k
  {
    assert Candidate(stem, j)[|stem| + 1..] == NatToText(j);
    assert Candidate(stem, k)[|stem| + 1..] == NatToText(k);
    NatToTextInjective(j, k);
  }

  function CandidatesBelow(stem: Text, n: nat): set<Text> {
    set j | 1 <= j < n :: Candidate(stem, j)
  }

  lemma {:induction false} CandidatesBelowSize(stem: Text, n: nat)
    requires n >= 1
    ensures |CandidatesBelow(stem, n)| == n - 1
    decreases n
  {
    if n > 1 {
      CandidatesBelowSize(stem, n - 1);
      forall j | 1 <= j < n - 1 ensures Candidate(stem, j) != Candidate(stem, n - 1) {
        if Candidate(stem, j) == Candidate(stem, n - 1) {
          CandidateInjective(stem, j, n - 1);
        }
      }
      assert CandidatesBelow(stem, n) == CandidatesBelow(stem, n - 1) + {Candidate(stem, n - 1)};
    } else {
      assert CandidatesBelow(stem, n) == {};
    }
  }

  /** Only as many candidates as there are names can all be taken. */
  lemma TakenCandidatesBounded(stem: Text, n: nat, existing: set<Text>)
    requires n >= 1
    requires forall j :: 1 <= j < n ==> Candidate(stem, j) in existing
    ensures n - 1 <= |existing|
  {
    CandidatesBelowSize(stem, n);
    assert CandidatesBelow(stem, n) <= existing;
    SubsetSize(CandidatesBelow(stem, n), existing);
  }

  lemma SubsetSize(a: set<Text>, b: set<Text>)
    requires a <= b
    ensures |a| <= |b|
  {
    assert b == a + (b - a);
  }

  /** `getUniqueRecordingName` against the names already stored: the name
      itself if free, else the first free numbered candidate. */
  method GetUniqueRecordingName(name: Text, existing: set<Text>) returns (newName: Text)
    ensures newName !in existing
    ensures name !in existing ==> newName == name
    ensures name in existing ==>
      exists k :: k >= 1 && newName == Candidate(Stem(name), k) && (forall j :: 1 <= j < k ==> Candidate(Stem(name), j) in existing)
  {
    newName := name;
    var index := 1;
    var stem := name;
    if name == [] {
      stem := UnnamedRecording;
    }
    while newName in existing
      invariant index >= 1 && stem == Stem(name)
      invariant index == 1 ==> newName == name
      invariant index >= 2 ==> newName == Candidate(stem, index - 1)
      invariant forall j :: 1 <= j < index - 1 ==> Candidate(stem, j) in existing
      invariant index >= 2 ==> name in existing
      decreases |existing| + 1 - index
    {
      TakenCandidatesBounded(stem, index, existing);
      newName := Candidate(stem, index);
      index := index + 1;
    }
  }
}
