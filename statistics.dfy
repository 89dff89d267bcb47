/** An integer exponential moving average and a key/value recorder that
    writes its recording as a CSV file: a `# description` line, a header line
    with every key followed by a comma, then one line per value index with
    each key's value (or nothing) followed by a comma. */
module Statistics {
  import opened Common
  import opened Fields
  import opened Decimal
  import opened CsvTable

  type U32 = n: int | 0 <= n < 0x1_0000_0000

  const MaxU32: U32 := 0xFFFF_FFFF

  /** One `Update`: `m -= m / w` then `m += v / w`, both on `uint32_t`. */
  function Step(m: U32, v: U32, w: U32): U32
    requires w > 0
  {
    ((m - m / w) + v / w) % 0x1_0000_0000
  }

  lemma MulAtLeast(d: int, w: int)
    requires d >= 1 && w >= 0
    ensures d * w >= w
  {
    var e := d - 1;
    assert d * w == e * w + w;
    assert e * w >= 0;
  }

  /** Quotients of ordered numbers are ordered. */
  lemma QuotientsOrdered(qx: int, rx: int, qy: int, ry: int, w: int)
    requires w > 0 && 0 <= rx < w && 0 <= ry < w
    requires qx * w + rx <= qy * w + ry
    ensures qx <= qy
  {
    if qx > qy {
      assert qx * w - qy * w == (qx - qy) * w;
      MulAtLeast(qx - qy, w);
    }
  }

  /** A quotient grows by less than the dividend it comes from. */
  lemma QuotientGrowsSlower(qx: int, rx: int, qy: int, ry: int, w: int)
    requires w > 0 && 0 <= rx < w && 0 <= ry < w && qx < qy
    ensures (qy * w + ry) - (qx * w + rx) >= qy - qx
  {
    var d := qy - qx;
    assert qy * w - qx * w == d * w;
    assert d * w - (w - 1) - d == (d - 1) * (w - 1) by {
      assert d * w - (w - 1) - d == d * (w - 1) - (w - 1);
    }
    assert (d - 1) * (w - 1) >= 0 by {
      if d > 1 {
        MulAtLeast(d - 1, w - 1);
      }
    }
  }

  lemma DivMonotone(x: nat, y: nat, w: nat)
    requires w > 0 && x <= y
    ensures x / w <= y / w
  {
    QuotientsOrdered(x / w, x % w, y / w, y % w, w);
  }

  /** `x - x / w` never decreases as `x` grows. */
  lemma DropMonotone(x: nat, y: nat, w: nat)
    requires w > 0 && x <= y
    ensures x - x / w <= y - y / w
  {
    if x / w < y / w {
      QuotientGrowsSlower(x / w, x % w, y / w, y % w, w);
    }
  }

  lemma QuotientAtMost(x: nat, w: nat)
    requires w > 0
    ensures x / w <= x
  {
    var q := x / w;
    if q >= 1 {
      assert x == w * q + x % w;
      MulAtLeast(w, q);
    }
  }

  /** The two `uint32_t` steps never wrap around. */
  lemma StepNoWrap(m: U32, v: U32, w: U32)
    requires w > 0
    ensures m / w <= m
    ensures (m - m / w) + v / w <= MaxU32
    ensures Step(m, v, w) == (m - m / w) + v / w
  {
    QuotientAtMost(m, w);
    DropMonotone(m, MaxU32, w);
    DivMonotone(v, MaxU32, w);
    var sum := (m - m / w) + v / w;
    assert sum <= MaxU32 - MaxU32 / w + MaxU32 / w;
  }

  /** The new average always lies between the old average and the new value. */
  lemma StepBetween(m: U32, v: U32, w: U32)
    requires w > 0
    ensures m <= v ==> m <= Step(m, v, w) <= v
    ensures v <= m ==> v <= Step(m, v, w) <= m
  {
    StepNoWrap(m, v, w);
    if m <= v {
      DropMonotone(m, v, w);
      DivMonotone(m, v, w);
    } else {
      DropMonotone(v, m, w);
      DivMonotone(v, m, w);
    }
  }

  /** Feeding the current average back leaves it unchanged. */
  lemma StepFixedPoint(m: U32, w: U32)
    requires w > 0
    ensures Step(m, m, w) == m
  {
    StepBetween(m, m, w);
  }

  /** The divisions truncate: from 0, values below the weight never move the
      average. */
  lemma StepStaysAtZero(v: U32, w: U32)
    requires 0 < w && v < w
    ensures Step(0, v, w) == 0
  {
    StepNoWrap(0, v, w);
    QuotientsOrdered(v / w, v % w, 0, v, w);
  }

  /** One `EMA<ID, WEIGHT>` instantiation: its static average. */
  class EMA {
    const weight: U32
    var ema: U32

    constructor(weight: U32)
      requires weight > 0
      ensures this.weight == weight && ema == 0
    {
      this.weight := weight;
      ema := 0;
    }

    method Update(value: U32) returns (r: U32)
      requires weight > 0
      modifies this
      ensures ema == Step(old(ema), value, weight) && r == ema
    {
      StepNoWrap(ema, value, weight);
      var kept: U32 := ema - ema / weight;
      ema := kept;
      ema := ema + value / weight;
      r := ema;
    }

    function Get(): U32
      reads this
    {
      ema
    }

    method Set(value: U32)
      modifies this
      ensures ema == value
    {
      ema := value;
    }
  }

  const CommentPrefix: Text := "# "
  const CsvExtension: Text := ".csv"

  /** A written file: its name and its contents. */
  datatype CsvFile = CsvFile(name: Text, content: Text)

  function RowLine(data: map<Text, seq<Text>>, order: seq<Text>, i: nat): Text {
    JoinAfter(RowCells(data, order, i), [Comma])
  }

  /** The value lines for value indexes below `n`. */
  function RowLines(data: map<Text, seq<Text>>, order: seq<Text>, n: nat): (r: seq<Text>)
    ensures |r| == n
  {
    seq(n, i requires 0 <= i < n => RowLine(data, order, i))
  }

  /** The comment line and, when anything was recorded, the header line. */
  function HeadLines(description: Text, data: map<Text, seq<Text>>, order: seq<Text>): seq<Text> {
    [CommentPrefix + description] + (if |data| > 0 then [JoinAfter(order, [Comma])] else [])
  }

  /** The lines of the CSV file. */
  function CsvLines(description: Text, data: map<Text, seq<Text>>, order: seq<Text>): seq<Text> {
    HeadLines(description, data, order) + RowLines(data, order, MaxLength(data, order))
  }

  /** The CSV file's contents: every line followed by a newline. */
  function CsvText(description: Text, data: map<Text, seq<Text>>, order: seq<Text>): Text {
    JoinAfter(CsvLines(description, data, order), [Newline])
  }

  /** No line of the file holds a newline of its own. */
  lemma LinesHaveNoNewline(description: Text, data: map<Text, seq<Text>>, order: seq<Text>)
    requires Newline !in description
    requires IsIterationOrder(order, data) && PlainData(data)
    ensures forall k :: 0 <= k < |CsvLines(description, data, order)| ==> Newline !in CsvLines(description, data, order)[k]
  {
    HeadHasNoNewline(description, data, order);
    RowsHaveNoNewline(data, order, MaxLength(data, order));
    AvoidsInConcat(HeadLines(description, data, order), RowLines(data, order, MaxLength(data, order)));
  }

  lemma HeadHasNoNewline(description: Text, data: map<Text, seq<Text>>, order: seq<Text>)
    requires Newline !in description
    requires IsIterationOrder(order, data) && PlainData(data)
    ensures forall k :: 0 <= k < |HeadLines(description, data, order)| ==> Newline !in HeadLines(description, data, order)[k]
  {
    assert forall c :: 0 <= c < |order| ==> order[c] in data;
    JoinAfterAvoids(order, Comma, Newline);
  }

  lemma RowsHaveNoNewline(data: map<Text, seq<Text>>, order: seq<Text>, n: nat)
    requires IsIterationOrder(order, data) && PlainData(data)
    ensures forall r :: 0 <= r < n ==> Newline !in RowLines(data, order, n)[r]
  {
    forall r | 0 <= r < n ensures Newline !in RowLines(data, order, n)[r] {
      RowCellsPlain(data, order, r);
      JoinAfterAvoids(RowCells(data, order, r), Comma, Newline);
    }
  }

  /** Reading the file back line by line gives its comment line, its header
      line and its value lines; reading the header back at the commas gives
      the keys in order, and reading value line `i` back gives, per key, its
      `i`-th value or an empty cell if it has fewer values. */
  lemma CsvReadsBack(description: Text, data: map<Text, seq<Text>>, order: seq<Text>, i: nat)
    requires Newline !in description
    requires IsIterationOrder(order, data) && PlainData(data)
    ensures Split(CsvText(description, data, order), Newline) == CsvLines(description, data, order) + [[]]
    ensures Split(JoinAfter(order, [Comma]), Comma) == order + [[]]
    ensures Split(RowLine(data, order, i), Comma) == RowCells(data, order, i) + [[]]
    ensures forall c :: 0 <= c < |order| ==>
      RowCells(data, order, i)[c] == if i < |data[order[c]]| then data[order[c]][i] else []
  {
    LinesHaveNoNewline(description, data, order);
    SplitJoinAfter(CsvLines(description, data, order), Newline);
    assert forall c :: 0 <= c < |order| ==> order[c] in data;
    SplitJoinAfter(order, Comma);
    RowCellsPlain(data, order, i);
    SplitJoinAfter(RowCells(data, order, i), Comma);
  }

  /** `file << key << ","` for every key. */
  method WriteHeader(order: seq<Text>) returns (line: Text)
    ensures line == JoinAfter(order, [Comma])
  {
    line := [];
    var j := 0;
    while j < |order|
      invariant 0 <= j <= |order|
      invariant line == JoinAfter(order[..j], [Comma])
    {
      assert order[..j + 1] == order[..j] + [order[j]];
      JoinAfterAppend(order[..j], order[j], [Comma]);
      line := line + order[j] + [Comma];
      j := j + 1;
    }
    assert order[..j] == order;
  }

  /** The loop finding the maximum number of values for any key. */
  method MaxValues(data: map<Text, seq<Text>>, order: seq<Text>) returns (maxValues: nat)
    ensures maxValues == MaxLength(data, order)
  {
    maxValues := 0;
    var j := 0;
    while j < |order|
      invariant 0 <= j <= |order|
      invariant maxValues == MaxLength(data, order[..j])
    {
      MaxLengthStep(data, order, j);
      var size := |Values(data, order[j])|;
      if size > maxValues {
        maxValues := size;
      }
      j := j + 1;
    }
    assert order[..j] == order;
  }

  /** One value line: each key's `i`-th value or nothing, then a comma. */
  method WriteRow(data: map<Text, seq<Text>>, order: seq<Text>, i: nat) returns (line: Text)
    ensures line == RowLine(data, order, i)
  {
    ghost var cells := RowCells(data, order, i);
    line := [];
    var j := 0;
    while j < |order|
      invariant 0 <= j <= |order|
      invariant line == JoinAfter(cells[..j], [Comma])
    {
      JoinAfterPrefix(cells, j, [Comma]);
      var values := Values(data, order[j]);
      if i < |values| {
        line := line + values[i] + [Comma];
      } else {
        line := line + [Comma];
      }
      j := j + 1;
    }
    assert cells[..j] == cells;
  }

  /** The text `WriteToCSV` sends to the file. */
  method WriteCsv(description: Text, data: map<Text, seq<Text>>, order: seq<Text>) returns (content: Text)
    ensures content == CsvText(description, data, order)
  {
    ghost var head := HeadLines(description, data, order);
    content := CommentPrefix + description + [Newline];
    if |data| > 0 {
      var header := WriteHeader(order);
      content := content + header + [Newline];
      JoinAfterAppend([CommentPrefix + description], header, [Newline]);
    }
    var maxValues := MaxValues(data, order);
    content := WriteRows(head, content, data, order, maxValues);
  }

  /** The value lines, appended after the head lines already written. */
  method WriteRows(ghost head: seq<Text>, written: Text, data: map<Text, seq<Text>>, order: seq<Text>, n: nat)
    returns (content: Text)
    requires written == JoinAfter(head, [Newline])
    ensures content == JoinAfter(head + RowLines(data, order, n), [Newline])
  {
    content := written;
    assert head + RowLines(data, order, 0) == head;
    var i := 0;
    while i < n
      invariant 0 <= i <= n
      invariant content == JoinAfter(head + RowLines(data, order, i), [Newline])
    {
      var line := WriteRow(data, order, i);
      RowLinesStep(head, data, order, i);
      content := content + line + [Newline];
      i := i + 1;
    }
  }

  lemma RowLinesStep(head: seq<Text>, data: map<Text, seq<Text>>, order: seq<Text>, i: nat)
    ensures JoinAfter(head + RowLines(data, order, i + 1), [Newline])
         == JoinAfter(head + RowLines(data, order, i), [Newline]) + RowLine(data, order, i) + [Newline]
  {
    assert head + RowLines(data, order, i + 1) == (head + RowLines(data, order, i)) + [RowLine(data, order, i)];
    JoinAfterAppend(head + RowLines(data, order, i), RowLine(data, order, i), [Newline]);
  }

  /** The recorder's static state. */
  class Logger {
    var enabled: bool
    var recordingDescription: Text
    var data: map<Text, seq<Text>>

    constructor()
      ensures !enabled && recordingDescription == [] && data == map[]
    {
      enabled := false;
      recordingDescription := [];
      data := map[];
    }

    /** Starts a recording with an empty store; ignored while one is running. */
    method StartRecording(description: Text)
      modifies this
      ensures old(enabled) ==> enabled && recordingDescription == old(recordingDescription) && data == old(data)
      ensures !old(enabled) ==> enabled && recordingDescription == CStr(description) && data == map[]
    {
      if enabled {
        return;
      }
      enabled := true;
      recordingDescription := CStr(description);
      data := map[];
    }

    /** Ends a recording: the file named by the time stamp and the path is
        written (unless it cannot be opened) and the store is emptied. */
    method StopRecording(filePath: Text, timestamp: Text, order: seq<Text>, canOpen: bool) returns (file: Option<CsvFile>)
      requires enabled ==> IsIterationOrder(order, data)
      modifies this
      ensures !old(enabled) ==> file.None? && !enabled && data == old(data)
      ensures old(enabled) ==> !enabled && data == map[]
      ensures old(enabled) && canOpen ==> file == Some(CsvFile(
        timestamp + CStr(filePath) + CsvExtension, CsvText(recordingDescription, old(data), order)))
      ensures old(enabled) && !canOpen ==> file.None?
      ensures recordingDescription == old(recordingDescription)
    {
      if !enabled {
        return None;
      }
      enabled := false;
      file := WriteToCSV(CStr(filePath), timestamp, order, canOpen);
      data := map[];
    }

    /** Appends a value to a key's list while recording. */
    method Record(key: Text, value: Text)
      modifies this
      ensures old(enabled) ==> data == old(data)[CStr(key) := Values(old(data), CStr(key)) + [CStr(value)]]
      ensures !old(enabled) ==> data == old(data)
      ensures enabled == old(enabled) && recordingDescription == old(recordingDescription)
    {
      if !enabled {
        return;
      }
      var k := CStr(key);
      data := data[k := Values(data, k) + [CStr(value)]];
    }

    /** The `uint32_t` overload: the value in decimal (`std::to_string`). */
    method RecordNumber(key: Text, value: U32)
      modifies this
      ensures old(enabled) ==> data == old(data)[CStr(key) := Values(old(data), CStr(key)) + [NatToText(value)]]
      ensures !old(enabled) ==> data == old(data)
      ensures enabled == old(enabled) && recordingDescription == old(recordingDescription)
    {
      if !enabled {
        return;
      }
      var k := CStr(key);
      data := data[k := Values(data, k) + [NatToText(value)]];
    }

    method WriteToCSV(filename: Text, timestamp: Text, order: seq<Text>, canOpen: bool) returns (file: Option<CsvFile>)
      ensures canOpen ==> file == Some(CsvFile(timestamp + filename + CsvExtension, CsvText(recordingDescription, data, order)))
      ensures !canOpen ==> file.None?
    {
      var name := timestamp + filename + CsvExtension;
      if !canOpen {
        return None;
      }
      var content := WriteCsv(recordingDescription, data, order);
      file := Some(CsvFile(name, content));
    }
  }

  /** Recording a plain key and value keeps the store plain, so the file
      reads back (`CsvTable.NumberIsPlain` covers recorded numbers). */
  lemma RecordKeepsPlain(data: map<Text, seq<Text>>, key: Text, value: Text)
    requires PlainData(data) && Plain(key) && Plain(value)
    ensures PlainData(data[key := Values(data, key) + [value]])
  {
    var d := data[key := Values(data, key) + [value]];
    forall k | k in d ensures Plain(k) && forall i :: 0 <= i < |d[k]| ==> Plain(d[k][i]) {
      if k == key {
        assert forall i :: 0 <= i < |Values(data, key)| ==> Values(data, key)[i] == d[k][i];
      }
    }
  }
}
