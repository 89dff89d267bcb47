/** A table of text columns written as comma-separated lines: one column
    per key, in a given key order, one line per value index, an empty cell
    where a key has fewer values. Shared by the recorder of the native
    library and the recordings of the client. */
module CsvTable {
  import opened Common
  import opened Fields
  import opened Decimal

  const Comma: Char8 := ','
  const Newline: Char8 := '\n'

  /** The values recorded under a key; none if the key is absent. */
  function Values(data: map<Text, seq<Text>>, key: Text): seq<Text> {
    if key in data then data[key] else []
  }

  /** The cell of a key in the line of value index `i`. */
  function Cell(data: map<Text, seq<Text>>, key: Text, i: nat): Text {
    var vs := Values(data, key);
    if i < |vs| then vs[i] else []
  }

  /** The cells of the line of value index `i`, one per key in `order`. */
  function RowCells(data: map<Text, seq<Text>>, order: seq<Text>, i: nat): (r: seq<Text>)
    ensures |r| == |order|
  {
    seq(|order|, c requires 0 <= c < |order| => Cell(data, order[c], i))
  }

  /** The longest value list of the keys in `order`. */
  function MaxLength(data: map<Text, seq<Text>>, order: seq<Text>): (m: nat)
    ensures forall c :: 0 <= c < |order| ==> |Values(data, order[c])| <= m
    ensures order != [] ==> exists c :: 0 <= c < |order| && |Values(data, order[c])| == m
    ensures order == [] ==> m == 0
    decreases |order|
  {
    if order == [] then 0
    else
      var init := order[..|order| - 1];
      var m := MaxLength(data, init);
      var l := |Values(data, order[|order| - 1])|;
      assert forall c :: 0 <= c < |init| ==> init[c] == order[c];
      if l > m then l else m
  }

  /** One more key in the order: the maximum with its length. */
  lemma MaxLengthStep(data: map<Text, seq<Text>>, order: seq<Text>, j: nat)
    requires j < |order|
    ensures var m := MaxLength(data, order[..j]);
      var l := |Values(data, order[j])|;
      MaxLength(data, order[..j + 1]) == if l > m then l else m
  {
    assert order[..j + 1][..j] == order[..j];
  }

  /** `order` is an iteration order of the map: every key exactly once. */
  predicate IsIterationOrder(order: seq<Text>, data: map<Text, seq<Text>>) {
    (forall c :: 0 <= c < |order| ==> order[c] in data)
    && (forall k :: k in data ==> k in order)
    && (forall a, b :: 0 <= a < b < |order| ==> order[a] != order[b])
  }

  /** The recorded value texts contain neither of the two delimiters. */
  predicate Plain(t: Text) {
    Comma !in t && Newline !in t
  }

  predicate PlainData(data: map<Text, seq<Text>>) {
    forall k :: k in data ==> Plain(k) && forall i :: 0 <= i < |data[k]| ==> Plain(data[k][i])
  }

  /** A number's decimal text holds neither delimiter. */
  lemma NumberIsPlain(n: nat)
    ensures Plain(NatToText(n))
  {
    var s := NatToText(n);
    assert forall k :: 0 <= k < |s| ==> IsDigit(s[k]);
  }

  /** Fields that all end in a separator read back as themselves and one
      empty field after the last separator. */
  lemma {:induction false} SplitJoinAfter(parts: seq<Text>, sep: Char8)
    requires forall k :: 0 <= k < |parts| ==> sep !in parts[k]
    ensures Split(JoinAfter(parts, [sep]), sep) == parts + [[]]
    decreases |parts|
  {
    if parts == [] {
      assert IndexOf<Char8>([], sep) == -1;
    } else {
      var rest := parts[1..];
      assert forall k :: 0 <= k < |rest| ==> rest[k] == parts[k + 1];
      SplitJoinAfter(rest, sep);
      SplitJoinAfterCons(parts[0], rest, sep);
      assert [parts[0]] + rest == parts;
    }
  }

  lemma SplitJoinAfterCons(head: Text, rest: seq<Text>, sep: Char8)
    requires sep !in head
    requires Split(JoinAfter(rest, [sep]), sep) == rest + [[]]
    ensures Split(JoinAfter([head] + rest, [sep]), sep) == [head] + rest + [[]]
  {
    var tail := JoinAfter(rest, [sep]);
    assert ([head] + rest)[1..] == rest;
    assert JoinAfter([head] + rest, [sep]) == head + [sep] + tail;
    SplitAfterField(head, tail, sep);
  }

  /** Joining fields that avoid a character with another separator avoids it. */
  lemma {:induction false} JoinAfterAvoids(parts: seq<Text>, sep: Char8, c: Char8)
    requires c != sep
    requires forall k :: 0 <= k < |parts| ==> c !in parts[k]
    ensures c !in JoinAfter(parts, [sep])
    decreases |parts|
  {
    if parts != [] {
      var rest := parts[1..];
      assert forall k :: 0 <= k < |rest| ==> rest[k] == parts[k + 1];
      JoinAfterAvoids(rest, sep, c);
    }
  }

  lemma RowCellsPlain(data: map<Text, seq<Text>>, order: seq<Text>, r: nat)
    requires IsIterationOrder(order, data) && PlainData(data)
    ensures forall c :: 0 <= c < |order| ==> Plain(RowCells(data, order, r)[c])
  {
    forall c | 0 <= c < |order| ensures Plain(RowCells(data, order, r)[c]) {
      assert order[c] in data;
    }
  }

  lemma AvoidsInConcat(a: seq<Text>, b: seq<Text>)
    requires forall k :: 0 <= k < |a| ==> Newline !in a[k]
    requires forall k :: 0 <= k < |b| ==> Newline !in b[k]
    ensures forall k :: 0 <= k < |a + b| ==> Newline !in (a + b)[k]
  {
  }

  /** Every recorded value is written: value `i` of the key in column `c`
      sits in value line `i`, which the file has. */
  lemma EveryValueWritten(data: map<Text, seq<Text>>, order: seq<Text>, c: nat, i: nat)
    requires c < |order| && i < |Values(data, order[c])|
    ensures i < MaxLength(data, order)
    ensures RowCells(data, order, i)[c] == Values(data, order[c])[i]
  {
  }
}
