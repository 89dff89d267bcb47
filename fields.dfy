/** Separator-delimited fields, the shape of every wire message (`1;graph;value`,
    `2;k1;k2;`, `key;value`). Generic in the element type so that it serves both
    the native octet strings and the client's strings. */
module Fields {

  /** The position of the first `sep` in `s`, if there is one. */
  function IndexOf<T(==)>(s: seq<T>, sep: T): (r: int)
    ensures r == -1 <==> sep !in s
    ensures r != -1 ==> 0 <= r < |s| && s[r] == sep && sep !in s[..r]
  {
    if s == [] then -1
    else if s[0] == sep then 0
    else
      var i := IndexOf(s[1..], sep);
      if i == -1 then
        assert forall k :: 0 < k < |s| ==> s[k] == s[1..][k - 1];
        -1
      else
        assert s[..i + 1] == [s[0]] + s[1..][..i];
        i + 1
  }

  /** A separator-free prefix puts the first separator right after it. */
  lemma IndexOfAfterPrefix<T>(prefix: seq<T>, sep: T, rest: seq<T>)
    requires sep !in prefix
    ensures IndexOf(prefix + [sep] + rest, sep) == |prefix|
  {
    var s := prefix + [sep] + rest;
    assert s[|prefix|] == sep;
    assert s[..|prefix|] == prefix;
  }

  /** The fields of `s` between separators; there is always at least one. */
  function Split<T(==)>(s: seq<T>, sep: T): (r: seq<seq<T>>)
    ensures |r| >= 1
    ensures forall k :: 0 <= k < |r| ==> sep !in r[k]
    decreases |s|
  {
    var i := IndexOf(s, sep);
    if i == -1 then [s] else [s[..i]] + Split(s[i + 1..], sep)
  }

  /** The fields joined with one separator between neighbours. */
  function Join<T>(parts: seq<seq<T>>, sep: T): (r: seq<T>)
    requires |parts| >= 1
    ensures |parts| == 1 ==> r == parts[0]
  {
    if |parts| == 1 then parts[0] else parts[0] + [sep] + Join(parts[1..], sep)
  }

  lemma JoinThree<T>(a: seq<T>, b: seq<T>, c: seq<T>, sep: T)
    ensures Join([a, b, c], sep) == a + [sep] + b + [sep] + c
  {
    var parts := [a, b, c];
    assert parts[1..] == [b, c];
    assert parts[1..][1..] == [c];
    assert Join([b, c], sep) == b + [sep] + c;
  }

  /** Fields without the separator survive a join followed by a split. */
  lemma {:induction false} SplitJoin<T>(parts: seq<seq<T>>, sep: T)
    requires |parts| >= 1
    requires forall k :: 0 <= k < |parts| ==> sep !in parts[k]
    ensures Split(Join(parts, sep), sep) == parts
  {
    if |parts| > 1 {
      var head, tail := parts[0], parts[1..];
      assert Join(parts, sep) == head + [sep] + Join(tail, sep);
      SplitAfterField(head, Join(tail, sep), sep);
      assert forall k :: 0 <= k < |tail| ==> tail[k] == parts[k + 1];
      SplitJoin(tail, sep);
      assert [head] + tail == parts;
    }
  }

  /** A separator-free first field is split off on its own. */
  lemma SplitAfterField<T>(head: seq<T>, rest: seq<T>, sep: T)
    requires sep !in head
    ensures Split(head + [sep] + rest, sep) == [head] + Split(rest, sep)
  {
    var s := head + [sep] + rest;
    IndexOfAfterPrefix(head, sep, rest);
    assert s[..|head|] == head;
    assert s[|head| + 1..] == rest;
  }

  /** Three separator-free fields joined by separators split back into them. */
  lemma SplitThree<T>(a: seq<T>, b: seq<T>, c: seq<T>, sep: T)
    requires sep !in a && sep !in b && sep !in c
    ensures Split(a + [sep] + b + [sep] + c, sep) == [a, b, c]
  {
    JoinThree(a, b, c, sep);
    SplitJoin([a, b, c], sep);
  }

  /** Joining a split gives the original text back. */
  lemma {:induction false} JoinSplit<T>(s: seq<T>, sep: T)
    ensures Join(Split(s, sep), sep) == s
    decreases |s|
  {
    var i := IndexOf(s, sep);
    if i != -1 {
      var tail := s[i + 1..];
      JoinSplit(tail, sep);
      var rest := Split(tail, sep);
      assert Split(s, sep) == [s[..i]] + rest;
      JoinCons(s[..i], rest, sep);
      assert s == s[..i] + [sep] + tail;
    }
  }

  /** Joining one more field in front adds it and a separator. */
  lemma JoinCons<T>(head: seq<T>, rest: seq<seq<T>>, sep: T)
    requires |rest| >= 1
    ensures Join([head] + rest, sep) == head + [sep] + Join(rest, sep)
  {
    var parts := [head] + rest;
    assert parts[0] == head && parts[1..] == rest;
  }
}
