/** The key order of `std::map<std::string, ...>` and `std::map<int64_t, ...>`:
    strings compare lexicographically by unsigned character code, a proper
    prefix first; integers compare numerically. Iterating such a map visits
    its keys in that order, which `SortedKeys` and `SortedInts` reproduce. */
module TextOrder {
  import opened Common

  predicate Less(a: Text, b: Text)
    decreases |a|
  {
    if a == [] then b != []
    else if b == [] then false
    else a[0] < b[0] || (a[0] == b[0] && Less(a[1..], b[1..]))
  }

  lemma {:induction false} LessIrreflexive(a: Text)
    ensures !Less(a, a)
    decreases |a|
  {
    if a != [] { LessIrreflexive(a[1..]); }
  }

  lemma {:induction false} LessTotal(a: Text, b: Text)
    ensures a == b || Less(a, b) || Less(b, a)
    decreases |a|
  {
    if a != [] && b != [] && a[0] == b[0] {
      LessTotal(a[1..], b[1..]);
      if a[1..] == b[1..] {
        assert a == [a[0]] + a[1..];
        assert b == [b[0]] + b[1..];
      }
    }
  }

  lemma {:induction false} LessAsymmetric(a: Text, b: Text)
    ensures !(Less(a, b) && Less(b, a))
    decreases |a|
  {
    if a != [] && b != [] && a[0] == b[0] { LessAsymmetric(a[1..], b[1..]); }
  }

  lemma {:induction false} LessTransitive(a: Text, b: Text, c: Text)
    requires Less(a, b) && Less(b, c)
    ensures Less(a, c)
    decreases |a|
  {
    if a != [] && b != [] && c != [] && a[0] == b[0] && b[0] == c[0] {
      LessTransitive(a[1..], b[1..], c[1..]);
    }
  }

  predicate IsLeast(m: Text, s: set<Text>) {
    m in s && forall x :: x in s && x != m ==> Less(m, x)
  }

  lemma {:induction false} LeastExists(s: set<Text>)
    requires s != {}
    ensures exists m :: IsLeast(m, s)
    decreases |s|
  {
    assert |s| > 0;
    var y :| y in s;
    if s != {y} {
      LeastExists(s - {y});
      var m :| IsLeast(m, s - {y});
      LessTotal(m, y);
      if Less(y, m) {
        forall x | x in s && x != y ensures Less(y, x) {
          if x != m { LessTransitive(y, m, x); }
        }
        assert IsLeast(y, s);
      } else {
        assert IsLeast(m, s);
      }
    } else {
      assert IsLeast(y, s);
    }
  }

  /** The first key an in-order iteration visits. */
  function Least(s: set<Text>): (m: Text)
    requires s != {}
    ensures m in s
    ensures forall x :: x in s && x != m ==> Less(m, x)
  {
    LeastExists(s);
    forall a, b | IsLeast(a, s) && IsLeast(b, s) ensures a == b {
      LessAsymmetric(a, b);
    }
    var m :| IsLeast(m, s);
    m
  }

  ghost predicate StrictlySorted(s: seq<Text>) {
    forall i, j :: 0 <= i < j < |s| ==> Less(s[i], s[j])
  }

  /** The keys of a string-keyed map in the order the map iterates them,
      each once; `SortedKeysComplete` shows that no key is missed and
      `SortedKeysSorted` shows the order. */
  function SortedKeys(s: set<Text>): (r: seq<Text>)
    ensures |r| == |s|
    ensures forall k :: 0 <= k < |r| ==> r[k] in s
    ensures forall i, j :: 0 <= i < j < |r| ==> r[i] != r[j]
    decreases |s|
  {
    if s == {} then []
    else
      var m := Least(s);
      var rest := SortedKeys(s - {m});
      assert forall k :: 0 <= k < |rest| ==> rest[k] in s - {m};
      [m] + rest
  }

  /** Every key of the map is visited. */
  lemma {:induction false} SortedKeysComplete(s: set<Text>)
    ensures forall x :: x in s <==> x in SortedKeys(s)
    decreases |s|
  {
    if s != {} {
      var m := Least(s);
      SortedKeysComplete(s - {m});
      assert SortedKeys(s) == [m] + SortedKeys(s - {m});
    }
  }

  /** Map iteration visits the keys in strictly ascending order. */
  lemma {:induction false} SortedKeysSorted(s: set<Text>)
    ensures StrictlySorted(SortedKeys(s))
    decreases |s|
  {
    if s != {} {
      var m := Least(s);
      var rest := SortedKeys(s - {m});
      SortedKeysSorted(s - {m});
      var r := [m] + rest;
      assert SortedKeys(s) == r;
      forall i, j | 0 <= i < j < |r| ensures Less(r[i], r[j]) {
        assert r[j] == rest[j - 1] && rest[j - 1] in s - {m};
        if i > 0 {
          assert r[i] == rest[i - 1];
        }
      }
    }
  }

  /** The keys of an integer-keyed map in ascending order. */
  function SortedInts(s: set<int>): (r: seq<int>)
    ensures |r| == |s|
    ensures forall k :: 0 <= k < |r| ==> r[k] in s
    ensures forall i, j :: 0 <= i < j < |r| ==> r[i] < r[j]
    decreases |s|
  {
    if s == {} then []
    else
      var m := MinInt(s);
      var rest := SortedInts(s - {m});
      assert forall k :: 0 <= k < |rest| ==> m < rest[k] by {
        forall k | 0 <= k < |rest| ensures m < rest[k] {
          assert rest[k] in s - {m};
        }
      }
      ConsAscending(m, rest);
      [m] + rest
  }

  /** Every key of the map is visited. */
  lemma {:induction false} SortedIntsComplete(s: set<int>)
    ensures forall x :: x in s <==> x in SortedInts(s)
    decreases |s|
  {
    if s != {} {
      var m := MinInt(s);
      SortedIntsComplete(s - {m});
      assert SortedInts(s) == [m] + SortedInts(s - {m});
    }
  }

  lemma ConsAscending(m: int, rest: seq<int>)
    requires forall i, j :: 0 <= i < j < |rest| ==> rest[i] < rest[j]
    requires forall k :: 0 <= k < |rest| ==> m < rest[k]
    ensures forall i, j :: 0 <= i < j < |[m] + rest| ==> ([m] + rest)[i] < ([m] + rest)[j]
  {
    var r := [m] + rest;
    forall i, j | 0 <= i < j < |r| ensures r[i] < r[j] {
      assert r[j] == rest[j - 1];
      if i > 0 {
        assert r[i] == rest[i - 1];
      }
    }
  }

  /** A non-empty set of integers has an element. */
  lemma HasElement(s: set<int>)
    requires s != {}
    ensures exists y :: y in s
  {
    if forall y :: y !in s { assert false; }
  }

  predicate IsMinOf(m: int, s: set<int>) {
    m in s && forall x :: x in s ==> m <= x
  }

  predicate IsMaxOf(m: int, s: set<int>) {
    m in s && forall x :: x in s ==> x <= m
  }

  lemma {:induction false} MinIntExists(s: set<int>)
    requires s != {}
    ensures exists m :: IsMinOf(m, s)
    decreases |s|
  {
    HasElement(s);
    var y :| y in s;
    if s == {y} {
      assert IsMinOf(y, s);
    } else {
      MinIntExists(s - {y});
      var m :| IsMinOf(m, s - {y});
      var z := if y < m then y else m;
      forall x | x in s ensures z <= x {
        if x != y { assert x in s - {y}; }
      }
      assert IsMinOf(z, s);
    }
  }

  /** The smallest key of an integer-keyed map (`begin()->first`). */
  function MinInt(s: set<int>): (m: int)
    requires s != {}
    ensures m in s && forall x :: x in s ==> m <= x
  {
    MinIntExists(s);
    var m :| IsMinOf(m, s);
    m
  }

  lemma {:induction false} MaxIntExists(s: set<int>)
    requires s != {}
    ensures exists m :: IsMaxOf(m, s)
    decreases |s|
  {
    HasElement(s);
    var y :| y in s;
    if s == {y} {
      assert IsMaxOf(y, s);
    } else {
      MaxIntExists(s - {y});
      var m :| IsMaxOf(m, s - {y});
      var z := if y > m then y else m;
      forall x | x in s ensures x <= z {
        if x != y { assert x in s - {y}; }
      }
      assert IsMaxOf(z, s);
    }
  }

  /** The largest element of a finite set of integers. */
  function MaxInt(s: set<int>): (m: int)
    requires s != {}
    ensures m in s && forall x :: x in s ==> x <= m
  {
    MaxIntExists(s);
    var m :| IsMaxOf(m, s);
    m
  }
}
