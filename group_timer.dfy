/** Hierarchical timers. A timer name such as `"Frame>Render>Shadows"` is a
    path of groups separated by `>`; every group holds its accumulated time
    and its sub-groups by name, and all maps iterate in ascending name order.
    Two versions of this class exist: the newer one (with `RegisterTimer` and
    a clearing `PrintTracked`) and an older one whose `PrintGroup` also adds
    the nested totals; both are modelled here, side by side. */
module GroupTimer {
  import opened Common
  import opened Fields
  import opened TextOrder

  datatype Group = Group(subGroups: map<Text, Group>, time: int)

  /** A value-initialised group: no sub-groups, time 0. */
  const EmptyGroup: Group := Group(map[], 0)

  const PathSeparator: Char8 := '>'

  /** The group names along a timer name, outermost first. */
  function PathOf(name: Text): (p: seq<Text>)
    ensures |p| >= 1
    ensures forall k :: 0 <= k < |p| ==> PathSeparator !in p[k]
  {
    Split(name, PathSeparator)
  }

  /** The sub-group `name` of `g`, or a new empty group if there is none
      (`std::map::operator[]`). */
  function Child(g: Group, name: Text): Group {
    if name in g.subGroups then g.subGroups[name] else EmptyGroup
  }

  /** `FindOrCreateGroup` followed by `time +=`: the groups along the path are
      created where missing and `t` is added to the last one. */
  function AddTime(g: Group, path: seq<Text>, t: int): (r: Group)
    requires |path| >= 1
    ensures r.time == g.time
    ensures r.subGroups.Keys == g.subGroups.Keys + {path[0]}
    decreases |path|
  {
    var child := Child(g, path[0]);
    var updated := if |path| == 1 then child.(time := child.time + t) else AddTime(child, path[1..], t);
    g.(subGroups := g.subGroups[path[0] := updated])
  }

  /** The time of the group at a path; a missing group counts as a new one, 0. */
  function TimeOf(g: Group, path: seq<Text>): int
    requires |path| >= 1
    decreases |path|
  {
    if path[0] !in g.subGroups then 0
    else if |path| == 1 then g.subGroups[path[0]].time
    else TimeOf(g.subGroups[path[0]], path[1..])
  }

  /** Whether the group at a path exists. */
  predicate Has(g: Group, path: seq<Text>)
    requires |path| >= 1
    decreases |path|
  {
    path[0] in g.subGroups && (|path| == 1 || Has(g.subGroups[path[0]], path[1..]))
  }

  /** Adding time changes the time of the path's own group only: every other
      group, ancestors and siblings included, keeps its time (a created group
      starts at 0, the time a missing one counts as). */
  lemma {:induction false} AddTimeOnlyAtPath(g: Group, path: seq<Text>, t: int, q: seq<Text>)
    requires |path| >= 1 && |q| >= 1
    ensures TimeOf(AddTime(g, path, t), q) == TimeOf(g, q) + (if q == path then t else 0)
    decreases |path|
  {
    var r := AddTime(g, path, t);
    var child := Child(g, path[0]);
    if q[0] == path[0] {
      if |path| == 1 {
        if |q| > 1 {
          assert q != path;
          assert TimeOf(r, q) == TimeOf(child, q[1..]);
          ChildTimes(g, path[0], q[1..]);
        } else {
          assert q == path;
        }
      } else if |q| == 1 {
        assert q != path;
      } else {
        AddTimeOnlyAtPath(child, path[1..], t, q[1..]);
        ChildTimes(g, path[0], q[1..]);
        assert (q == path) == (q[1..] == path[1..]) by {
          assert q == [q[0]] + q[1..] && path == [path[0]] + path[1..];
        }
      }
    }
  }

  /** Looking below a child that `Child` supplies is looking below the path. */
  lemma ChildTimes(g: Group, name: Text, rest: seq<Text>)
    requires |rest| >= 1
    ensures TimeOf(Child(g, name), rest) == TimeOf(g, [name] + rest)
  {
    var q := [name] + rest;
    assert q[0] == name && q[1..] == rest;
  }

  /** After adding time the whole path exists. */
  lemma {:induction false} AddTimeCreatesPath(g: Group, path: seq<Text>, t: int)
    requires |path| >= 1
    ensures Has(AddTime(g, path, t), path)
    decreases |path|
  {
    if |path| > 1 {
      AddTimeCreatesPath(Child(g, path[0]), path[1..], t);
    }
  }

  /** Registering a timer whose groups all exist changes nothing. */
  lemma {:induction false} RegisterExistingPath(g: Group, path: seq<Text>)
    requires |path| >= 1 && Has(g, path)
    ensures AddTime(g, path, 0) == g
    decreases |path|
  {
    var child := g.subGroups[path[0]];
    if |path| > 1 {
      RegisterExistingPath(child, path[1..]);
    }
    assert g.subGroups[path[0] := child] == g.subGroups;
  }

  /** The sub-group names in iteration order. */
  function Order(g: Group): seq<Text> {
    SortedKeys(g.subGroups.Keys)
  }

  /** The nodes in the order the recursive walks visit them: each sub-group in
      ascending name order, as its (name, time) entry followed by its own
      sub-groups. */
  function Preorder(g: Group): seq<(Text, int)>
    decreases g, 1, 0
  {
    PreorderOf(g, Order(g))
  }

  function PreorderOf(g: Group, keys: seq<Text>): seq<(Text, int)>
    requires forall k :: 0 <= k < |keys| ==> keys[k] in g.subGroups
    decreases g, 0, |keys|
  {
    if keys == [] then []
    else
      var child := g.subGroups[keys[0]];
      [(keys[0], child.time)] + Preorder(child) + PreorderOf(g, keys[1..])
  }

  /** The map `Flatten` writes: the entries applied in order, a later entry
      overwriting an earlier one with the same name. */
  function Apply(m: map<Text, int>, es: seq<(Text, int)>): map<Text, int>
    decreases |es|
  {
    if es == [] then m else Apply(m[es[0].0 := es[0].1], es[1..])
  }

  lemma {:induction false} ApplyAppend(m: map<Text, int>, a: seq<(Text, int)>, b: seq<(Text, int)>)
    ensures Apply(m, a + b) == Apply(Apply(m, a), b)
    decreases |a|
  {
    if a != [] {
      assert (a + b)[0] == a[0] && (a + b)[1..] == a[1..] + b;
      ApplyAppend(m[a[0].0 := a[0].1], a[1..], b);
    } else {
      assert a + b == b;
    }
  }

  /** Whether an entry list names `k`. */
  predicate Mentions(es: seq<(Text, int)>, k: Text) {
    exists i :: 0 <= i < |es| && es[i].0 == k
  }

  /** The time of the last entry named `k`. */
  function LastTime(es: seq<(Text, int)>, k: Text): int
    requires Mentions(es, k)
    decreases |es|
  {
    var last := es[|es| - 1];
    if last.0 == k then last.1
    else
      assert Mentions(es[..|es| - 1], k) by {
        var i :| 0 <= i < |es| && es[i].0 == k;
        assert es[..|es| - 1][i] == es[i];
      }
      LastTime(es[..|es| - 1], k)
  }

  /** Applying entries gives every named key the time of its last entry and
      leaves every other key as it was. */
  lemma {:induction false} ApplyLastWins(m: map<Text, int>, es: seq<(Text, int)>, k: Text)
    ensures k in Apply(m, es) <==> k in m || Mentions(es, k)
    ensures Mentions(es, k) ==> Apply(m, es)[k] == LastTime(es, k)
    ensures !Mentions(es, k) && k in m ==> Apply(m, es)[k] == m[k]
    decreases |es|
  {
    if es != [] {
      var init, last := es[..|es| - 1], es[|es| - 1];
      assert es == init + [last];
      ApplyAppend(m, init, [last]);
      ApplyLastWins(m, init, k);
      assert Apply(Apply(m, init), [last]) == Apply(m, init)[last.0 := last.1];
      assert Mentions(es, k) <==> Mentions(init, k) || last.0 == k by {
        if Mentions(es, k) {
          var i :| 0 <= i < |es| && es[i].0 == k;
          if i < |init| {
            assert init[i] == es[i];
          }
        }
        if Mentions(init, k) {
          var i :| 0 <= i < |init| && init[i].0 == k;
          assert es[i] == init[i];
        }
      }
    }
  }

  /** `Flatten`: walks the sub-groups in name order, writes each one's time
      under its name and descends into those that have sub-groups. */
  method Flatten(g: Group, outmap: map<Text, int>) returns (m: map<Text, int>)
    ensures m == Apply(outmap, Preorder(g))
    decreases g, 1
  {
    m := FlattenEach(g, Order(g), outmap);
  }

  /** The loop of `Flatten` over the given sub-group names. */
  method FlattenEach(g: Group, keys: seq<Text>, outmap: map<Text, int>) returns (m: map<Text, int>)
    requires forall k :: 0 <= k < |keys| ==> keys[k] in g.subGroups
    ensures m == Apply(outmap, PreorderOf(g, keys))
    decreases g, 0
  {
    m := outmap;
    var i := 0;
    while i < |keys|
      invariant 0 <= i <= |keys|
      invariant Apply(m, PreorderOf(g, keys[i..])) == Apply(outmap, PreorderOf(g, keys))
    {
      var name := keys[i];
      var next := g.subGroups[name];
      PreorderOfFrom(g, keys, i);
      ghost var head := [(name, next.time)] + Preorder(next);
      ApplyAppend(m, head, PreorderOf(g, keys[i + 1..]));
      ApplyCons(m, (name, next.time), Preorder(next));
      m := m[name := next.time];
      if |next.subGroups| != 0 {
        m := Flatten(next, m);
      } else {
        EmptyPreorder(next);
      }
      i := i + 1;
    }
    assert keys[i..] == [];
  }

  /** The walk from the `i`-th name on: that name's entry, its own sub-groups,
      then the walk from the next name on. */
  lemma PreorderOfFrom(g: Group, keys: seq<Text>, i: nat)
    requires i < |keys|
    requires forall k :: 0 <= k < |keys| ==> keys[k] in g.subGroups
    ensures PreorderOf(g, keys[i..])
      == [(keys[i], g.subGroups[keys[i]].time)] + Preorder(g.subGroups[keys[i]]) + PreorderOf(g, keys[i + 1..])
  {
    assert keys[i..][0] == keys[i] && keys[i..][1..] == keys[i + 1..];
  }

  lemma ApplyCons(m: map<Text, int>, e: (Text, int), rest: seq<(Text, int)>)
    ensures Apply(m, [e] + rest) == Apply(m[e.0 := e.1], rest)
  {
    var es := [e] + rest;
    assert es[0] == e && es[1..] == rest;
  }

  lemma EmptyPreorder(g: Group)
    requires |g.subGroups| == 0
    ensures Preorder(g) == []
  {
    assert |Order(g)| == 0;
  }

  /** The flattened times of one group. */
  function FlatMap(g: Group): map<Text, int> {
    Apply(map[], Preorder(g))
  }

  /** A name's flattened time is the time of its last group in the walk, so
      where two groups share a name the later one wins. */
  lemma FlatMapTimes(g: Group, k: Text)
    ensures k in FlatMap(g) <==> Mentions(Preorder(g), k)
    ensures k in FlatMap(g) ==> FlatMap(g)[k] == LastTime(Preorder(g), k)
  {
    ApplyLastWins(map[], Preorder(g), k);
  }

  /** The flattened times of every group. */
  function FlatMaps(groups: seq<Group>): (r: seq<map<Text, int>>)
    ensures |r| == |groups|
    ensures forall i :: 0 <= i < |groups| ==> r[i] == FlatMap(groups[i])
  {
    seq(|groups|, i requires 0 <= i < |groups| => FlatMap(groups[i]))
  }

  /** A missing name contributes 0. */
  function Get(m: map<Text, int>, k: Text): int {
    if k in m then m[k] else 0
  }

  /** Two maps added name by name. */
  function MapAdd(a: map<Text, int>, b: map<Text, int>): map<Text, int> {
    map k | k in a.Keys + b.Keys :: Get(a, k) + Get(b, k)
  }

  lemma MapAddAt(a: map<Text, int>, b: map<Text, int>, k: Text)
    ensures k in MapAdd(a, b) <==> k in a || k in b
    ensures Get(MapAdd(a, b), k) == Get(a, k) + Get(b, k)
  {
  }

  /** The per-name sums over the first `n` maps. */
  function Sums(ms: seq<map<Text, int>>, n: nat): map<Text, int>
    requires n <= |ms|
  {
    if n == 0 then map[] else MapAdd(Sums(ms, n - 1), ms[n - 1])
  }

  /** The sum of a name's values over the first `n` maps. */
  function SumOf(ms: seq<map<Text, int>>, n: nat, k: Text): int
    requires n <= |ms|
  {
    if n == 0 then 0 else SumOf(ms, n - 1, k) + Get(ms[n - 1], k)
  }

  /** The sums hold a name exactly when some map has it, and hold its total. */
  lemma {:induction false} SumsAreTotals(ms: seq<map<Text, int>>, n: nat, k: Text)
    requires n <= |ms|
    ensures k in Sums(ms, n) <==> exists i :: 0 <= i < n && k in ms[i]
    ensures Get(Sums(ms, n), k) == SumOf(ms, n, k)
  {
    if n > 0 {
      SumsAreTotals(ms, n - 1, k);
      MapAddAt(Sums(ms, n - 1), ms[n - 1], k);
    }
  }

  function DivideAll(s: map<Text, int>, n: nat): (r: map<Text, int>)
    requires n > 0
    ensures r.Keys == s.Keys
  {
    map k | k in s :: TruncDiv(s[k], n)
  }

  /** `Average`: the flattened times of the first `groupCount` groups summed
      per name, then each sum divided by `groupCount`. */
  method Average(groups: seq<Group>, groupCount: nat) returns (r: map<Text, int>)
    requires groupCount <= |groups|
    ensures groupCount == 0 ==> r == map[]
    ensures groupCount > 0 ==> r == DivideAll(Sums(FlatMaps(groups), groupCount), groupCount)
  {
    r := SumFlattened(groups, groupCount);
    if groupCount > 0 {
      r := DivideEach(r, groupCount);
    }
  }

  /** An averaged name is one that some of the groups have; its value is the
      sum of its flattened times over the groups, divided by the group count
      and truncated toward zero. */
  lemma AverageValues(groups: seq<Group>, n: nat, k: Text)
    requires 0 < n <= |groups|
    ensures var r := DivideAll(Sums(FlatMaps(groups), n), n);
      (k in r <==> exists i :: 0 <= i < n && k in FlatMap(groups[i]))
      && (k in r ==> r[k] == TruncDiv(SumOf(FlatMaps(groups), n, k), n))
  {
    var flats := FlatMaps(groups);
    SumsAreTotals(flats, n, k);
    assert (exists i :: 0 <= i < n && k in flats[i]) <==> (exists i :: 0 <= i < n && k in FlatMap(groups[i]));
  }

  /** The first loop of `Average`: every group flattened and added in. */
  method SumFlattened(groups: seq<Group>, n: nat) returns (r: map<Text, int>)
    requires n <= |groups|
    ensures r == Sums(FlatMaps(groups), n)
  {
    r := map[];
    var i := 0;
    while i < n
      invariant 0 <= i <= n
      invariant r == Sums(FlatMaps(groups), i)
    {
      r := AddFlattened(r, groups, i);
      i := i + 1;
    }
  }

  /** One pass of that loop: `Flatten` of the `i`-th group into an empty map,
      added to the running sums. */
  method AddFlattened(acc: map<Text, int>, groups: seq<Group>, i: nat) returns (r: map<Text, int>)
    requires i < |groups|
    requires acc == Sums(FlatMaps(groups), i)
    ensures r == Sums(FlatMaps(groups), i + 1)
  {
    var flat := Flatten(groups[i], map[]);
    assert flat == FlatMaps(groups)[i];
    r := AddInto(acc, flat);
  }

  /** The accumulation `resMap[name] += time` over one flattened map. */
  method AddInto(acc: map<Text, int>, flat: map<Text, int>) returns (r: map<Text, int>)
    ensures r == MapAdd(acc, flat)
  {
    var keys := SortedKeys(flat.Keys);
    SortedKeysComplete(flat.Keys);
    r := AddEach(acc, flat, keys);
  }

  method AddEach(acc: map<Text, int>, flat: map<Text, int>, keys: seq<Text>) returns (r: map<Text, int>)
    requires forall i, j :: 0 <= i < j < |keys| ==> keys[i] != keys[j]
    requires forall x :: x in flat <==> x in keys
    ensures r == MapAdd(acc, flat)
  {
    r := acc;
    var i := 0;
    ghost var done: set<Text> := {};
    while i < |keys|
      invariant 0 <= i <= |keys|
      invariant forall k :: 0 <= k < i ==> keys[k] in done
      invariant forall k :: i <= k < |keys| ==> keys[k] !in done
      invariant done <= flat.Keys
      invariant forall x :: x in r <==> x in acc || x in done
      invariant forall x :: Get(r, x) == Get(acc, x) + (if x in done then flat[x] else 0)
    {
      var name := keys[i];
      r := r[name := Get(r, name) + flat[name]];
      done := done + {name};
      i := i + 1;
    }
    assert done == flat.Keys by {
      forall x | x in flat ensures x in done {
        var k :| 0 <= k < |keys| && keys[k] == x;
      }
    }
    var expected := MapAdd(acc, flat);
    forall x | x in r ensures r[x] == expected[x] {
      assert r[x] == Get(r, x);
    }
  }

  /** The final loop `second /= groupCount` over every summed name. */
  method DivideEach(s: map<Text, int>, n: nat) returns (r: map<Text, int>)
    requires n > 0
    ensures r == DivideAll(s, n)
  {
    var keys := SortedKeys(s.Keys);
    SortedKeysComplete(s.Keys);
    r := DivideKeys(s, n, keys);
  }

  method DivideKeys(s: map<Text, int>, n: nat, keys: seq<Text>) returns (r: map<Text, int>)
    requires n > 0
    requires forall i, j :: 0 <= i < j < |keys| ==> keys[i] != keys[j]
    requires forall x :: x in s <==> x in keys
    ensures r == DivideAll(s, n)
  {
    r := s;
    var i := 0;
    ghost var done: set<Text> := {};
    while i < |keys|
      invariant 0 <= i <= |keys|
      invariant r.Keys == s.Keys
      invariant forall k :: 0 <= k < i ==> keys[k] in done
      invariant forall k :: i <= k < |keys| ==> keys[k] !in done
      invariant forall x :: x in r ==> r[x] == if x in done then TruncDiv(s[x], n) else s[x]
    {
      var name := keys[i];
      r := r[name := TruncDiv(r[name], n)];
      done := done + {name};
      i := i + 1;
    }
    forall x | x in s ensures x in done {
      var k :| 0 <= k < |keys| && keys[k] == x;
    }
  }

  /** The sum of the times of some direct sub-groups. */
  function TimesOf(g: Group, keys: seq<Text>): int
    requires forall k :: 0 <= k < |keys| ==> keys[k] in g.subGroups
  {
    if keys == [] then 0 else g.subGroups[keys[0]].time + TimesOf(g, keys[1..])
  }

  /** The sum of the times of the direct sub-groups. */
  function ChildrenTotal(g: Group): int {
    TimesOf(g, Order(g))
  }

  /** The sum of the times of an entry list. */
  function SumTimes(es: seq<(Text, int)>): int {
    if es == [] then 0 else es[0].1 + SumTimes(es[1..])
  }

  lemma {:induction false} SumTimesAppend(a: seq<(Text, int)>, b: seq<(Text, int)>)
    ensures SumTimes(a + b) == SumTimes(a) + SumTimes(b)
    decreases |a|
  {
    if a != [] {
      assert (a + b)[0] == a[0] && (a + b)[1..] == a[1..] + b;
      SumTimesAppend(a[1..], b);
    } else {
      assert a + b == b;
    }
  }

  /** The sum of the times of every group below `g`, at any depth. */
  function DescendantTotal(g: Group): int {
    SumTimes(Preorder(g))
  }

  /** The newer `PrintGroup`: prints every node (not modelled) and returns the
      sum of the direct sub-groups' times; the nested call's result is dropped. */
  method PrintGroup(g: Group, indent: nat) returns (total: int)
    ensures total == ChildrenTotal(g)
    decreases g, 1
  {
    total := PrintEach(g, Order(g), indent);
  }

  method PrintEach(g: Group, keys: seq<Text>, indent: nat) returns (total: int)
    requires forall k :: 0 <= k < |keys| ==> keys[k] in g.subGroups
    ensures total == TimesOf(g, keys)
    decreases g, 0
  {
    total := 0;
    var i := 0;
    while i < |keys|
      invariant 0 <= i <= |keys|
      invariant total + TimesOf(g, keys[i..]) == TimesOf(g, keys)
    {
      var next := g.subGroups[keys[i]];
      assert keys[i..][0] == keys[i] && keys[i..][1..] == keys[i + 1..];
      total := total + next.time;
      var _ := PrintGroup(next, indent + 1);
      i := i + 1;
    }
    assert keys[i..] == [];
  }

  /** The older `PrintGroup`: the nested call's result is added, so the total
      covers every group below `g`. */
  method PrintGroupLegacy(g: Group, indent: nat) returns (total: int)
    ensures total == DescendantTotal(g)
    decreases g, 1
  {
    total := PrintEachLegacy(g, Order(g), indent);
  }

  method PrintEachLegacy(g: Group, keys: seq<Text>, indent: nat) returns (total: int)
    requires forall k :: 0 <= k < |keys| ==> keys[k] in g.subGroups
    ensures total == SumTimes(PreorderOf(g, keys))
    decreases g, 0
  {
    total := 0;
    var i := 0;
    while i < |keys|
      invariant 0 <= i <= |keys|
      invariant total + SumTimes(PreorderOf(g, keys[i..])) == SumTimes(PreorderOf(g, keys))
    {
      var name := keys[i];
      var next := g.subGroups[name];
      PreorderOfFrom(g, keys, i);
      ghost var entry := [(name, next.time)];
      SumTimesAppend(entry + Preorder(next), PreorderOf(g, keys[i + 1..]));
      SumTimesAppend(entry, Preorder(next));
      assert SumTimes(entry) == next.time by {
        assert entry[1..] == [];
      }
      total := total + next.time;
      var nested := PrintGroupLegacy(next, indent + 1);
      total := total + nested;
      i := i + 1;
    }
    assert keys[i..] == [];
  }

  /** A tree of one group `a` (time 1) holding one group `b` (time 5). */
  const Nested: Group := Group(map["a" := Group(map["b" := Group(map[], 5)], 1)], 0)

  /** The two versions disagree as soon as a group has sub-groups: the newer
      total of `Nested` is 1, the older one 6. */
  lemma PrintGroupTotalsDiffer()
    ensures ChildrenTotal(Nested) == 1
    ensures DescendantTotal(Nested) == 6
  {
    var a := Nested.subGroups["a"];
    var b := a.subGroups["b"];
    SingleKey(Nested.subGroups.Keys, "a");
    SingleKey(a.subGroups.Keys, "b");
    EmptyPreorder(b);
    assert Preorder(a) == [("b", 5)];
    assert Preorder(Nested) == [("a", 1), ("b", 5)];
  }

  lemma SingleKey(s: set<Text>, k: Text)
    requires s == {k}
    ensures SortedKeys(s) == [k]
  {
    var r := SortedKeys(s);
    assert |r| == 1 && r[0] in s;
  }

  /** The timer registry: the static base group. */
  class GroupTimer {
    var baseGroup: Group

    constructor()
      ensures baseGroup == EmptyGroup
    {
      baseGroup := EmptyGroup;
    }

    /** Creates the groups of a timer name without changing any time. The
        name is a `const char*`, so it ends at its first NUL. */
    method RegisterTimer(groupHierarchy: Text)
      modifies this
      ensures baseGroup == AddTime(old(baseGroup), PathOf(CStr(groupHierarchy)), 0)
    {
      baseGroup := AddTime(baseGroup, PathOf(CStr(groupHierarchy)), 0);
    }

    /** Adds `time` to the group a timer name leads to, creating it as needed;
        the name ends at its first NUL. */
    method AppendTime(groupHierarchy: Text, time: int)
      modifies this
      ensures baseGroup == AddTime(old(baseGroup), PathOf(CStr(groupHierarchy)), time)
    {
      baseGroup := AddTime(baseGroup, PathOf(CStr(groupHierarchy)), time);
    }

    /** The newer `PrintTracked`: returns the overall sum it prints and, when
        asked to, empties the tree. */
    method PrintTracked(clearTimers: bool) returns (sum: int)
      modifies this
      ensures sum == ChildrenTotal(old(baseGroup))
      ensures baseGroup == if clearTimers then EmptyGroup else old(baseGroup)
    {
      sum := PrintGroup(baseGroup, 0);
      if clearTimers {
        baseGroup := EmptyGroup;
      }
    }

    /** The older `PrintTracked`: returns the overall sum it prints and leaves
        the tree as it is. */
    method PrintTrackedLegacy() returns (sum: int)
      ensures sum == DescendantTotal(baseGroup)
    {
      sum := PrintGroupLegacy(baseGroup, 0);
    }

    /** Hands out the tree and starts over with an empty one. */
    method GetAndReset() returns (temp: Group)
      modifies this
      ensures temp == old(baseGroup) && baseGroup == EmptyGroup
    {
      temp := baseGroup;
      baseGroup := EmptyGroup;
    }
  }

  type U64 = n: int | 0 <= n < 0x1_0000_0000_0000_0000

  /** The peak value seen per key. */
  class MemoryTracker {
    var store: map<Text, U64>

    constructor()
      ensures store == map[]
    {
      store := map[];
    }

    /** Keeps the larger of the stored and the new value; reading a missing key
        first inserts it with 0. */
    method Snapshot(key: Text, value: U64)
      modifies this
      ensures store.Keys == old(store.Keys) + {key}
      ensures store[key] == if key in old(store) && value <= old(store[key]) then old(store[key]) else value
      ensures forall k :: k in old(store) && k != key ==> store[k] == old(store[k])
    {
      if key !in store {
        store := store[key := 0];
      }
      if value > store[key] {
        store := store[key := value];
      }
    }

    method Reset()
      modifies this
      ensures store == map[]
    {
      store := map[];
    }
  }

  /** A snapshot never lowers a peak and always reaches the new value. */
  lemma SnapshotKeepsMaximum(store: map<Text, U64>, key: Text, value: U64)
    ensures var s := if key in store && value <= store[key] then store[key] else value;
      s >= value && (key in store ==> s >= store[key])
      && (s == value || (key in store && s == store[key]))
  {
  }
}
