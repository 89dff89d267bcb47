/** Latency bookkeeping keyed by a frame timestamp: every frame collects named
    clock readings in the order they were taken, and deltas between readings
    of one frame or between frames are reported in microseconds. Readings come
    from a monotonic clock in nanoseconds and are passed in here; the
    monitor's static state is the state of one `LatencyMonitor` object. */
module LatencyMonitor {
  import opened Common
  import opened TextOrder
  import opened Entities
  import QuickDebug

  type U32 = n: int | 0 <= n < 0x1_0000_0000

  /** The default number of frames kept before old ones are dropped. */
  const DefaultMaxElementCount: U32 := 100

  /** The number of frames left after old ones are dropped. */
  const KeptFrames: nat := 50

  const NanosPerMicro: nat := 1000

  const Arrow: Text := "->"

  /** One clock reading of a frame: the reading's name and the time. */
  type Stamp = (Text, int)

  datatype Measurement = Measurement(xrTimestamp: int, startTime: int)

  /** `duration_cast<microseconds>` of a nanosecond difference. */
  function Micros(d: int): (us: int)
    ensures d >= 0 ==> 0 <= d - us * NanosPerMicro < NanosPerMicro
    ensures d < 0 ==> 0 <= us * NanosPerMicro - d < NanosPerMicro
  {
    TruncDiv(d, NanosPerMicro)
  }

  /** `strcmp(a, b) == 0`: the names agree as C strings. */
  predicate SameName(a: Text, b: Text) {
    CStr(a) == CStr(b)
  }

  /** `std::find_if` for a name: the position of the first reading with that
      name, or `|ts|` (the end) when there is none. */
  function FindName(ts: seq<Stamp>, name: Text): (r: nat)
    ensures r <= |ts|
    ensures forall j :: 0 <= j < r ==> !SameName(ts[j].0, name)
    ensures r < |ts| ==> SameName(ts[r].0, name)
    decreases |ts|
  {
    if ts == [] then 0
    else if SameName(ts[0].0, name) then 0
    else
      var r := FindName(ts[1..], name);
      assert forall j :: 1 <= j < 1 + r ==> ts[j] == ts[1..][j - 1];
      1 + r
  }

  /** The loop `std::find_if` runs. */
  method FindIf(ts: seq<Stamp>, name: Text) returns (i: nat)
    ensures i == FindName(ts, name)
  {
    i := 0;
    while i < |ts| && !SameName(ts[i].0, name)
      invariant 0 <= i <= |ts|
      invariant forall j :: 0 <= j < i ==> !SameName(ts[j].0, name)
    {
      i := i + 1;
    }
    FindNameUnique(ts, name, i);
  }

  /** The ensures of `FindName` pin down a single position. */
  lemma FindNameUnique(ts: seq<Stamp>, name: Text, i: nat)
    requires i <= |ts|
    requires forall j :: 0 <= j < i ==> !SameName(ts[j].0, name)
    requires i < |ts| ==> SameName(ts[i].0, name)
    ensures i == FindName(ts, name)
  {
  }

  predicate Holds(ts: seq<Stamp>, name: Text) {
    FindName(ts, name) < |ts|
  }

  /** The time of the first reading with a name. */
  function FirstTime(ts: seq<Stamp>, name: Text): int
    requires Holds(ts, name)
  {
    ts[FindName(ts, name)].1
  }

  /** The closest earlier frame that has a reading with the name. */
  function PrevWith(tm: map<int, seq<Stamp>>, xr: int, name: Text): (r: Option<int>)
    ensures r.Some? ==> r.value in tm && r.value < xr && Holds(tm[r.value], name)
    ensures r.Some? ==> forall k :: k in tm && r.value < k < xr ==> !Holds(tm[k], name)
    ensures r.None? ==> forall k :: k in tm && k < xr ==> !Holds(tm[k], name)
  {
    var ks := set k | k in tm.Keys && k < xr && Holds(tm[k], name);
    assert forall k :: k in tm && k < xr && Holds(tm[k], name) ==> k in ks;
    if ks == {} then None else Some(MaxInt(ks))
  }

  /** What `MeasureTimeDelta` reports: the time from the name's reading in the
      closest earlier frame that has one to its reading in this frame; 0 if the
      frame is unknown, lacks the name, or no earlier frame has it. */
  function TimeDelta(tm: map<int, seq<Stamp>>, xr: int, name: Text): int {
    if xr !in tm || !Holds(tm[xr], name) then 0
    else match PrevWith(tm, xr, name)
      case None => 0
      case Some(k) => Micros(FirstTime(tm[xr], name) - FirstTime(tm[k], name))
  }

  /** The frames after old ones are dropped: the smallest frame timestamps go
      first until `KeptFrames` remain. */
  function Trimmed(tm: map<int, seq<Stamp>>): map<int, seq<Stamp>>
    decreases |tm|
  {
    if |tm| <= KeptFrames then tm
    else
      var oldest := MinInt(tm.Keys);
      assert |tm - {oldest}| < |tm| by {
        assert tm.Keys - {oldest} < tm.Keys;
      }
      Trimmed(tm - {oldest})
  }

  /** `ClearOldTimestampData`: nothing happens until there are more frames than
      the limit. */
  function ClearOld(tm: map<int, seq<Stamp>>, maxElementCount: nat): map<int, seq<Stamp>> {
    if |tm| <= maxElementCount then tm else Trimmed(tm)
  }

  /** Dropping keeps the newest frames unchanged: exactly `KeptFrames` of them
      (all of them if there are fewer), and every dropped frame is older than
      every kept one. */
  lemma {:induction false} TrimmedKeepsNewest(tm: map<int, seq<Stamp>>)
    ensures Trimmed(tm).Keys <= tm.Keys
    ensures forall k :: k in Trimmed(tm) ==> Trimmed(tm)[k] == tm[k]
    ensures |Trimmed(tm)| == if |tm| <= KeptFrames then |tm| else KeptFrames
    ensures forall a, b :: a in tm && a !in Trimmed(tm) && b in Trimmed(tm) ==> a < b
    decreases |tm|
  {
    if |tm| > KeptFrames {
      var oldest := MinInt(tm.Keys);
      var rest := tm - {oldest};
      assert |rest| < |tm| by {
        assert rest.Keys < tm.Keys;
      }
      assert |rest| == |tm| - 1 by {
        assert rest.Keys == tm.Keys - {oldest};
      }
      TrimmedKeepsNewest(rest);
      assert Trimmed(tm) == Trimmed(rest);
      forall a, b | a in tm && a !in Trimmed(tm) && b in Trimmed(tm) ensures a < b {
        if a == oldest {
          assert b in rest && b != oldest;
        }
      }
    }
  }

  /** `operator[]` on the frame map: a missing frame is created empty. */
  function Touch(tm: map<int, seq<Stamp>>, xr: int): (r: map<int, seq<Stamp>>)
    ensures xr in r && r.Keys == tm.Keys + {xr}
    ensures forall k :: k in tm ==> r[k] == tm[k]
    ensures xr !in tm ==> r[xr] == []
  {
    if xr in tm then tm else tm[xr := []]
  }

  /** What `MeasureElapsedTime` reports: the time from the first reading named
      `begin` to the first named `end` in the frame, or 0 if either is missing. */
  function Elapsed(ts: seq<Stamp>, begin: Text, end: Text): int {
    if !Holds(ts, begin) || !Holds(ts, end) then 0
    else Micros(FirstTime(ts, end) - FirstTime(ts, begin))
  }

  /** Truncation toward zero makes the reported time antisymmetric: swapping
      the two names only flips the sign. */
  lemma ElapsedAntisymmetric(ts: seq<Stamp>, begin: Text, end: Text)
    ensures Elapsed(ts, end, begin) == -Elapsed(ts, begin, end)
    ensures Elapsed(ts, begin, begin) == 0
  {
  }

  /** Readings are appended in time order, so with a monotonic clock a name
      read first never shows a negative time to a name read later. */
  lemma ElapsedNonNegative(ts: seq<Stamp>, begin: Text, end: Text)
    requires forall i, j :: 0 <= i < j < |ts| ==> ts[i].1 <= ts[j].1
    requires Holds(ts, begin) && Holds(ts, end)
    requires FindName(ts, begin) <= FindName(ts, end)
    ensures Elapsed(ts, begin, end) >= 0
  {
    var b, e := FindName(ts, begin), FindName(ts, end);
    if b < e {
      assert ts[b].1 <= ts[e].1;
    }
  }

  /** One plotted hop: `prev->name` with the time between the two readings. */
  function Hop(prev: Stamp, next: Stamp): Stamp {
    (CStr(prev.0) + Arrow + CStr(next.0), Micros(next.1 - prev.1))
  }

  /** What `SendTimestampMeasurement` plots: one hop per pair of consecutive
      readings, in order. */
  function Hops(ts: seq<Stamp>): (r: seq<Stamp>)
    ensures |r| == if |ts| == 0 then 0 else |ts| - 1
    ensures forall i :: 0 <= i < |r| ==> r[i] == Hop(ts[i], ts[i + 1])
    decreases |ts|
  {
    if |ts| < 2 then []
    else
      var rest := Hops(ts[1..]);
      assert forall i :: 0 <= i < |rest| ==> rest[i] == Hop(ts[i + 1], ts[i + 2]);
      [Hop(ts[0], ts[1])] + rest
  }

  function SumValues(ps: seq<Stamp>): int {
    if ps == [] then 0 else ps[0].1 + SumValues(ps[1..])
  }

  /** With a monotonic clock the plotted hops add up to the time from the
      first to the last reading, less at most one microsecond per hop lost to
      truncation. */
  lemma {:induction false} HopsAddUp(ts: seq<Stamp>)
    requires |ts| >= 2
    requires forall i :: 0 <= i < |ts| - 1 ==> ts[i].1 <= ts[i + 1].1
    ensures var total, s := ts[|ts| - 1].1 - ts[0].1, SumValues(Hops(ts)) * NanosPerMicro;
      s <= total < s + NanosPerMicro * (|ts| - 1)
    decreases |ts|
  {
    var h := Hop(ts[0], ts[1]);
    var hs := Hops(ts);
    assert hs[0] == h;
    if |ts| == 2 {
      assert hs[1..] == [];
    } else {
      var rest := ts[1..];
      assert forall i :: 0 <= i < |rest| - 1 ==> rest[i].1 <= rest[i + 1].1 by {
        assert forall i :: 0 <= i < |rest| ==> rest[i] == ts[i + 1];
      }
      HopsAddUp(rest);
      assert hs[1..] == Hops(rest);
      assert rest[|rest| - 1] == ts[|ts| - 1] && rest[0] == ts[1];
    }
  }

  class LatencyMonitor {
    var maxElementCount: U32
    /** The readings of every frame, by frame timestamp. */
    var timestamps: map<int, seq<Stamp>>
    /** The running stopwatches by name. */
    var measurements: map<Text, Measurement>

    constructor()
      ensures maxElementCount == DefaultMaxElementCount
      ensures timestamps == map[] && measurements == map[]
    {
      maxElementCount := DefaultMaxElementCount;
      timestamps := map[];
      measurements := map[];
    }

    method SetMaxBufferSize(count: U32)
      modifies this
      ensures maxElementCount == count
      ensures timestamps == old(timestamps) && measurements == old(measurements)
    {
      maxElementCount := count;
    }

    /** Appends a reading to the frame (creating the frame if needed), then
        drops old frames. */
    method TakeTimestampMeasurement(xrTimestamp: int, name: Text, now: int)
      modifies this
      ensures var touched := Touch(old(timestamps), xrTimestamp);
        timestamps == ClearOld(touched[xrTimestamp := touched[xrTimestamp] + [(name, now)]], maxElementCount)
      ensures maxElementCount == old(maxElementCount) && measurements == old(measurements)
    {
      var touched := Touch(timestamps, xrTimestamp);
      timestamps := touched[xrTimestamp := touched[xrTimestamp] + [(name, now)]];
      ClearOldTimestampData();
    }

    /** Walks back from the frame to the closest earlier one with a reading
        of the name. */
    method MeasureTimeDelta(xrTimestamp: int, name: Text) returns (us: int)
      ensures us == TimeDelta(timestamps, xrTimestamp, name)
    {
      var tm := timestamps;
      if xrTimestamp !in tm {
        return 0;
      }
      us := DeltaOfFrame(tm, xrTimestamp, name);
    }

    /** `MeasureElapsedTime`: reads the frame through `operator[]`, which
        creates it if it is missing. */
    method MeasureElapsedTime(xrTimestamp: int, begin: Text, end: Text) returns (us: int)
      modifies this
      ensures timestamps == Touch(old(timestamps), xrTimestamp)
      ensures maxElementCount == old(maxElementCount) && measurements == old(measurements)
      ensures us == Elapsed(timestamps[xrTimestamp], begin, end)
    {
      timestamps := Touch(timestamps, xrTimestamp);
      var ts := timestamps[xrTimestamp];
      var b := FindIf(ts, begin);
      if b == |ts| {
        return 0;
      }
      var e := FindIf(ts, end);
      if e == |ts| {
        return 0;
      }
      us := Micros(ts[e].1 - ts[b].1);
    }

    /** Plots every hop of the frame through the facade's `Plot` and returns
        them; the frame is created if missing and erased afterwards when asked
        to. `floatText` is the text `CreatePlotMessage` makes of the latency
        once it is cast to `float`. */
    method SendTimestampMeasurement(qd: QuickDebug.QuickDebug, xrTimestamp: int, deleteSentElements: bool, floatText: int -> Text)
      returns (plots: seq<Stamp>)
      modifies this, qd, qd.server, qd.queue
      ensures plots == Hops(Touch(old(timestamps), xrTimestamp)[xrTimestamp])
      ensures qd.queue.items == old(qd.queue.items) + PlotMessages(plots, floatText)
      ensures PlotStarts(qd, plots != [], old(qd.server.isRunning), old(qd.cfg), old(qd.server.port), old(qd.webServerStarted))
      ensures qd.server.sent == old(qd.server.sent) && qd.server.clients == old(qd.server.clients)
      ensures qd.recvMessageConfigs == old(qd.recvMessageConfigs) && qd.targets == old(qd.targets)
      ensures timestamps == if deleteSentElements then old(timestamps) - {xrTimestamp}
        else Touch(old(timestamps), xrTimestamp)
      ensures maxElementCount == old(maxElementCount) && measurements == old(measurements)
    {
      timestamps := Touch(timestamps, xrTimestamp);
      plots := HopsOf(timestamps[xrTimestamp]);
      PlotHops(qd, plots, floatText);
      if deleteSentElements {
        timestamps := timestamps - {xrTimestamp};
      }
    }

    method EraseTimestamp(xrTimestamp: int)
      modifies this
      ensures timestamps == old(timestamps) - {xrTimestamp}
      ensures maxElementCount == old(maxElementCount) && measurements == old(measurements)
    {
      timestamps := timestamps - {xrTimestamp};
    }

    /** Starts (or restarts) the stopwatch of a name. */
    method StartMeasurement(name: Text, now: int)
      modifies this
      ensures measurements == old(measurements)[CStr(name) := Measurement(-1, now)]
      ensures timestamps == old(timestamps) && maxElementCount == old(maxElementCount)
    {
      measurements := measurements[CStr(name) := Measurement(-1, now)];
    }

    /** Reads the stopwatch of a name without stopping it; 0 for a name never
        started. */
    method StopMeasurement(name: Text, now: int) returns (us: int)
      ensures CStr(name) !in measurements ==> us == 0
      ensures CStr(name) in measurements ==> us == Micros(now - measurements[CStr(name)].startTime)
    {
      var key := CStr(name);
      if key !in measurements {
        return 0;
      }
      us := Micros(now - measurements[key].startTime);
    }

    method ClearOldTimestampData()
      modifies this
      ensures timestamps == ClearOld(old(timestamps), maxElementCount)
      ensures maxElementCount == old(maxElementCount) && measurements == old(measurements)
    {
      if |timestamps| <= maxElementCount {
        return;
      }
      while |timestamps| > KeptFrames
        invariant Trimmed(timestamps) == Trimmed(old(timestamps))
        invariant maxElementCount == old(maxElementCount) && measurements == old(measurements)
        decreases |timestamps|
      {
        var oldest := MinInt(timestamps.Keys);
        assert |timestamps - {oldest}| < |timestamps| by {
          assert timestamps.Keys - {oldest} < timestamps.Keys;
        }
        timestamps := timestamps - {oldest};
      }
    }
  }

  /** `MeasureTimeDelta` for a frame that exists. */
  method DeltaOfFrame(tm: map<int, seq<Stamp>>, xr: int, name: Text) returns (us: int)
    requires xr in tm
    ensures us == TimeDelta(tm, xr, name)
  {
    var keys := SortedInts(tm.Keys);
    SortedIntsComplete(tm.Keys);
    var pos :| 0 <= pos < |keys| && keys[pos] == xr;
    if pos == 0 {
      NothingBefore(tm, keys, xr, name);
      return 0;
    }
    us := DeltaAt(tm, keys, pos, name);
  }

  /** `MeasureTimeDelta` for the frame at `pos` in the ascending key list,
      which is not the first. */
  method DeltaAt(tm: map<int, seq<Stamp>>, keys: seq<int>, pos: nat, name: Text) returns (us: int)
    requires 0 < pos < |keys|
    requires forall k :: 0 <= k < |keys| ==> keys[k] in tm
    requires forall x :: x in tm ==> x in keys
    requires forall i, j :: 0 <= i < j < |keys| ==> keys[i] < keys[j]
    ensures us == TimeDelta(tm, keys[pos], name)
  {
    var latest := tm[keys[pos]];
    var i := FindIf(latest, name);
    if i == |latest| {
      return 0;
    }
    us := WalkBack(tm, keys, pos, name, latest[i].1);
  }

  /** The first frame has no earlier frame. */
  lemma NothingBefore(tm: map<int, seq<Stamp>>, keys: seq<int>, xr: int, name: Text)
    requires |keys| > 0 && keys[0] == xr
    requires forall k :: 0 <= k < |keys| ==> keys[k] in tm
    requires forall x :: x in tm ==> x in keys
    requires forall i, j :: 0 <= i < j < |keys| ==> keys[i] < keys[j]
    ensures PrevWith(tm, xr, name).None?
  {
    forall k | k in tm ensures xr <= k {
      var q :| 0 <= q < |keys| && keys[q] == k;
      if q > 0 {
        assert keys[0] < keys[q];
      }
    }
  }

  /** The backward loop of `MeasureTimeDelta`, from the frame at `pos` in the
      ascending key list. */
  method WalkBack(tm: map<int, seq<Stamp>>, keys: seq<int>, pos: nat, name: Text, latest: int) returns (us: int)
    requires 0 < pos < |keys| && keys[pos] in tm && Holds(tm[keys[pos]], name)
    requires latest == FirstTime(tm[keys[pos]], name)
    requires forall k :: 0 <= k < |keys| ==> keys[k] in tm
    requires forall x :: x in tm ==> x in keys
    requires forall i, j :: 0 <= i < j < |keys| ==> keys[i] < keys[j]
    ensures us == TimeDelta(tm, keys[pos], name)
  {
    var j := pos;
    while j > 0
      invariant 0 <= j <= pos
      invariant forall k :: j <= k < pos ==> !Holds(tm[keys[k]], name)
    {
      j := j - 1;
      var prev := tm[keys[j]];
      var m := FindIf(prev, name);
      if m == |prev| {
        continue;
      }
      ClosestEarlier(tm, keys, pos, j, name);
      return Micros(latest - prev[m].1);
    }
    ClosestEarlier(tm, keys, pos, -1, name);
    us := 0;
  }

  /** If no frame strictly between positions `j` and `pos` holds the name,
      the closest earlier frame holding it is the one at `j` (or there is none
      when `j` is -1). */
  lemma ClosestEarlier(tm: map<int, seq<Stamp>>, keys: seq<int>, pos: nat, j: int, name: Text)
    requires -1 <= j < pos < |keys|
    requires forall k :: 0 <= k < |keys| ==> keys[k] in tm
    requires forall x :: x in tm ==> x in keys
    requires forall i, k :: 0 <= i < k < |keys| ==> keys[i] < keys[k]
    requires forall k :: j < k < pos ==> !Holds(tm[keys[k]], name)
    requires j >= 0 ==> Holds(tm[keys[j]], name)
    ensures j >= 0 ==> PrevWith(tm, keys[pos], name) == Some(keys[j])
    ensures j < 0 ==> PrevWith(tm, keys[pos], name).None?
  {
    var xr := keys[pos];
    var ks := set k | k in tm.Keys && k < xr && Holds(tm[k], name);
    forall q | j < q < |keys| ensures keys[q] !in ks {
      if pos < q {
        assert keys[pos] < keys[q];
      }
    }
    forall q | 0 <= q <= j ensures keys[q] <= keys[j] {
      if q < j {
        assert keys[q] < keys[j];
      }
    }
    forall k | k in ks ensures exists q :: 0 <= q <= j && keys[q] == k {
      var q :| 0 <= q < |keys| && keys[q] == k;
    }
    if j >= 0 {
      assert keys[j] in ks by {
        assert keys[j] < keys[pos];
      }
      assert MaxInt(ks) == keys[j];
    }
  }

  /** The plotting loop of `SendTimestampMeasurement`, from the second reading on. */
  method HopsOf(ts: seq<Stamp>) returns (plots: seq<Stamp>)
    ensures plots == Hops(ts)
  {
    plots := [];
    var i := 1;
    while i < |ts|
      invariant 1 <= i <= if |ts| == 0 then 1 else |ts|
      invariant |plots| == i - 1
      invariant forall k :: 0 <= k < i - 1 ==> plots[k] == Hop(ts[k], ts[k + 1])
    {
      plots := plots + [Hop(ts[i - 1], ts[i])];
      i := i + 1;
    }
    var hops := Hops(ts);
    assert |plots| == |hops|;
    forall k | 0 <= k < |plots| ensures plots[k] == hops[k] {
      assert plots[k] == Hop(ts[k], ts[k + 1]);
    }
  }

  /** The plot messages of the hops, in order. */
  function PlotMessages(hops: seq<Stamp>, floatText: int -> Text): (r: seq<TransmissionMsg>)
    ensures |r| == |hops|
    ensures forall k :: 0 <= k < |r| ==> r[k] == CreatePlotMessage(hops[k].0, floatText(hops[k].1))
  {
    if hops == [] then []
    else PlotMessages(hops[..|hops| - 1], floatText) + [CreatePlotMessage(hops[|hops| - 1].0, floatText(hops[|hops| - 1].1))]
  }

  /** What plotting leaves of the facade's start-up: nothing changes when
      nothing was plotted; otherwise the server runs, on the default
      configuration when it was stopped, since `Plot` starts through
      `Startup()`. The web-server flag is kept either way: the default
      configuration asks for no web server. */
  ghost predicate PlotStarts(qd: QuickDebug.QuickDebug, plotted: bool, wasRunning: bool, cfg0: QuickDebugConfig, port0: int, web0: bool)
    reads qd, qd.server
  {
    && qd.webServerStarted == web0
    && (!plotted ==> qd.server.isRunning == wasRunning && qd.cfg == cfg0 && qd.server.port == port0)
    && (plotted ==> qd.server.isRunning)
    && (plotted && !wasRunning ==> qd.cfg == DefaultConfig && qd.server.port == DefaultConfig.websocketPort)
    && (plotted && wasRunning ==> qd.cfg == cfg0 && qd.server.port == port0)
  }

  /** The `QD::QuickDebug::Plot` calls of `SendTimestampMeasurement`: one per
      hop, named `prev->name`, in order. */
  method PlotHops(qd: QuickDebug.QuickDebug, hops: seq<Stamp>, floatText: int -> Text)
    modifies qd, qd.server, qd.queue
    ensures qd.queue.items == old(qd.queue.items) + PlotMessages(hops, floatText)
    ensures PlotStarts(qd, hops != [], old(qd.server.isRunning), old(qd.cfg), old(qd.server.port), old(qd.webServerStarted))
    ensures qd.server.sent == old(qd.server.sent) && qd.server.clients == old(qd.server.clients)
    ensures qd.recvMessageConfigs == old(qd.recvMessageConfigs) && qd.targets == old(qd.targets)
  {
    var i := 0;
    while i < |hops|
      invariant 0 <= i <= |hops|
      invariant qd.queue.items == old(qd.queue.items) + PlotMessages(hops[..i], floatText)
      invariant PlotStarts(qd, i > 0, old(qd.server.isRunning), old(qd.cfg), old(qd.server.port), old(qd.webServerStarted))
      invariant qd.server.sent == old(qd.server.sent) && qd.server.clients == old(qd.server.clients)
      invariant qd.recvMessageConfigs == old(qd.recvMessageConfigs) && qd.targets == old(qd.targets)
    {
      qd.Plot(hops[i].0, floatText(hops[i].1));
      assert hops[..i + 1][..i] == hops[..i];
      i := i + 1;
    }
    assert hops[..|hops|] == hops;
  }

  /** A stopwatch started at `t0` and read at `t1` shows the time in between. */
  method StartThenStop(name: Text, t0: int, t1: int) returns (us: int)
    ensures us == Micros(t1 - t0)
  {
    var monitor := new LatencyMonitor();
    monitor.StartMeasurement(name, t0);
    us := monitor.StopMeasurement(name, t1);
  }

  /** Two frames with one reading of the same name each: the later frame's
      delta is the time between the two readings. */
  lemma DeltaBetweenTwoFrames(name: Text, x1: int, t1: int, x2: int, t2: int)
    requires x1 < x2
    ensures TimeDelta(map[x1 := [(name, t1)], x2 := [(name, t2)]], x2, name) == Micros(t2 - t1)
    ensures TimeDelta(map[x1 := [(name, t1)], x2 := [(name, t2)]], x1, name) == 0
  {
    var tm := map[x1 := [(name, t1)], x2 := [(name, t2)]];
    assert Holds(tm[x1], name) && Holds(tm[x2], name);
    var p := PrevWith(tm, x2, name);
    assert p == Some(x1) by {
      assert x1 in set k | k in tm.Keys && k < x2 && Holds(tm[k], name);
    }
    assert PrevWith(tm, x1, name).None?;
  }
}
