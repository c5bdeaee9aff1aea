/**
 * What traces report, as functions of everything that has happened.  A history lists the calls
 * of the data manager in order.
 */
module Traces {
  import opened Bytes

  datatype Event =
    | AddCounter(name: string)
    | RemoveCounter(name: string)
    | TraceCounter(name: string)
    | TraceLatency(first: string, last: string)
    | TraceThroughput(site: string)
    | PacketRead(packet: int, site: string, time: real)
    | PacketWritten(packet: int, site: string, time: real)
    | RemovePacket(packet: int)

  /** The quotient 10^9 / 0.0 of a throughput is infinite. */
  datatype TraceValue = Finite(value: real) | Infinite

  datatype TraceData = TraceData(id: nat, value: TraceValue)

  // ---- Identifiers -------------------------------------------------------------------------

  function CounterNames(h: seq<Event>): set<string> {
    if h == [] then {}
    else
      match h[|h| - 1]
      case AddCounter(n) => CounterNames(h[..|h| - 1]) + {n}
      case RemoveCounter(n) => CounterNames(h[..|h| - 1]) - {n}
      case _ => CounterNames(h[..|h| - 1])
  }

  function CounterTraces(h: seq<Event>): map<string, nat>
    decreases |h|, 1
  {
    if h == [] then map[]
    else
      var before, e := h[..|h| - 1], h[|h| - 1];
      if e.TraceCounter? && GivesId(before, e) then CounterTraces(before)[e.name := NextId(before)]
      else CounterTraces(before)
  }

  /** Does the event create a trace?  A counter must exist and not be traced yet. */
  predicate GivesId(before: seq<Event>, e: Event)
    decreases |before|, 2
  {
    match e
    case TraceCounter(n) => n in CounterNames(before) && n !in CounterTraces(before)
    case TraceLatency(_, _) => true
    case TraceThroughput(_) => true
    case _ => false
  }

  /** The number of traces created. */
  function NextId(h: seq<Event>): nat
    decreases |h|, 0
  {
    if h == [] then 0
    else NextId(h[..|h| - 1]) + if GivesId(h[..|h| - 1], h[|h| - 1]) then 1 else 0
  }

  // ---- Latency -----------------------------------------------------------------------------

  /** The latency traces from one module to another, in the order of their registration. */
  function Registered(h: seq<Event>, first: string, last: string): seq<nat> {
    if h == [] then []
    else
      var before := h[..|h| - 1];
      if h[|h| - 1] == TraceLatency(first, last) then Registered(before, first, last) + [NextId(before)]
      else Registered(before, first, last)
  }

  /** A latency that the next write of the packet at the last module completes. */
  datatype Pending = Pending(id: nat, readTime: real)

  function Stamp(ids: seq<nat>, time: real): (ps: seq<Pending>)
    ensures |ps| == |ids| && forall k :: 0 <= k < |ids| ==> ps[k] == Pending(ids[k], time)
  {
    seq(|ids|, k requires 0 <= k < |ids| => Pending(ids[k], time))
  }

  /** The position after the last write of the packet at `site`. */
  function SinceWrite(h: seq<Event>, packet: int, site: string): (start: nat)
    ensures start <= |h|
    ensures start > 0 ==> h[start - 1].PacketWritten? && h[start - 1].packet == packet && h[start - 1].site == site
    ensures forall k :: start <= k < |h| ==> h[k].PacketWritten? ==> h[k].packet != packet || h[k].site != site
  {
    if h == [] then 0
    else
      var e := h[|h| - 1];
      if e.PacketWritten? && e.packet == packet && e.site == site then |h|
      else SinceWrite(h[..|h| - 1], packet, site)
  }

  /** For every read of the packet from `start` on, the traces registered before it that end at `site`. */
  function Latencies(h: seq<Event>, start: nat, packet: int, site: string): seq<Pending> {
    if |h| <= start then []
    else
      var before, e := h[..|h| - 1], h[|h| - 1];
      Latencies(before, start, packet, site) +
        if e.PacketRead? && e.packet == packet then Stamp(Registered(before, e.site, site), e.time) else []
  }

  function PendingAt(h: seq<Event>, packet: int, site: string): seq<Pending> {
    Latencies(h, SinceWrite(h, packet, site), packet, site)
  }

  /** Event `i` is a read of the packet, and `id` a trace that it starts and a write at `site` ends. */
  ghost predicate StartsLatency(h: seq<Event>, i: nat, packet: int, site: string, l: Pending) {
    && i < |h| && h[i].PacketRead? && h[i].packet == packet && h[i].time == l.readTime
    && l.id in Registered(h[..i], h[i].site, site)
  }

  lemma StartsKept(h: seq<Event>, i: nat, packet: int, site: string, l: Pending)
    requires i < |h| - 1
    ensures StartsLatency(h, i, packet, site, l) <==> StartsLatency(h[..|h| - 1], i, packet, site, l)
  {
    assert h[..|h| - 1][..i] == h[..i];
  }

  lemma {:induction false} LatencyMeaning(h: seq<Event>, start: nat, packet: int, site: string, l: Pending)
    ensures l in Latencies(h, start, packet, site) <==> exists i :: i >= start && StartsLatency(h, i, packet, site, l)
  {
    LatenciesInOrder(h, start, packet, site);
    hide Latencies, Origins, StartsLatency;
    if l in Latencies(h, start, packet, site) {
      var a :| 0 <= a < |Latencies(h, start, packet, site)| && Latencies(h, start, packet, site)[a] == l;
      assert StartsLatency(h, Origins(h, start, packet, site)[a], packet, site, l);
    }
    if i :| i >= start && StartsLatency(h, i, packet, site, l) {
      var a := LatenciesComplete(h, start, i, packet, site, l);
    }
  }

  /** The reads that the pending latencies come from, one for each of them. */
  function Origins(h: seq<Event>, start: nat, packet: int, site: string): (os: seq<nat>)
    ensures |os| == |Latencies(h, start, packet, site)|
  {
    if |h| <= start then []
    else
      var before, e := h[..|h| - 1], h[|h| - 1];
      Origins(before, start, packet, site) +
        if e.PacketRead? && e.packet == packet
        then seq(|Registered(before, e.site, site)|, i requires 0 <= i => |h| - 1)
        else []
  }

  /**
   * Each latency comes from its read, they are in the order of the reads and then of the registrations,
   * and so none is there twice.
   */
  ghost predicate InOrder(
    h: seq<Event>, start: nat, packet: int, site: string, ls: seq<Pending>, os: seq<nat>)
  {
    && |ls| == |os|
    && (forall a :: 0 <= a < |ls| ==> start <= os[a] && StartsLatency(h, os[a], packet, site, ls[a]))
    && (forall a, b :: 0 <= a < b < |ls| ==> os[a] < os[b] || (os[a] == os[b] && ls[a].id < ls[b].id))
  }

  /** What the last event adds to the latencies and to the reads they come from. */
  lemma LastLatencies(h: seq<Event>, start: nat, packet: int, site: string)
    requires |h| > start
    ensures
      var g, e := h[..|h| - 1], h[|h| - 1];
      var ls, os := Latencies(g, start, packet, site), Origins(g, start, packet, site);
      if e.PacketRead? && e.packet == packet then
        var ids := Registered(g, e.site, site);
        && Latencies(h, start, packet, site) == ls + Stamp(ids, e.time)
        && Origins(h, start, packet, site) == os + seq(|ids|, i requires 0 <= i => |h| - 1)
      else
        Latencies(h, start, packet, site) == ls && Origins(h, start, packet, site) == os
  {
    hide Registered, Stamp;
  }

  lemma {:induction false} LatenciesInOrder(h: seq<Event>, start: nat, packet: int, site: string)
    ensures InOrder(h, start, packet, site, Latencies(h, start, packet, site), Origins(h, start, packet, site))
  {
    hide StartsLatency, Registered, Stamp;
    if |h| > start {
      var n := |h| - 1;
      LastLatencies(h, start, packet, site);
      hide InOrder, Latencies, Origins;
      var ls, os := Latencies(h[..n], start, packet, site), Origins(h[..n], start, packet, site);
      LatenciesInOrder(h[..n], start, packet, site);
      OrderKept(h, start, packet, site, ls, os);
      if h[n].PacketRead? && h[n].packet == packet {
        OrderExtended(h, start, site, ls, os);
      }
    } else {
      assert InOrder(h, start, packet, site, [], []);
    }
  }

  /** The latencies of a longer history that come from before its last event. */
  lemma OrderKept(h: seq<Event>, start: nat, packet: int, site: string, ls: seq<Pending>, os: seq<nat>)
    requires h != [] && InOrder(h[..|h| - 1], start, packet, site, ls, os)
    ensures InOrder(h, start, packet, site, ls, os) && forall a :: 0 <= a < |os| ==> os[a] < |h| - 1
  {
    forall a | 0 <= a < |ls| ensures os[a] < |h| - 1 && StartsLatency(h, os[a], packet, site, ls[a]) {
      assert StartsLatency(h[..|h| - 1], os[a], packet, site, ls[a]);
      StartsKept(h, os[a], packet, site, ls[a]);
    }
  }

  /** The latencies that the last event, a read, starts. */
  lemma OrderExtended(h: seq<Event>, start: nat, site: string, ls: seq<Pending>, os: seq<nat>)
    requires |h| > start && h[|h| - 1].PacketRead?
    requires InOrder(h, start, h[|h| - 1].packet, site, ls, os) && forall a :: 0 <= a < |os| ==> os[a] < |h| - 1
    ensures
      var e, ids := h[|h| - 1], Registered(h[..|h| - 1], h[|h| - 1].site, site);
      InOrder(h, start, e.packet, site, ls + Stamp(ids, e.time), os + seq(|ids|, i requires 0 <= i => |h| - 1))
  {
    var n, e := |h| - 1, h[|h| - 1];
    var ids := Registered(h[..n], e.site, site);
    RegisteredIncreases(h[..n], e.site, site);
    hide Registered;
    var ms, ps := ls + Stamp(ids, e.time), os + seq(|ids|, i requires 0 <= i => n);
    forall a | 0 <= a < |ms| ensures start <= ps[a] && StartsLatency(h, ps[a], e.packet, site, ms[a]) {
      if a >= |ls| {
        assert ms[a] == Pending(ids[a - |ls|], e.time) && ps[a] == n;
      }
    }
  }

  /** And every read that starts a latency has it in the list, as its own. */
  lemma {:induction false} LatenciesComplete(h: seq<Event>, start: nat, i: nat, packet: int, site: string, l: Pending)
    returns (a: nat)
    requires start <= i && StartsLatency(h, i, packet, site, l)
    ensures a < |Latencies(h, start, packet, site)|
    ensures Latencies(h, start, packet, site)[a] == l && Origins(h, start, packet, site)[a] == i
  {
    hide Registered;
    var n := |h| - 1;
    var ls := Latencies(h[..n], start, packet, site);
    if i < n {
      StartsKept(h, i, packet, site, l);
      a := LatenciesComplete(h[..n], start, i, packet, site, l);
    } else {
      var ids := Registered(h[..n], h[n].site, site);
      var k :| 0 <= k < |ids| && ids[k] == l.id;
      a := |ls| + k;
      assert Stamp(ids, h[n].time)[k] == l;
    }
  }

  function LatencyUpdates(ps: seq<Pending>, time: real): (us: seq<TraceData>)
    ensures |us| == |ps| && forall k :: 0 <= k < |ps| ==> us[k] == TraceData(ps[k].id, Finite(time - ps[k].readTime))
  {
    seq(|ps|, k requires 0 <= k < |ps| => TraceData(ps[k].id, Finite(time - ps[k].readTime)))
  }

  /** What one event does to the pending latencies of a packet at a module. */
  lemma PendingStep(h: seq<Event>, e: Event, packet: int, site: string)
    ensures PendingAt(h + [e], packet, site) ==
      if e.PacketWritten? && e.packet == packet && e.site == site then []
      else if e.PacketRead? && e.packet == packet then
        PendingAt(h, packet, site) + Stamp(Registered(h, e.site, site), e.time)
      else PendingAt(h, packet, site)
  {
    assert (h + [e])[..|h|] == h;
  }

  /** Latencies created, by reads of the packet, for its writes at `site`. */
  function Created(h: seq<Event>, packet: int, site: string): nat {
    if h == [] then 0
    else
      var before, e := h[..|h| - 1], h[|h| - 1];
      Created(before, packet, site) +
        if e.PacketRead? && e.packet == packet then |Registered(before, e.site, site)| else 0
  }

  /** Latency updates emitted by writes of the packet at `site`. */
  function Emitted(h: seq<Event>, packet: int, site: string): nat {
    if h == [] then 0
    else
      var before, e := h[..|h| - 1], h[|h| - 1];
      Emitted(before, packet, site) +
        if e.PacketWritten? && e.packet == packet && e.site == site then |PendingAt(before, packet, site)| else 0
  }

  /** Every latency that a read creates is either still pending or was emitted, once. */
  lemma {:induction false} LatenciesConserved(h: seq<Event>, packet: int, site: string)
    ensures Emitted(h, packet, site) + |PendingAt(h, packet, site)| == Created(h, packet, site)
  {
    hide PendingAt, Registered;
    if h == [] {
      NothingPending(packet, site);
    } else {
      var before, e := h[..|h| - 1], h[|h| - 1];
      LatenciesConserved(before, packet, site);
      PendingStep(before, e, packet, site);
      assert before + [e] == h;
    }
  }

  lemma NothingPending(packet: int, site: string)
    ensures PendingAt([], packet, site) == []
  {
  }

  // ---- Throughput ----------------------------------------------------------------------------

  const NANOSECONDS: real := 1000000000.0

  function Rate(dt: real): TraceValue {
    if dt == 0.0 then Infinite else Finite(NANOSECONDS / dt)
  }

  /** The throughput trace of a module: the one added last. */
  function ThroughputId(h: seq<Event>, site: string): Option<nat> {
    if h == [] then None
    else if h[|h| - 1] == TraceThroughput(site) then Some(NextId(h[..|h| - 1]))
    else ThroughputId(h[..|h| - 1], site)
  }

  /** The times of the writes at `site` since that trace was added. */
  function WriteTimes(h: seq<Event>, site: string): seq<real> {
    if h == [] then []
    else
      var before, e := h[..|h| - 1], h[|h| - 1];
      if e == TraceThroughput(site) then []
      else if e.PacketWritten? && e.site == site then WriteTimes(before, site) + [e.time]
      else WriteTimes(before, site)
  }

  /** What a write at `site` reports to the throughput trace of that module. */
  function ThroughputUpdate(h: seq<Event>, site: string, time: real): seq<TraceData> {
    var ws := WriteTimes(h, site);
    if ThroughputId(h, site).Some? && ws != [] && ws[|ws| - 1] >= 0.0
    then [TraceData(ThroughputId(h, site).value, Rate(time - ws[|ws| - 1]))]
    else []
  }

  /** All that has been reported to the throughput trace of `site` since it was added. */
  function Reported(h: seq<Event>, site: string): seq<TraceData> {
    if h == [] then []
    else
      var before, e := h[..|h| - 1], h[|h| - 1];
      if e == TraceThroughput(site) then []
      else if e.PacketWritten? && e.site == site then Reported(before, site) + ThroughputUpdate(before, site, e.time)
      else Reported(before, site)
  }

  /** The sum of 10^9 / value over the updates of a throughput trace. */
  function Elapsed(us: seq<TraceData>): real {
    if us == [] then 0.0
    else
      Elapsed(us[..|us| - 1]) +
        match us[|us| - 1].value
        case Finite(v) => if v == 0.0 then 0.0 else 1000000000.0 / v
        case Infinite => 0.0
  }

  predicate Increasing(ts: seq<real>) {
    forall i, j :: 0 <= i < j < |ts| ==> ts[i] < ts[j]
  }

  /** One update for every pair of neighbouring writes. */
  function RateUpdates(id: nat, ws: seq<real>): (us: seq<TraceData>)
    ensures |us| == if ws == [] then 0 else |ws| - 1
    ensures forall k :: 0 <= k < |us| ==> us[k] == TraceData(id, Rate(ws[k + 1] - ws[k]))
  {
    if |ws| <= 1 then []
    else RateUpdates(id, ws[..|ws| - 1]) + [TraceData(id, Rate(ws[|ws| - 1] - ws[|ws| - 2]))]
  }

  predicate NonNegative(ts: seq<real>) {
    forall k :: 0 <= k < |ts| ==> ts[k] >= 0.0
  }

  lemma {:induction false} ReportedRates(h: seq<Event>, site: string)
    requires ThroughputId(h, site).Some? && NonNegative(WriteTimes(h, site))
    ensures Reported(h, site) == RateUpdates(ThroughputId(h, site).value, WriteTimes(h, site))
  {
    assert h != [];
    hide *;
    var before, e := h[..|h| - 1], h[|h| - 1];
    ReportedStep(h, site);
    if e == TraceThroughput(site) {
      NoRates(NextId(before));
    } else if e.PacketWritten? && e.site == site {
      NonNegativePrefix(WriteTimes(before, site), e.time);
      ReportedRates(before, site);
      RatesStep(before, site, e.time);
    } else {
      ReportedRates(before, site);
    }
  }

  lemma NonNegativePrefix(ts: seq<real>, t: real)
    requires NonNegative(ts + [t])
    ensures NonNegative(ts)
  {
    assert forall k :: 0 <= k < |ts| ==> ts[k] == (ts + [t])[k];
  }

  lemma ReportedStep(h: seq<Event>, site: string)
    requires h != []
    ensures
      var before, e := h[..|h| - 1], h[|h| - 1];
      if e == TraceThroughput(site) then
        Reported(h, site) == [] && WriteTimes(h, site) == [] && ThroughputId(h, site) == Some(NextId(before))
      else
        && ThroughputId(h, site) == ThroughputId(before, site)
        && if e.PacketWritten? && e.site == site then
             && WriteTimes(h, site) == WriteTimes(before, site) + [e.time]
             && Reported(h, site) == Reported(before, site) + ThroughputUpdate(before, site, e.time)
           else
             WriteTimes(h, site) == WriteTimes(before, site) && Reported(h, site) == Reported(before, site)
  {
    hide ThroughputUpdate;
  }

  lemma NoRates(id: nat)
    ensures RateUpdates(id, []) == []
  {
  }

  lemma RatesStep(h: seq<Event>, site: string, time: real)
    requires ThroughputId(h, site).Some? && NonNegative(WriteTimes(h, site))
    ensures
      var id, ws := ThroughputId(h, site).value, WriteTimes(h, site);
      RateUpdates(id, ws + [time]) == RateUpdates(id, ws) + ThroughputUpdate(h, site, time)
  {
    hide Rate, WriteTimes, ThroughputId;
    var ws := WriteTimes(h, site);
    assert (ws + [time])[..|ws|] == ws;
  }

  lemma {:induction false} RatesTelescope(id: nat, ws: seq<real>)
    requires Increasing(ws) && ws != []
    ensures Elapsed(RateUpdates(id, ws)) == ws[|ws| - 1] - ws[0]
  {
    var n := |ws| - 1;
    if n > 0 {
      hide Rate, Elapsed;
      RatesTelescope(id, ws[..n]);
      RateInverts(ws[n] - ws[n - 1]);
      ElapsedStep(RateUpdates(id, ws[..n]), TraceData(id, Rate(ws[n] - ws[n - 1])));
    }
  }

  /**
   * The updates telescope: one for every pair of neighbouring writes, and the times between writes
   * that they stand for add up to the time from the first write to the last.
   */
  lemma ThroughputTelescopes(h: seq<Event>, site: string)
    requires ThroughputId(h, site).Some? && WriteTimes(h, site) != []
    requires Increasing(WriteTimes(h, site)) && WriteTimes(h, site)[0] >= 0.0
    ensures
      var ws, us := WriteTimes(h, site), Reported(h, site);
      && |us| == |ws| - 1
      && (forall k :: 0 <= k < |us| ==> us[k] == TraceData(ThroughputId(h, site).value, Rate(ws[k + 1] - ws[k])))
      && Elapsed(us) == ws[|ws| - 1] - ws[0]
  {
    hide Rate, Elapsed, RateUpdates, WriteTimes;
    ReportedRates(h, site);
    RatesTelescope(ThroughputId(h, site).value, WriteTimes(h, site));
  }

  lemma ElapsedStep(us: seq<TraceData>, u: TraceData)
    ensures Elapsed(us + [u]) == Elapsed(us) +
      match u.value
      case Finite(v) => if v == 0.0 then 0.0 else NANOSECONDS / v
      case Infinite => 0.0
  {
    assert (us + [u])[..|us|] == us;
  }

  lemma RateInverts(dt: real)
    requires dt > 0.0
    ensures Rate(dt).Finite? && Rate(dt).value > 0.0 && NANOSECONDS / Rate(dt).value == dt
  {
  }

  // ---- Identifiers are distinct ---------------------------------------------------------------

  /** The trace that event `k` creates. */
  ghost predicate Creates(h: seq<Event>, k: nat, id: nat) {
    k < |h| && GivesId(h[..k], h[k]) && id == NextId(h[..k])
  }

  lemma {:induction false} IdsGrow(h: seq<Event>, j: nat, k: nat)
    requires j <= k <= |h|
    ensures NextId(h[..j]) <= NextId(h[..k])
  {
    if j < k {
      IdsGrow(h, j, k - 1);
      assert h[..k][..k - 1] == h[..k - 1];
    }
  }

  /** Different events create different traces. */
  lemma CreatesOnce(h: seq<Event>, j: nat, k: nat, id: nat)
    requires Creates(h, j, id) && Creates(h, k, id)
    ensures j == k
  {
    var a, b := if j < k then j else k, if j < k then k else j;
    if a < b {
      assert h[..a + 1][..a] == h[..a];
      IdsGrow(h, a + 1, b);
    }
  }

  lemma CreatesKept(h: seq<Event>, k: nat, id: nat)
    requires h != [] && Creates(h[..|h| - 1], k, id)
    ensures Creates(h, k, id)
  {
    assert h[..|h| - 1][..k] == h[..k];
  }

  datatype TraceKey = CounterKey(name: string) | LatencyKey(first: string, last: string) | ThroughputKey(site: string)

  function Creation(key: TraceKey): Event {
    match key
    case CounterKey(n) => TraceCounter(n)
    case LatencyKey(a, b) => TraceLatency(a, b)
    case ThroughputKey(m) => TraceThroughput(m)
  }

  /** `id` is the identifier of a trace of this kind. */
  predicate Identifies(h: seq<Event>, key: TraceKey, id: nat) {
    match key
    case CounterKey(n) => n in CounterTraces(h) && CounterTraces(h)[n] == id
    case LatencyKey(a, b) => id in Registered(h, a, b)
    case ThroughputKey(m) => ThroughputId(h, m) == Some(id)
  }

  lemma {:induction false} IdentifierCreated(h: seq<Event>, key: TraceKey, id: nat) returns (k: nat)
    requires Identifies(h, key, id)
    ensures Creates(h, k, id) && h[k] == Creation(key)
  {
    var before := h[..|h| - 1];
    if Identifies(before, key, id) {
      k := IdentifierCreated(before, key, id);
      CreatesKept(h, k, id);
    } else {
      k := |h| - 1;
    }
  }

  /** No identifier is shared by two traces, whether of the same kind or not. */
  lemma TracesDistinct(h: seq<Event>, key: TraceKey, other: TraceKey, id: nat)
    requires Identifies(h, key, id) && Identifies(h, other, id)
    ensures key == other && id < NextId(h)
  {
    var j := IdentifierCreated(h, key, id);
    var k := IdentifierCreated(h, other, id);
    CreatesOnce(h, j, k, id);
    IdsGrow(h, j + 1, |h|);
    assert h[..j + 1][..j] == h[..j] && h[..|h|] == h;
  }

  /** Nor by two latency traces between the same two modules. */
  lemma {:induction false} RegisteredIncreases(h: seq<Event>, first: string, last: string)
    ensures forall i, j :: 0 <= i < j < |Registered(h, first, last)| ==>
      Registered(h, first, last)[i] < Registered(h, first, last)[j]
  {
    if h != [] {
      var before := h[..|h| - 1];
      RegisteredIncreases(before, first, last);
      var ids := Registered(before, first, last);
      forall i | 0 <= i < |ids| ensures ids[i] < NextId(before) {
        TracesDistinct(before, LatencyKey(first, last), LatencyKey(first, last), ids[i]);
      }
    }
  }
}
