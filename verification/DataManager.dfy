/** The indexes that the data manager keeps, and why they agree with the history. */
module DataManager {
  import opened Bytes
  import opened Traces
  import opened Backtrace

  datatype ReadTrigger = ReadTrigger(id: nat, last: string)
  datatype ThroughputTrigger = ThroughputTrigger(id: nat, lastTime: real)

  // ---- The indexes ---------------------------------------------------------------------------

  function Lookup<T>(m: map<string, seq<T>>, key: string): seq<T> {
    if key in m then m[key] else []
  }

  function Waiting(m: map<string, map<int, seq<Pending>>>, site: string, packet: int): seq<Pending> {
    if site in m && packet in m[site] then m[site][packet] else []
  }

  /** `m[site][packet].push_back(p)`. */
  function Push(m: map<string, map<int, seq<Pending>>>, site: string, packet: int, p: Pending)
    : map<string, map<int, seq<Pending>>>
  {
    var inner := if site in m then m[site] else map[];
    m[site := inner[packet := Waiting(m, site, packet) + [p]]]
  }

  /** The triggers that end at `last`. */
  function Ending(ts: seq<ReadTrigger>, last: string): seq<nat> {
    if ts == [] then []
    else Ending(ts[..|ts| - 1], last) + if ts[|ts| - 1].last == last then [ts[|ts| - 1].id] else []
  }

  /** All latency traces that start at `first`. */
  function Starting(h: seq<Event>, first: string): seq<ReadTrigger> {
    if h == [] then []
    else
      var before, e := h[..|h| - 1], h[|h| - 1];
      if e.TraceLatency? && e.first == first then Starting(before, first) + [ReadTrigger(NextId(before), e.last)]
      else Starting(before, first)
  }

  lemma {:induction false} EndingOfStarting(h: seq<Event>, first: string, last: string)
    ensures Ending(Starting(h, first), last) == Registered(h, first, last)
  {
    if h != [] {
      var before, e := h[..|h| - 1], h[|h| - 1];
      EndingOfStarting(before, first, last);
      if e.TraceLatency? && e.first == first {
        EndingStep(Starting(before, first), ReadTrigger(NextId(before), e.last), last);
      }
    }
  }

  lemma EndingStep(ts: seq<ReadTrigger>, t: ReadTrigger, last: string)
    ensures Ending(ts + [t], last) == if t.last == last then Ending(ts, last) + [t.id] else Ending(ts, last)
  {
    assert (ts + [t])[..|ts|] == ts;
  }

  // ---- How each index follows the history --------------------------------------------------------

  ghost predicate CountersIndexed(
    counters: map<string, int>, traceId: nat, counterTraces: map<string, nat>, h: seq<Event>)
  {
    counters.Keys == CounterNames(h) && traceId == NextId(h) && counterTraces == CounterTraces(h)
  }

  lemma CountersStep(h: seq<Event>, e: Event)
    ensures CounterNames(h + [e]) ==
      if e.AddCounter? then CounterNames(h) + {e.name}
      else if e.RemoveCounter? then CounterNames(h) - {e.name}
      else CounterNames(h)
    ensures CounterTraces(h + [e]) ==
      if e.TraceCounter? && GivesId(h, e) then CounterTraces(h)[e.name := NextId(h)] else CounterTraces(h)
    ensures NextId(h + [e]) == NextId(h) + if GivesId(h, e) then 1 else 0
  {
    assert (h + [e])[..|h|] == h;
  }

  ghost predicate LatencyIndexed(
    starts: map<string, seq<ReadTrigger>>, writes: map<string, map<int, seq<Pending>>>, h: seq<Event>)
  {
    && (forall m :: Lookup(starts, m) == Starting(h, m))
    && (forall m, p :: Waiting(writes, m, p) == PendingAt(h, p, m))
  }

  lemma StartingStep(h: seq<Event>, e: Event, m: string)
    ensures Starting(h + [e], m) ==
      if e.TraceLatency? && e.first == m then Starting(h, m) + [ReadTrigger(NextId(h), e.last)] else Starting(h, m)
  {
    assert (h + [e])[..|h|] == h;
  }

  /** Reads and writes of packets change pending latencies only, and other events none. */
  lemma LatencyKept(
    starts: map<string, seq<ReadTrigger>>, writes: map<string, map<int, seq<Pending>>>, h: seq<Event>, e: Event)
    requires LatencyIndexed(starts, writes, h)
    ensures !e.TraceLatency? ==> forall m :: Lookup(starts, m) == Starting(h + [e], m)
    ensures !e.PacketRead? && !e.PacketWritten? ==> forall m, p :: Waiting(writes, m, p) == PendingAt(h + [e], p, m)
  {
    hide Starting, PendingAt;
    forall m | true ensures !e.TraceLatency? ==> Starting(h + [e], m) == Starting(h, m) {
      StartingStep(h, e, m);
    }
    forall m, p | true ensures !e.PacketRead? && !e.PacketWritten? ==> PendingAt(h + [e], p, m) == PendingAt(h, p, m) {
      PendingStep(h, e, p, m);
    }
  }

  lemma LatencyIndexKept(
    starts: map<string, seq<ReadTrigger>>, writes: map<string, map<int, seq<Pending>>>, h: seq<Event>, e: Event)
    requires LatencyIndexed(starts, writes, h) && !e.TraceLatency? && !e.PacketRead? && !e.PacketWritten?
    ensures LatencyIndexed(starts, writes, h + [e])
  {
    hide Starting, PendingAt;
    LatencyKept(starts, writes, h, e);
  }

  /** A read of packet `id` has pushed the triggers `ts`, each to the module where it ends. */
  ghost predicate Started(
    before: map<string, map<int, seq<Pending>>>, now: map<string, map<int, seq<Pending>>>,
    id: int, ts: seq<ReadTrigger>, time: real)
  {
    forall m, p :: Waiting(now, m, p) ==
      if p == id then Waiting(before, m, p) + Stamp(Ending(ts, m), time) else Waiting(before, m, p)
  }

  lemma StartedNone(before: map<string, map<int, seq<Pending>>>, id: int, time: real)
    ensures Started(before, before, id, [], time)
  {
  }

  lemma StartedStep(
    before: map<string, map<int, seq<Pending>>>, now: map<string, map<int, seq<Pending>>>,
    id: int, ts: seq<ReadTrigger>, t: ReadTrigger, time: real)
    requires Started(before, now, id, ts, time)
    ensures Started(before, Push(now, t.last, id, Pending(t.id, time)), id, ts + [t], time)
  {
    hide Ending, Push, Waiting, Stamp;
    var after := Push(now, t.last, id, Pending(t.id, time));
    forall m, p | true ensures Waiting(after, m, p) ==
      if p == id then Waiting(before, m, p) + Stamp(Ending(ts + [t], m), time) else Waiting(before, m, p)
    {
      PushWaiting(now, t.last, id, Pending(t.id, time), m, p);
      EndingStep(ts, t, m);
      StampStep(Ending(ts, m), t.id, time);
      assert Waiting(before, m, p) + (Stamp(Ending(ts, m), time) + [Pending(t.id, time)])
          == Waiting(before, m, p) + Stamp(Ending(ts, m), time) + [Pending(t.id, time)];
    }
  }

  lemma PushWaiting(now: map<string, map<int, seq<Pending>>>, site: string, packet: int, l: Pending, m: string, p: int)
    ensures Waiting(Push(now, site, packet, l), m, p)
         == if m == site && p == packet then Waiting(now, m, p) + [l] else Waiting(now, m, p)
  {
  }

  lemma StampStep(ids: seq<nat>, id: nat, time: real)
    ensures Stamp(ids + [id], time) == Stamp(ids, time) + [Pending(id, time)]
  {
  }

  lemma StartedIndexed(
    starts: map<string, seq<ReadTrigger>>, before: map<string, map<int, seq<Pending>>>,
    now: map<string, map<int, seq<Pending>>>, h: seq<Event>, id: int, site: string, time: real)
    requires LatencyIndexed(starts, before, h)
    requires Started(before, now, id, Lookup(starts, site), time)
    ensures LatencyIndexed(starts, now, h + [PacketRead(id, site, time)])
  {
    hide Starting, PendingAt, Ending, Registered, Waiting;
    LatencyKept(starts, before, h, PacketRead(id, site, time));
    forall m, p | true ensures Waiting(now, m, p) == PendingAt(h + [PacketRead(id, site, time)], p, m) {
      PendingStep(h, PacketRead(id, site, time), p, m);
      EndingOfStarting(h, site, m);
    }
  }

  lemma FinishedIndexed(
    starts: map<string, seq<ReadTrigger>>, before: map<string, map<int, seq<Pending>>>,
    now: map<string, map<int, seq<Pending>>>, h: seq<Event>, id: int, site: string, time: real)
    requires LatencyIndexed(starts, before, h)
    requires forall m, p :: Waiting(now, m, p) == if m == site && p == id then [] else Waiting(before, m, p)
    ensures LatencyIndexed(starts, now, h + [PacketWritten(id, site, time)])
  {
    hide Starting, PendingAt, Waiting;
    LatencyKept(starts, before, h, PacketWritten(id, site, time));
    forall m, p | true ensures Waiting(now, m, p) == PendingAt(h + [PacketWritten(id, site, time)], p, m) {
      PendingStep(h, PacketWritten(id, site, time), p, m);
    }
  }

  ghost predicate ThroughputIndexed(triggers: map<string, ThroughputTrigger>, h: seq<Event>) {
    forall m :: ThroughputOf(h, m) == if m in triggers then Some(triggers[m]) else None
  }

  ghost function ThroughputOf(h: seq<Event>, m: string): Option<ThroughputTrigger> {
    var id, ws := ThroughputId(h, m), WriteTimes(h, m);
    if id.None? then None else Some(ThroughputTrigger(id.value, if ws == [] then -1.0 else ws[|ws| - 1]))
  }

  lemma ThroughputStep(h: seq<Event>, e: Event, m: string)
    ensures ThroughputOf(h + [e], m) ==
      if e == TraceThroughput(m) then Some(ThroughputTrigger(NextId(h), -1.0))
      else if e.PacketWritten? && e.site == m && ThroughputOf(h, m).Some? then
        Some(ThroughputOf(h, m).value.(lastTime := e.time))
      else ThroughputOf(h, m)
  {
    assert (h + [e])[..|h|] == h;
  }

  lemma ThroughputKept(triggers: map<string, ThroughputTrigger>, h: seq<Event>, e: Event)
    requires ThroughputIndexed(triggers, h) && !e.TraceThroughput? && !e.PacketWritten?
    ensures ThroughputIndexed(triggers, h + [e])
  {
    hide ThroughputOf;
    forall m | true ensures ThroughputOf(h + [e], m) == ThroughputOf(h, m) {
      ThroughputStep(h, e, m);
    }
  }

  // ---- Packets ---------------------------------------------------------------------------------

  /** The visits of a packet since it was last removed. */
  function VisitsOf(h: seq<Event>, packet: int): seq<Visit> {
    if h == [] then []
    else
      var before, e := h[..|h| - 1], h[|h| - 1];
      match e
      case PacketRead(p, m, t) => VisitsOf(before, packet) + if p == packet then [Read(m, t)] else []
      case PacketWritten(p, m, t) => VisitsOf(before, packet) + if p == packet then [Write(m, t)] else []
      case RemovePacket(p) => if p == packet then [] else VisitsOf(before, packet)
      case _ => VisitsOf(before, packet)
  }

  /** Module and time of the last read, or of the first visit when the packet was only written. */
  function LastSeen(vs: seq<Visit>): (string, real)
    requires vs != []
  {
    var v := vs[|vs| - 1];
    if v.Read? || |vs| == 1 then (v.site, v.time) else LastSeen(vs[..|vs| - 1])
  }

  lemma VisitsStep(h: seq<Event>, e: Event, packet: int)
    ensures VisitsOf(h + [e], packet) ==
      if e == RemovePacket(packet) then []
      else if e.PacketRead? && e.packet == packet then VisitsOf(h, packet) + [Read(e.site, e.time)]
      else if e.PacketWritten? && e.packet == packet then VisitsOf(h, packet) + [Write(e.site, e.time)]
      else VisitsOf(h, packet)
  {
    assert (h + [e])[..|h|] == h;
  }

  lemma TraceStep(vs: seq<Visit>, v: Visit)
    ensures TraceOf(vs + [v]) == Extend(TraceOf(vs), v)
    ensures LastSeen(vs + [v]) == if v.Read? || vs == [] then (v.site, v.time) else LastSeen(vs)
  {
    assert (vs + [v])[..|vs|] == vs;
  }

  class DebugDataManager {
    var counters: map<string, int>
    var traceId: nat
    var counterTraces: map<string, nat>
    var latencyReadTriggers: map<string, seq<ReadTrigger>>
    var latencyWriteTriggers: map<string, map<int, seq<Pending>>>
    var throughputTriggers: map<string, ThroughputTrigger>
    var packetList: map<int, DebuggerPacket>
    ghost var history: seq<Event>

    /** Every index is the function of the history that it stands for. */
    ghost predicate Valid()
      reads this, packetList.Values
    {
      && CountersIndexed(counters, traceId, counterTraces, history)
      && LatencyIndexed(latencyReadTriggers, latencyWriteTriggers, history)
      && ThroughputIndexed(throughputTriggers, history)
      && PacketsIndexed(history)
    }

    ghost predicate PacketsIndexed(h: seq<Event>)
      reads this`packetList, packetList.Values
    {
      && (forall p :: p in packetList <==> VisitsOf(h, p) != [])
      && (forall p, q :: p in packetList && q in packetList && p != q ==> packetList[p] != packetList[q])
      && (forall p :: p in packetList ==> Tracks(packetList[p], p, VisitsOf(h, p)))
    }

    static ghost predicate Tracks(packet: DebuggerPacket, id: int, vs: seq<Visit>)
      reads packet
    {
      && packet.packetId == id && packet.trace == TraceOf(vs)
      && vs != [] && (packet.currentLocation, packet.lastNotifyTime) == LastSeen(vs)
    }

    constructor ()
      ensures Valid() && history == []
    {
      counters, traceId, counterTraces := map[], 0, map[];
      latencyReadTriggers, latencyWriteTriggers, throughputTriggers := map[], map[], map[];
      packetList, history := map[], [];
    }

    /** Appends to the history an event that no packet and no trigger depends on. */
    ghost method Record(e: Event)
      requires LatencyIndexed(latencyReadTriggers, latencyWriteTriggers, history)
      requires ThroughputIndexed(throughputTriggers, history) && PacketsIndexed(history)
      requires e.AddCounter? || e.RemoveCounter? || e.TraceCounter?
      modifies `history
      ensures history == old(history) + [e]
      ensures LatencyIndexed(latencyReadTriggers, latencyWriteTriggers, history)
      ensures ThroughputIndexed(throughputTriggers, history) && PacketsIndexed(history)
    {
      hide LatencyIndexed, ThroughputIndexed, VisitsOf, LastSeen, TraceOf;
      LatencyIndexKept(latencyReadTriggers, latencyWriteTriggers, history, e);
      ThroughputKept(throughputTriggers, history, e);
      forall p | true ensures VisitsOf(history + [e], p) == VisitsOf(history, p) {
        VisitsStep(history, e, p);
      }
      history := history + [e];
    }

    method AddCounter(name: string)
      requires Valid()
      modifies this
      ensures Valid() && history == old(history) + [Event.AddCounter(name)]
      ensures counters == if name in old(counters) then old(counters) else old(counters)[name := 0]
    {
      hide LatencyIndexed, ThroughputIndexed, CounterNames, CounterTraces, NextId;
      CountersStep(history, Event.AddCounter(name));
      if name !in counters {
        counters := counters[name := 0];
      }
      Record(Event.AddCounter(name));
    }

    method RemoveCounter(name: string)
      requires Valid()
      modifies this
      ensures Valid() && history == old(history) + [Event.RemoveCounter(name)]
      ensures counters == old(counters) - {name}
    {
      hide LatencyIndexed, ThroughputIndexed, CounterNames, CounterTraces, NextId;
      CountersStep(history, Event.RemoveCounter(name));
      counters := counters - {name};
      Record(Event.RemoveCounter(name));
    }

    /** The new trace, -1 when there is no such counter and -2 when it is traced already. */
    method AddCounterTrace(name: string) returns (id: int)
      requires Valid()
      modifies this
      ensures Valid() && history == old(history) + [TraceCounter(name)]
      ensures id == if GivesId(old(history), TraceCounter(name)) then NextId(old(history))
                    else if name !in CounterNames(old(history)) then -1 else -2
    {
      hide LatencyIndexed, ThroughputIndexed, CounterNames, CounterTraces, NextId;
      CountersStep(history, TraceCounter(name));
      if name !in counters {
        id := -1;
      } else if name in counterTraces {
        id := -2;
      } else {
        id := traceId;
        traceId := traceId + 1;
        counterTraces := counterTraces[name := id];
      }
      Record(TraceCounter(name));
    }

    method AddLatencyTrace(first: string, last: string) returns (id: nat)
      requires Valid()
      modifies this
      ensures Valid() && history == old(history) + [TraceLatency(first, last)]
      ensures id == NextId(old(history))
    {
      hide ThroughputIndexed, CounterNames, CounterTraces, NextId, VisitsOf, LastSeen, TraceOf, PendingAt, Starting;
      var e := TraceLatency(first, last);
      CountersStep(history, e);
      LatencyKept(latencyReadTriggers, latencyWriteTriggers, history, e);
      ThroughputKept(throughputTriggers, history, e);
      id := traceId;
      traceId := traceId + 1;
      latencyReadTriggers := latencyReadTriggers[first := Lookup(latencyReadTriggers, first) + [ReadTrigger(id, last)]];
      forall m | true ensures Lookup(latencyReadTriggers, m) == Starting(history + [e], m) {
        StartingStep(history, e, m);
      }
      forall p | true ensures VisitsOf(history + [e], p) == VisitsOf(history, p) {
        VisitsStep(history, e, p);
      }
      history := history + [e];
    }

    /** A second trace of the same module takes the place of the first. */
    method AddThroughputTrace(site: string) returns (id: nat)
      requires Valid()
      modifies this
      ensures Valid() && history == old(history) + [TraceThroughput(site)]
      ensures id == NextId(old(history))
    {
      hide LatencyIndexed, CounterNames, CounterTraces, NextId, VisitsOf, LastSeen, TraceOf, ThroughputOf;
      var e := TraceThroughput(site);
      CountersStep(history, e);
      LatencyIndexKept(latencyReadTriggers, latencyWriteTriggers, history, e);
      id := traceId;
      traceId := traceId + 1;
      throughputTriggers := throughputTriggers[site := ThroughputTrigger(id, -1.0)];
      forall m | true
        ensures ThroughputOf(history + [e], m)
             == if m in throughputTriggers then Some(throughputTriggers[m]) else None
      {
        ThroughputStep(history, e, m);
      }
      forall p | true ensures VisitsOf(history + [e], p) == VisitsOf(history, p) {
        VisitsStep(history, e, p);
      }
      history := history + [e];
    }

    /** The packet is forgotten, but not the latencies that its reads have started. */
    method RemovePacket(id: int)
      requires Valid()
      modifies this
      ensures Valid() && history == old(history) + [Event.RemovePacket(id)]
      ensures packetList == old(packetList) - {id}
    {
      hide LatencyIndexed, ThroughputIndexed, CounterNames, CounterTraces, NextId, VisitsOf, LastSeen, TraceOf;
      var e := Event.RemovePacket(id);
      CountersStep(history, e);
      LatencyIndexKept(latencyReadTriggers, latencyWriteTriggers, history, e);
      ThroughputKept(throughputTriggers, history, e);
      packetList := packetList - {id};
      forall p | true ensures VisitsOf(history + [e], p) == if p == id then [] else VisitsOf(history, p) {
        VisitsStep(history, e, p);
      }
      history := history + [e];
    }

    /** A packet is read or written at a module; the updates of the traces that this completes. */
    method UpdatePacket(id: int, info: int, site: string, time: real, read: bool) returns (updates: seq<TraceData>)
      requires Valid()
      modifies this, packetList.Values
      ensures Valid()
      ensures history == old(history) + [if read then PacketRead(id, site, time) else PacketWritten(id, site, time)]
      ensures updates ==
        if read then []
        else LatencyUpdates(PendingAt(old(history), id, site), time) + ThroughputUpdate(old(history), site, time)
      ensures forall p :: p in packetList ==>
        if p in old(packetList) then packetList[p] == old(packetList)[p] else fresh(packetList[p])
      ensures id in packetList && packetList[id].debugInfo == Some(info)
      ensures forall p :: p in old(packetList) && p != id ==>
        p in packetList && packetList[p].debugInfo == old(packetList[p].debugInfo)
    {
      hide LatencyIndexed, ThroughputIndexed, CounterNames, CounterTraces, NextId;
      hide PendingAt, ThroughputUpdate, PacketsIndexed;
      ghost var e := if read then PacketRead(id, site, time) else PacketWritten(id, site, time);
      CountersStep(history, e);
      UpdatePacketList(id, info, site, time, read);
      if read {
        StartLatencies(id, site, time);
        ThroughputKept(throughputTriggers, history, e);
        updates := [];
      } else {
        var latencies := FinishLatencies(id, site, time);
        var throughput := UpdateThroughput(id, site, time);
        updates := latencies + throughput;
      }
      history := history + [e];
    }

    method UpdatePacketList(id: int, info: int, site: string, time: real, read: bool)
      requires PacketsIndexed(history)
      modifies `packetList, packetList.Values
      ensures PacketsIndexed(history + [if read then PacketRead(id, site, time) else PacketWritten(id, site, time)])
      ensures forall p :: p in packetList ==>
        if p in old(packetList) then packetList[p] == old(packetList)[p] else fresh(packetList[p])
      ensures id in packetList && packetList[id].debugInfo == Some(info)
      ensures forall p :: p in old(packetList) && p != id ==>
        p in packetList && packetList[p].debugInfo == old(packetList[p].debugInfo)
    {
      hide VisitsOf, Tracks;
      VisitPacket(id, info, site, time, read);
      VisitIndexed(if read then PacketRead(id, site, time) else PacketWritten(id, site, time),
                   if read then Read(site, time) else Write(site, time));
    }

    /** Creates the packet if there is none, and updates its place and its trace. */
    method VisitPacket(id: int, info: int, site: string, time: real, read: bool)
      requires PacketsIndexed(history)
      modifies `packetList, packetList.Values
      ensures packetList.Keys == old(packetList).Keys + {id}
      ensures forall p :: p in packetList ==>
        if p in old(packetList) then packetList[p] == old(packetList)[p] else fresh(packetList[p])
      ensures id in packetList && packetList[id].debugInfo == Some(info)
      ensures forall p :: p in old(packetList) && p != id ==>
        p in packetList && packetList[p].debugInfo == old(packetList[p].debugInfo)
      ensures forall p, q :: p in packetList && q in packetList && p != q ==> packetList[p] != packetList[q]
      ensures forall p :: p in packetList && p != id ==> Tracks(packetList[p], p, VisitsOf(history, p))
      ensures Tracks(packetList[id], id, VisitsOf(history, id) + [if read then Read(site, time) else Write(site, time)])
    {
      hide VisitsOf, LastSeen, TraceOf, Extend;
      ghost var vs := VisitsOf(history, id);
      TraceStep(vs, if read then Read(site, time) else Write(site, time));
      NoTrace();
      if id !in packetList {
        var packet := new DebuggerPacket(id, site, time);
        packetList := packetList[id := packet];
      }
      var packet := packetList[id];
      packet.debugInfo := Some(info);
      if read {
        packet.lastNotifyTime := time;
        packet.currentLocation := site;
        packet.UpdateTraceReadTime(site, time);
      } else {
        packet.UpdateTraceWriteTime(site, time);
      }
    }

    /** What `VisitPacket` promises is the packet index after the event. */
    lemma VisitIndexed(e: Event, v: Visit)
      requires (e.PacketRead? && v == Read(e.site, e.time)) || (e.PacketWritten? && v == Write(e.site, e.time))
      requires e.packet in packetList && forall p :: p in packetList && p != e.packet ==> VisitsOf(history, p) != []
      requires forall p :: VisitsOf(history, p) != [] ==> p in packetList
      requires forall p, q :: p in packetList && q in packetList && p != q ==> packetList[p] != packetList[q]
      requires forall p :: p in packetList && p != e.packet ==> Tracks(packetList[p], p, VisitsOf(history, p))
      requires Tracks(packetList[e.packet], e.packet, VisitsOf(history, e.packet) + [v])
      ensures PacketsIndexed(history + [e])
    {
      hide VisitsOf, Tracks;
      forall p | true
        ensures VisitsOf(history + [e], p) == if p == e.packet then VisitsOf(history, p) + [v] else VisitsOf(history, p)
      {
        VisitsStep(history, e, p);
      }
    }

    /** A read starts every latency trace that begins at its module. */
    method StartLatencies(id: int, site: string, time: real)
      requires LatencyIndexed(latencyReadTriggers, latencyWriteTriggers, history)
      modifies `latencyWriteTriggers
      ensures LatencyIndexed(latencyReadTriggers, latencyWriteTriggers, history + [PacketRead(id, site, time)])
    {
      hide LatencyIndexed, Started, Push;
      if site !in latencyReadTriggers {
        StartedNone(latencyWriteTriggers, id, time);
        StartedIndexed(latencyReadTriggers, latencyWriteTriggers, latencyWriteTriggers, history, id, site, time);
        return;
      }
      var triggers := latencyReadTriggers[site];
      var k := 0;
      StartedNone(latencyWriteTriggers, id, time);
      while k < |triggers|
        invariant 0 <= k <= |triggers|
        invariant Started(old(latencyWriteTriggers), latencyWriteTriggers, id, triggers[..k], time)
      {
        var t := triggers[k];
        StartedStep(old(latencyWriteTriggers), latencyWriteTriggers, id, triggers[..k], t, time);
        latencyWriteTriggers := Push(latencyWriteTriggers, t.last, id, Pending(t.id, time));
        assert triggers[..k + 1] == triggers[..k] + [t];
        k := k + 1;
      }
      assert triggers[..k] == triggers;
      StartedIndexed(latencyReadTriggers, old(latencyWriteTriggers), latencyWriteTriggers, history, id, site, time);
    }

    /** A write completes all latencies that wait for it. */
    method FinishLatencies(id: int, site: string, time: real) returns (updates: seq<TraceData>)
      requires LatencyIndexed(latencyReadTriggers, latencyWriteTriggers, history)
      modifies `latencyWriteTriggers
      ensures LatencyIndexed(latencyReadTriggers, latencyWriteTriggers, history + [PacketWritten(id, site, time)])
      ensures updates == LatencyUpdates(PendingAt(history, id, site), time)
    {
      hide Starting, PendingAt;
      updates := [];
      if site in latencyWriteTriggers {
        var inner := latencyWriteTriggers[site];
        if id in inner {
          var triggers := inner[id];
          var k := 0;
          while k < |triggers|
            invariant 0 <= k <= |triggers|
            invariant updates == LatencyUpdates(triggers[..k], time)
          {
            updates := updates + [TraceData(triggers[k].id, Finite(time - triggers[k].readTime))];
            k := k + 1;
          }
          assert triggers[..k] == triggers;
          latencyWriteTriggers := latencyWriteTriggers[site := inner - {id}];
        }
      }
      FinishedIndexed(latencyReadTriggers, old(latencyWriteTriggers), latencyWriteTriggers, history, id, site, time);
    }

    /** A write reports the rate since the previous one. */
    method UpdateThroughput(id: int, site: string, time: real) returns (updates: seq<TraceData>)
      requires ThroughputIndexed(throughputTriggers, history)
      modifies `throughputTriggers
      ensures ThroughputIndexed(throughputTriggers, history + [PacketWritten(id, site, time)])
      ensures updates == ThroughputUpdate(history, site, time)
    {
      hide ThroughputId, WriteTimes, Rate;
      updates := [];
      if site in throughputTriggers {
        assert ThroughputOf(history, site) == Some(throughputTriggers[site]);
        var lastTime := throughputTriggers[site].lastTime;
        if lastTime >= 0.0 {
          updates := [TraceData(throughputTriggers[site].id, Rate(time - lastTime))];
        }
        throughputTriggers := throughputTriggers[site := throughputTriggers[site].(lastTime := time)];
      } else {
        assert ThroughputOf(history, site) == None;
      }
      hide ThroughputOf;
      forall m | true
        ensures ThroughputOf(history + [PacketWritten(id, site, time)], m)
             == if m in throughputTriggers then Some(throughputTriggers[m]) else None
      {
        ThroughputStep(history, PacketWritten(id, site, time), m);
      }
    }
  }

  lemma NoTrace()
    ensures TraceOf([]) == []
  {
  }
}
