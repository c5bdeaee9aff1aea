/** The functions of the history that traces are made of, in terms of single events. */
module TraceMeaning {
  import opened Bytes
  import opened Traces
  import opened Backtrace
  import opened DataManager

  // ---- Identifiers -------------------------------------------------------------------------

  /** Event `k` is `e`, and no event after it is `undo`. */
  predicate StandsAt(h: seq<Event>, k: nat, e: Event, undo: Event) {
    k < |h| && h[k] == e && forall j :: k < j < |h| ==> h[j] != undo
  }

  lemma StandsStep(g: seq<Event>, last: Event, e: Event, undo: Event)
    ensures (exists k: nat :: StandsAt(g + [last], k, e, undo)) <==>
      last == e || (last != undo && exists k: nat :: StandsAt(g, k, e, undo))
  {
    var h := g + [last];
    if k: nat :| StandsAt(h, k, e, undo) {
      if k < |g| {
        assert forall j :: 0 <= j < |g| ==> g[j] == h[j];
        assert h[|g|] == last && StandsAt(g, k, e, undo);
      }
    }
    if last == e {
      assert StandsAt(h, |g|, e, undo);
    } else if last != undo {
      if k: nat :| StandsAt(g, k, e, undo) {
        assert StandsAt(h, k, e, undo);
      }
    }
  }

  /** A counter is there when it was added and not removed since. */
  lemma {:induction false} CounterMeaning(h: seq<Event>, name: string)
    ensures name in CounterNames(h) <==> exists k: nat :: StandsAt(h, k, AddCounter(name), RemoveCounter(name))
  {
    if h != [] {
      CounterMeaning(h[..|h| - 1], name);
      StandsStep(h[..|h| - 1], h[|h| - 1], AddCounter(name), RemoveCounter(name));
      assert h[..|h| - 1] + [h[|h| - 1]] == h;
    }
  }

  /** A request to trace a counter that was there when it came. */
  ghost predicate CounterTracedAt(h: seq<Event>, k: nat, name: string) {
    k < |h| && h[k] == TraceCounter(name) && name in CounterNames(h[..k])
  }

  /** A counter stays traced from the first such request on, under the identifier it got then. */
  lemma {:induction false} CounterTraceMeaning(h: seq<Event>, name: string)
    ensures name in CounterTraces(h) <==> exists k: nat :: CounterTracedAt(h, k, name)
    ensures forall k: nat ::
      CounterTracedAt(h, k, name) && (forall j: nat :: CounterTracedAt(h, j, name) ==> k <= j) ==>
        name in CounterTraces(h) && CounterTraces(h)[name] == NextId(h[..k])
  {
    hide CounterNames, NextId;
    if h != [] {
      var n := |h| - 1;
      var g := h[..n];
      CounterTraceMeaning(g, name);
      forall k: nat | k < n ensures CounterTracedAt(h, k, name) <==> CounterTracedAt(g, k, name) {
        assert g[..k] == h[..k] && g[k] == h[k];
      }
      forall k: nat | k < n ensures g[..k] == h[..k] {}
      assert CounterTracedAt(h, n, name) <==> h[n] == TraceCounter(name) && name in CounterNames(g);
    }
  }

  /** The identifiers of the latency traces between two modules. */
  lemma {:induction false} RegisteredMeaning(h: seq<Event>, first: string, last: string, id: nat)
    ensures id in Registered(h, first, last) <==>
      exists k: nat :: k < |h| && h[k] == TraceLatency(first, last) && id == NextId(h[..k])
  {
    hide NextId;
    if h != [] {
      var n := |h| - 1;
      var g := h[..n];
      RegisteredMeaning(g, first, last, id);
      forall k: nat | k < n ensures g[..k] == h[..k] && g[k] == h[k] {}
      assert h[..n] == g;
      if k: nat :| k < n && h[k] == TraceLatency(first, last) && id == NextId(h[..k]) {
        assert k < |g| && g[k] == TraceLatency(first, last) && id == NextId(g[..k]);
      }
    }
  }

  /** The throughput trace of a module is the one added last, under the identifier it got then. */
  lemma {:induction false} ThroughputMeaning(h: seq<Event>, site: string)
    ensures ThroughputId(h, site).None? <==> forall k :: 0 <= k < |h| ==> h[k] != TraceThroughput(site)
    ensures ThroughputId(h, site).Some? ==>
      exists k: nat ::
        && StandsAt(h, k, TraceThroughput(site), TraceThroughput(site))
        && ThroughputId(h, site) == Some(NextId(h[..k]))
  {
    hide NextId;
    if h != [] {
      var n, e := |h| - 1, TraceThroughput(site);
      var g := h[..n];
      ThroughputMeaning(g, site);
      if h[n] == e {
        assert StandsAt(h, n, e, e);
      } else if ThroughputId(g, site).Some? {
        var k: nat :| StandsAt(g, k, e, e) && ThroughputId(g, site) == Some(NextId(g[..k]));
        assert g[..k] == h[..k];
        assert StandsAt(h, k, e, e);
      } else {
        assert forall k :: 0 <= k < n ==> g[k] == h[k];
      }
    }
  }

  // ---- Events picked from the history --------------------------------------------------------

  datatype Filter = WritesAt(site: string) | VisitsBy(packet: int)

  predicate Wanted(f: Filter, e: Event) {
    match f
    case WritesAt(m) => e.PacketWritten? && e.site == m
    case VisitsBy(p) => (e.PacketRead? || e.PacketWritten?) && e.packet == p
  }

  /** `from` is the place behind the last `reset`, or the beginning. */
  predicate StartsAfter(h: seq<Event>, from: nat, reset: Event) {
    from <= |h| && (from > 0 ==> h[from - 1] == reset) && forall k :: from <= k < |h| ==> h[k] != reset
  }

  /** The positions, in order, of all events from `from` on that are wanted. */
  ghost predicate Picks(h: seq<Event>, from: nat, f: Filter, os: seq<nat>) {
    && (forall a :: 0 <= a < |os| ==> from <= os[a] < |h| && Wanted(f, h[os[a]]))
    && (forall a, b :: 0 <= a < b < |os| ==> os[a] < os[b])
    && (forall k: nat :: from <= k < |h| && Wanted(f, h[k]) ==> k in os)
  }

  lemma PicksStep(g: seq<Event>, e: Event, from: nat, f: Filter, os: seq<nat>)
    requires from <= |g| && Picks(g, from, f, os)
    ensures Picks(g + [e], from, f, if Wanted(f, e) then os + [|g|] else os)
  {
    hide Wanted;
    var h := g + [e];
    var ps := if Wanted(f, e) then os + [|g|] else os;
    forall k: nat | from <= k < |h| && Wanted(f, h[k]) ensures k in ps {
      if k < |g| {
        assert k in os;
      } else {
        assert ps[|os|] == k;
      }
    }
  }

  lemma StartsStep(g: seq<Event>, e: Event, from: nat, reset: Event)
    requires StartsAfter(g, from, reset)
    ensures e != reset ==> StartsAfter(g + [e], from, reset)
    ensures e == reset ==> StartsAfter(g + [e], |g| + 1, reset)
  {
  }

  /** `ts` are the times of the events picked. */
  ghost predicate TimesOf(h: seq<Event>, os: seq<nat>, ts: seq<real>) {
    |ts| == |os| && forall a :: 0 <= a < |os| ==> os[a] < |h| && h[os[a]].PacketWritten? && ts[a] == h[os[a]].time
  }

  lemma TimesStep(g: seq<Event>, e: Event, os: seq<nat>, ts: seq<real>)
    requires TimesOf(g, os, ts)
    ensures TimesOf(g + [e], os, ts)
    ensures e.PacketWritten? ==> TimesOf(g + [e], os + [|g|], ts + [e.time])
  {
  }

  /** The write times of a module are those of all its writes since the throughput trace was added. */
  lemma {:induction false} WriteTimesMeaning(h: seq<Event>, site: string) returns (from: nat, os: seq<nat>)
    ensures StartsAfter(h, from, TraceThroughput(site)) && Picks(h, from, WritesAt(site), os)
    ensures TimesOf(h, os, WriteTimes(h, site))
  {
    from, os := 0, [];
    if h != [] {
      hide WriteTimes, Picks, TimesOf, StartsAfter;
      var g, e := h[..|h| - 1], h[|h| - 1];
      assert g + [e] == h;
      var before, picked := WriteTimesMeaning(g, site);
      ReportedStep(h, site);
      StartsStep(g, e, before, TraceThroughput(site));
      if e == TraceThroughput(site) {
        from := |h|;
        NothingPicked(h, WritesAt(site));
      } else {
        from, os := before, if Wanted(WritesAt(site), e) then picked + [|g|] else picked;
        Bounded(g, before, TraceThroughput(site));
        PicksStep(g, e, before, WritesAt(site), picked);
        TimesStep(g, e, picked, WriteTimes(g, site));
      }
    }
  }

  lemma NothingPicked(h: seq<Event>, f: Filter)
    ensures Picks(h, |h|, f, []) && TimesOf(h, [], []) && VisitsAre(h, [], [])
  {
  }

  lemma Bounded(h: seq<Event>, from: nat, reset: Event)
    requires StartsAfter(h, from, reset)
    ensures from <= |h|
  {
  }

  /** `vs` are the visits that the events picked stand for. */
  ghost predicate VisitsAre(h: seq<Event>, os: seq<nat>, vs: seq<Visit>) {
    && |vs| == |os|
    && forall a :: 0 <= a < |os| ==> os[a] < |h| && VisitIs(h[os[a]], vs[a])
  }

  predicate VisitIs(e: Event, v: Visit) {
    || (e.PacketRead? && v == Read(e.site, e.time))
    || (e.PacketWritten? && v == Write(e.site, e.time))
  }

  lemma VisitsAreStep(g: seq<Event>, e: Event, os: seq<nat>, vs: seq<Visit>, v: Visit)
    requires VisitsAre(g, os, vs)
    ensures VisitsAre(g + [e], os, vs)
    ensures VisitIs(e, v) ==> VisitsAre(g + [e], os + [|g|], vs + [v])
  {
    hide VisitIs;
  }

  /** The visits of a packet are all its reads and writes since it was removed last. */
  lemma {:induction false} VisitsMeaning(h: seq<Event>, packet: int) returns (from: nat, os: seq<nat>)
    ensures StartsAfter(h, from, RemovePacket(packet)) && Picks(h, from, VisitsBy(packet), os)
    ensures VisitsAre(h, os, VisitsOf(h, packet))
  {
    from, os := 0, [];
    if h != [] {
      hide VisitsOf, Picks, VisitsAre, StartsAfter;
      var g, e := h[..|h| - 1], h[|h| - 1];
      assert g + [e] == h;
      var before, picked := VisitsMeaning(g, packet);
      VisitsStep(g, e, packet);
      StartsStep(g, e, before, RemovePacket(packet));
      if e == RemovePacket(packet) {
        from := |h|;
        NothingPicked(h, VisitsBy(packet));
      } else {
        from, os := before, if Wanted(VisitsBy(packet), e) then picked + [|g|] else picked;
        Bounded(g, before, RemovePacket(packet));
        PicksStep(g, e, before, VisitsBy(packet), picked);
        VisitsAreStep(g, e, picked, VisitsOf(g, packet), if e.PacketRead? then Read(e.site, e.time)
                                                         else if e.PacketWritten? then Write(e.site, e.time)
                                                         else Read("", 0.0));
      }
    }
  }

  /** A packet is where it was read last, or where it was written first if it was never read. */
  lemma {:induction false} LastSeenMeaning(vs: seq<Visit>, k: nat)
    requires k < |vs| && (k > 0 ==> vs[k].Read?) && forall j :: k < j < |vs| ==> vs[j].Write?
    ensures LastSeen(vs) == (vs[k].site, vs[k].time)
  {
    if k < |vs| - 1 {
      LastSeenMeaning(vs[..|vs| - 1], k);
    }
  }

  // ---- Values ------------------------------------------------------------------------------

  /** A latency that is reported is the time of the write minus the time of the read it comes from. */
  lemma LatencyValue(h: seq<Event>, packet: int, site: string, time: real, a: nat) returns (i: nat)
    requires a < |LatencyUpdates(PendingAt(h, packet, site), time)|
    ensures SinceWrite(h, packet, site) <= i < |h| && h[i].PacketRead? && h[i].packet == packet
    ensures
      var update := LatencyUpdates(PendingAt(h, packet, site), time)[a];
      update.value.Finite? && h[i].time + update.value.value == time && update.id in Registered(h[..i], h[i].site, site)
  {
    var start := SinceWrite(h, packet, site);
    LatenciesInOrder(h, start, packet, site);
    hide Latencies, Origins, Registered;
    i := Origins(h, start, packet, site)[a];
    assert StartsLatency(h, i, packet, site, Latencies(h, start, packet, site)[a]);
  }

  /** Writes in a second of 10^9 time units, at one write in `dt` units; infinite when they are simultaneous. */
  predicate RateIs(v: TraceValue, dt: real) {
    match v
    case Infinite => dt == 0.0
    case Finite(r) => r * dt == 1000000000.0
  }

  lemma RateMeaning(v: TraceValue, dt: real)
    ensures RateIs(v, dt) <==> v == Rate(dt)
  {
    if v.Finite? && dt != 0.0 {
      assert v.value * dt / dt == v.value;
    }
  }

  /** Every two neighbouring writes are reported, in order, with the rate that their distance makes. */
  lemma ThroughputRates(h: seq<Event>, site: string)
    requires ThroughputId(h, site).Some? && NonNegative(WriteTimes(h, site))
    ensures
      var id, ws, us := ThroughputId(h, site).value, WriteTimes(h, site), Reported(h, site);
      && |us| == (if ws == [] then 0 else |ws| - 1)
      && forall k :: 0 <= k < |us| ==> us[k].id == id && RateIs(us[k].value, ws[k + 1] - ws[k])
  {
    hide Rate, RateIs, WriteTimes, RateUpdates, Reported;
    ReportedRates(h, site);
    var id, ws, us := ThroughputId(h, site).value, WriteTimes(h, site), Reported(h, site);
    forall k | 0 <= k < |us| ensures us[k].id == id && RateIs(us[k].value, ws[k + 1] - ws[k]) {
      RateMeaning(us[k].value, ws[k + 1] - ws[k]);
    }
  }
}
