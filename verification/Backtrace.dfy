/** The trace of a packet: which modules read and wrote it, as matched brackets. */
module Backtrace {
  import opened Bytes

  /** One entry of the trace; -1.0 marks a time that is missing. */
  datatype Location = Location(site: string, readTime: real, writeTime: real)

  const MISSING: real := -1.0

  datatype Visit = Read(site: string, time: real) | Write(site: string, time: real)

  // ---- The trace as the code builds it -------------------------------------------------

  predicate Open(l: Location, site: string) {
    l.site == site && l.writeTime == MISSING
  }

  /** The last entry of `site` without a write time, or the number of entries. */
  function LastOpen(trace: seq<Location>, site: string): (e: nat)
    ensures e <= |trace|
    ensures e < |trace| ==> Open(trace[e], site) && forall k :: e < k < |trace| ==> !Open(trace[k], site)
    ensures e == |trace| ==> forall k :: 0 <= k < |trace| ==> !Open(trace[k], site)
  {
    if trace == [] then 0
    else if Open(trace[|trace| - 1], site) then |trace| - 1
    else
      var e := LastOpen(trace[..|trace| - 1], site);
      if e == |trace| - 1 then |trace| else e
  }

  function Extend(trace: seq<Location>, v: Visit): seq<Location> {
    match v
    case Read(m, t) => trace + [Location(m, t, MISSING)]
    case Write(m, t) =>
      var e := LastOpen(trace, m);
      if e < |trace| then trace[e := trace[e].(writeTime := t)] else trace + [Location(m, MISSING, t)]
  }

  function TraceOf(h: seq<Visit>): seq<Location> {
    if h == [] then [] else Extend(TraceOf(h[..|h| - 1]), h[|h| - 1])
  }

  /** `debugInfo` points to information about the packet that the model does not look into. */
  class DebuggerPacket {
    const packetId: int
    var currentLocation: string
    var lastNotifyTime: real
    var trace: seq<Location>
    var debugInfo: Option<int>

    constructor (id: int, location: string, time: real)
      ensures packetId == id && currentLocation == location && lastNotifyTime == time && trace == []
    {
      packetId, currentLocation, lastNotifyTime, trace := id, location, time, [];
      debugInfo := None;
    }

    method UpdateTraceReadTime(site: string, time: real)
      modifies `trace
      ensures trace == Extend(old(trace), Read(site, time))
    {
      trace := trace + [Location(site, time, MISSING)];
    }

    /** Searches the trace backwards for the entry to complete. */
    method UpdateTraceWriteTime(site: string, time: real)
      modifies `trace
      ensures trace == Extend(old(trace), Write(site, time))
    {
      var k := |trace|;
      while k > 0
        invariant 0 <= k <= |trace| && trace == old(trace)
        invariant forall j :: k <= j < |trace| ==> !Open(trace[j], site)
      {
        k := k - 1;
        if trace[k].site == site && trace[k].writeTime == MISSING {
          trace := trace[k := trace[k].(writeTime := time)];
          return;
        }
      }
      trace := trace + [Location(site, MISSING, time)];
    }
  }

  // ---- Bracket matching -------------------------------------------------------------------

  /** Reads minus writes at `site` after event `i` and before event `j`. */
  function Net(h: seq<Visit>, site: string, i: nat, j: nat): int
    requires i < j <= |h|
  {
    if j == i + 1 then 0
    else Net(h, site, i, j - 1) + if h[j - 1].site != site then 0 else if h[j - 1].Read? then 1 else -1
  }

  /** The read `i` and the write `j` of a module enclose a balanced history of that module. */
  ghost predicate Matches(h: seq<Visit>, i: nat, j: nat)
    requires j < |h|
  {
    && i < j && h[i].Read? && h[j].Write? && h[i].site == h[j].site
    && Net(h, h[j].site, i, j) == 0
    && forall k :: i < k <= j ==> Net(h, h[j].site, i, k) >= 0
  }

  /** The reads at `site` that no write has closed, in order. */
  function OpenReads(h: seq<Visit>, site: string): seq<nat> {
    if h == [] then []
    else
      var before, v := OpenReads(h[..|h| - 1], site), h[|h| - 1];
      if v.site != site then before
      else if v.Read? then before + [|h| - 1]
      else if before == [] then []
      else before[..|before| - 1]
  }

  /** The read that a write at the end of `h` closes. */
  function Partner(h: seq<Visit>, site: string): Option<nat> {
    var open := OpenReads(h, site);
    if open == [] then None else Some(open[|open| - 1])
  }

  ghost predicate StaysOpen(h: seq<Visit>, site: string, i: nat) {
    && i < |h| && h[i].Read? && h[i].site == site
    && forall k :: i < k <= |h| ==> Net(h, site, i, k) >= 0
  }

  lemma {:induction false} NetOfPrefix(h: seq<Visit>, n: nat, site: string, i: nat, j: nat)
    requires i < j <= n <= |h|
    ensures Net(h[..n], site, i, j) == Net(h, site, i, j)
  {
    if j > i + 1 {
      NetOfPrefix(h, n, site, i, j - 1);
    }
  }

  /** The stack holds exactly the reads that stay open, and counts what is above each of them. */
  ghost predicate StackIs(h: seq<Visit>, site: string, open: seq<nat>) {
    && (forall i :: StaysOpen(h, site, i) <==> i in open)
    && (forall q :: 0 <= q < |open| ==> open[q] < |h| && Net(h, site, open[q], |h|) == |open| - 1 - q)
    && (forall q, r :: 0 <= q < r < |open| ==> open[q] < open[r])
  }

  lemma StaysOpenStep(h: seq<Visit>, site: string, i: nat)
    requires h != [] && i < |h| - 1
    ensures StaysOpen(h, site, i) <==> StaysOpen(h[..|h| - 1], site, i) && Net(h, site, i, |h|) >= 0
  {
    var g := h[..|h| - 1];
    forall k | i < k < |h| ensures Net(g, site, i, k) >= 0 <==> Net(h, site, i, k) >= 0 {
      NetOfPrefix(h, |h| - 1, site, i, k);
    }
    if StaysOpen(g, site, i) && Net(h, site, i, |h|) >= 0 {
      forall k | i < k <= |h| ensures Net(h, site, i, k) >= 0 {
        if k < |h| {
          assert Net(g, site, i, k) >= 0;
        }
      }
    }
    if StaysOpen(h, site, i) {
      forall k | i < k <= |g| ensures Net(g, site, i, k) >= 0 {
        assert Net(h, site, i, k) >= 0;
      }
    }
  }

  lemma {:induction false} OpenReadsStay(h: seq<Visit>, site: string)
    ensures StackIs(h, site, OpenReads(h, site))
  {
    hide StackIs;
    if h != [] {
      OpenReadsStay(h[..|h| - 1], site);
      StackStep(h, site, OpenReads(h[..|h| - 1], site));
    } else {
      EmptyStack(site);
    }
  }

  lemma EmptyStack(site: string)
    ensures StackIs([], site, [])
  {
  }

  lemma StackStep(h: seq<Visit>, site: string, before: seq<nat>)
    requires h != [] && StackIs(h[..|h| - 1], site, before) && before == OpenReads(h[..|h| - 1], site)
    ensures StackIs(h, site, OpenReads(h, site))
  {
    var n, open := |h| - 1, OpenReads(h, site);
    forall i | 0 <= i < n
      ensures StaysOpen(h, site, i) <==> i in before && Net(h, site, i, |h|) >= 0
      ensures Net(h, site, i, n) == Net(h[..n], site, i, n)
    {
      StaysOpenStep(h, site, i);
      NetOfPrefix(h, n, site, i, n);
    }
    assert StaysOpen(h, site, n) <==> h[n].Read? && h[n].site == site;
    hide StaysOpen;
    if h[n].site == site && h[n].Write? && before != [] {
      Popped(h, site, before, open);
    }
  }

  lemma Popped(h: seq<Visit>, site: string, before: seq<nat>, open: seq<nat>)
    requires h != [] && before != [] && open == before[..|before| - 1]
    requires h[|h| - 1].site == site && h[|h| - 1].Write?
    requires forall q :: 0 <= q < |before| ==>
      before[q] < |h| - 1 && Net(h, site, before[q], |h| - 1) == |before| - 1 - q
    requires forall q, r :: 0 <= q < r < |before| ==> before[q] < before[r]
    ensures forall i :: i in open <==> i in before && Net(h, site, i, |h|) >= 0
    ensures forall q :: 0 <= q < |open| ==> Net(h, site, open[q], |h|) == |open| - 1 - q
  {
    var top := before[|before| - 1];
    assert forall i :: i in before <==> i in open || i == top;
  }

  /** A write closes a read exactly when the two match as brackets. */
  lemma PartnerIsMatch(h: seq<Visit>, i: nat, j: nat)
    requires j < |h| && h[j].Write?
    ensures Partner(h[..j], h[j].site) == Some(i) <==> Matches(h, i, j)
  {
    var site, open := h[j].site, OpenReads(h[..j], h[j].site);
    OpenReadsStay(h[..j], site);
    if i < j {
      forall k | i < k <= j ensures Net(h[..j], site, i, k) == Net(h, site, i, k) {
        NetOfPrefix(h, j, site, i, k);
      }
      assert StaysOpen(h[..j], site, i) <==> i in open;
      if i in open {
        var q :| 0 <= q < |open| && open[q] == i;
      }
    }
  }

  // ---- What the entries of the trace say ------------------------------------------------------

  /** The events that have an entry of their own: reads, and writes that close nothing. */
  function Creators(h: seq<Visit>): (cs: seq<nat>)
    ensures forall e :: 0 <= e < |cs| ==> cs[e] < |h|
    ensures forall e, f :: 0 <= e < f < |cs| ==> cs[e] < cs[f]
  {
    if h == [] then []
    else
      var before, v := Creators(h[..|h| - 1]), h[|h| - 1];
      if v.Read? || Partner(h[..|h| - 1], v.site).None? then before + [|h| - 1] else before
  }

  /** The write that closes the read `c`. */
  function Closer(h: seq<Visit>, c: nat): (j: Option<nat>)
    ensures j.Some? ==> j.value < |h| && h[j.value].Write?
  {
    if h == [] then None
    else
      var v := h[|h| - 1];
      if v.Write? && Partner(h[..|h| - 1], v.site) == Some(c) then Some(|h| - 1) else Closer(h[..|h| - 1], c)
  }

  /** The entry of event `c`: a read with the time of the write that closes it, or a lone write. */
  function EntryOf(h: seq<Visit>, c: nat): Location
    requires c < |h|
  {
    var v := h[c];
    if v.Write? then Location(v.site, MISSING, v.time)
    else Location(v.site, v.time, if Closer(h, c).Some? then h[Closer(h, c).value].time else MISSING)
  }

  predicate TimesPresent(h: seq<Visit>) {
    forall k :: 0 <= k < |h| ==> h[k].time >= 0.0
  }

  /** Entries in the order of their creators, each as `EntryOf` says; open entries are open reads. */
  ghost predicate Describes(h: seq<Visit>, trace: seq<Location>) {
    && |trace| == |Creators(h)|
    && (forall e :: 0 <= e < |trace| ==> trace[e] == EntryOf(h, Creators(h)[e]))
    && (forall e, site :: 0 <= e < |trace| ==> (Open(trace[e], site) <==> Creators(h)[e] in OpenReads(h, site)))
    && (forall site, i :: i in OpenReads(h, site) ==> i in Creators(h))
  }

  lemma OpenStep(h: seq<Visit>, site: string, i: nat)
    requires h != []
    ensures
      var n, v := |h| - 1, h[|h| - 1];
      i in OpenReads(h, site) <==>
        || (i == n && v == Read(site, v.time))
        || (i in OpenReads(h[..n], site) && !(v == Write(site, v.time) && Partner(h[..n], site) == Some(i)))
  {
    OpenReadsStay(h[..|h| - 1], site);
    hide StaysOpen;
  }

  /** A read is open exactly while no write has closed it. */
  lemma {:induction false} OpenOrClosed(h: seq<Visit>, c: nat)
    requires c < |h| && h[c].Read?
    ensures c in OpenReads(h, h[c].site) <==> Closer(h, c) == None
  {
    var n, v := |h| - 1, h[|h| - 1];
    OpenStep(h, h[c].site, c);
    OpenReadsAreReads(h[..n], v.site);
    if c < n {
      OpenOrClosed(h[..n], c);
    } else {
      NotClosedYet(h[..n], c);
    }
    hide OpenReads;
  }

  lemma {:induction false} NotClosedYet(h: seq<Visit>, c: nat)
    requires c >= |h|
    ensures Closer(h, c) == None
  {
    if h != [] {
      OpenReadsAreReads(h[..|h| - 1], h[|h| - 1].site);
      NotClosedYet(h[..|h| - 1], c);
    }
  }

  lemma OpenReadsAreReads(h: seq<Visit>, site: string)
    ensures forall i :: i in OpenReads(h, site) ==> i < |h| && h[i] == Read(site, h[i].time)
    ensures Partner(h, site).Some? ==> Partner(h, site).value in OpenReads(h, site)
    ensures forall i :: i in OpenReads(h, site) ==> i <= Partner(h, site).value
  {
    OpenReadsStay(h, site);
    assert forall i :: i in OpenReads(h, site) ==> StaysOpen(h, site, i);
  }

  /** An event leaves the entries of all other events alone. */
  lemma EntryKept(h: seq<Visit>, c: nat)
    requires h != [] && c < |h| - 1
    requires h[|h| - 1].Read? || Partner(h[..|h| - 1], h[|h| - 1].site) != Some(c)
    ensures EntryOf(h, c) == EntryOf(h[..|h| - 1], c)
  {
    hide OpenReads;
  }

  lemma CreatorsStep(h: seq<Visit>)
    requires h != []
    ensures
      var n, v := |h| - 1, h[|h| - 1];
      Creators(h) == if v.Read? || Partner(h[..n], v.site).None? then Creators(h[..n]) + [n] else Creators(h[..n])
  {
    hide OpenReads, Partner;
  }

  /** The entry of the last event, before anything can have closed it. */
  lemma LastEntry(h: seq<Visit>)
    requires h != []
    ensures
      var v := h[|h| - 1];
      EntryOf(h, |h| - 1) == if v.Read? then Location(v.site, v.time, MISSING) else Location(v.site, MISSING, v.time)
  {
    hide OpenReads;
    NotClosedYet(h[..|h| - 1], |h| - 1);
  }

  /** The reads that are open after an event that closes none. */
  lemma OpenReadsAdded(h: seq<Visit>, g: seq<Visit>, n: nat, v: Visit)
    requires h == g + [v] && n == |g| && (v.Read? || Partner(g, v.site).None?)
    ensures forall site :: n !in OpenReads(g, site)
    ensures forall i, site :: i in OpenReads(h, site) <==>
      i in OpenReads(g, site) || (i == n && v == Read(site, v.time))
  {
    hide OpenReads;
    assert h[..n] == g;
    forall site | true ensures n !in OpenReads(g, site) {
      OpenReadsAreReads(g, site);
    }
    if v.Write? {
      NoneOpen(g, v.site);
    }
    forall i, site | true
      ensures i in OpenReads(h, site) <==> i in OpenReads(g, site) || (i == n && v == Read(site, v.time))
    {
      OpenStep(h, site, i);
    }
  }

  /** The reads that are open after a write that closes the read `i`. */
  lemma OpenReadsClosed(h: seq<Visit>, g: seq<Visit>, v: Visit, i: nat)
    requires h == g + [v] && v.Write? && Partner(g, v.site) == Some(i)
    ensures forall k, site :: k in OpenReads(h, site) <==> k in OpenReads(g, site) && k != i
  {
    hide OpenReads, Partner;
    assert h[..|g|] == g;
    OpenReadsAreReads(g, v.site);
    forall k, site | true ensures k in OpenReads(h, site) <==> k in OpenReads(g, site) && k != i {
      OpenStep(h, site, k);
      OpenReadsAreReads(g, site);
    }
  }

  lemma ExtendAdds(h: seq<Visit>, trace: seq<Location>)
    requires h != [] && Describes(h[..|h| - 1], trace)
    requires h[|h| - 1].Read? || Partner(h[..|h| - 1], h[|h| - 1].site).None?
    ensures Extend(trace, h[|h| - 1]) == trace + [EntryOf(h, |h| - 1)]
  {
    LastEntry(h);
    hide OpenReads, Creators, EntryOf;
    if h[|h| - 1].Write? {
      NoneOpen(h[..|h| - 1], h[|h| - 1].site);
    }
  }

  /** An event that gets an entry of its own. */
  lemma EntryAdded(h: seq<Visit>, trace: seq<Location>)
    requires h != [] && TimesPresent(h) && Describes(h[..|h| - 1], trace)
    requires h[|h| - 1].Read? || Partner(h[..|h| - 1], h[|h| - 1].site).None?
    ensures Describes(h, trace + [EntryOf(h, |h| - 1)])
  {
    hide OpenReads, Partner, Creators, Closer;
    var n := |h| - 1;
    CreatorsStep(h);
    LastEntry(h);
    OpenReadsAdded(h, h[..n], n, h[n]);
    forall c | 0 <= c < n ensures EntryOf(h, c) == EntryOf(h[..n], c) {
      EntryKept(h, c);
    }
    hide EntryOf;
  }

  lemma NoneOpen(h: seq<Visit>, site: string)
    requires Partner(h, site).None?
    ensures OpenReads(h, site) == []
  {
  }

  /** The backward search finds the entry of the innermost open read. */
  lemma FoundEntry(h: seq<Visit>, trace: seq<Location>, site: string, i: nat)
    requires Describes(h, trace) && Partner(h, site) == Some(i)
    ensures LastOpen(trace, site) < |trace| && Creators(h)[LastOpen(trace, site)] == i
  {
    hide OpenReads, Partner, Creators, Closer;
    OpenReadsAreReads(h, site);
    assert i in Creators(h);
    var e :| 0 <= e < |trace| && Creators(h)[e] == i;
    assert Open(trace[e], site);
    assert LastOpen(trace, site) == e;
  }

  /** A write that completes an entry. */
  lemma EntryCompleted(h: seq<Visit>, trace: seq<Location>, i: nat)
    requires h != [] && TimesPresent(h) && Describes(h[..|h| - 1], trace)
    requires h[|h| - 1].Write? && Partner(h[..|h| - 1], h[|h| - 1].site) == Some(i)
    ensures Describes(h, Extend(trace, h[|h| - 1]))
  {
    hide OpenReads, Partner, Creators, Closer;
    var n, v := |h| - 1, h[|h| - 1];
    var cs := Creators(h[..n]);
    CreatorsStep(h);
    var e := LastOpen(trace, v.site);
    FoundEntry(h[..n], trace, v.site, i);
    CompletedEntry(h, i);
    OpenReadsClosed(h, h[..n], v, i);
    forall f | 0 <= f < |cs| && f != e ensures EntryOf(h, cs[f]) == trace[f] {
      EntryKept(h, cs[f]);
    }
    hide EntryOf;
  }

  /** What the write does to the entry of the read that it closes. */
  lemma CompletedEntry(h: seq<Visit>, i: nat)
    requires h != [] && h[|h| - 1].Write? && Partner(h[..|h| - 1], h[|h| - 1].site) == Some(i)
    ensures i < |h| - 1 && h[i].Read? && h[i].site == h[|h| - 1].site
    ensures EntryOf(h, i) == EntryOf(h[..|h| - 1], i).(writeTime := h[|h| - 1].time)
  {
    hide OpenReads, Partner, Closer;
    OpenReadsAreReads(h[..|h| - 1], h[|h| - 1].site);
    CloserOf(h, i);
  }

  lemma CloserOf(h: seq<Visit>, i: nat)
    requires h != [] && h[|h| - 1].Write? && Partner(h[..|h| - 1], h[|h| - 1].site) == Some(i)
    ensures Closer(h, i) == Some(|h| - 1)
  {
    hide Partner;
  }

  /**
   * The trace is the bracket matching of the packet's history: one entry for every read, with the
   * time of the write that closes it, and one for every write that closes nothing.
   */
  lemma {:induction false} TraceIsMatching(h: seq<Visit>)
    requires TimesPresent(h)
    ensures Describes(h, TraceOf(h)) && MISSING == -1.0
  {
    hide Describes, Extend, OpenReads, Partner;
    if h == [] {
      EmptyTrace();
    } else {
      var n := |h| - 1;
      TraceIsMatching(h[..n]);
      var p := Partner(h[..n], h[n].site);
      if h[n].Read? || p.None? {
        EntryAdded(h, TraceOf(h[..n]));
        ExtendAdds(h, TraceOf(h[..n]));
      } else {
        EntryCompleted(h, TraceOf(h[..n]), p.value);
      }
    }
  }

  lemma EmptyTrace()
    ensures Describes([], [])
  {
  }

  lemma MatchesOfPrefix(h: seq<Visit>, n: nat, i: nat, j: nat)
    requires j < n <= |h|
    ensures Matches(h[..n], i, j) <==> Matches(h, i, j)
  {
    if i < j {
      forall k | i < k <= j
        ensures Net(h[..n], h[j].site, i, k) == Net(h, h[j].site, i, k)
      {
        NetOfPrefix(h, n, h[j].site, i, k);
      }
      if Matches(h[..n], i, j) {
        forall k | i < k <= j ensures Net(h, h[j].site, i, k) >= 0 {
          assert Net(h[..n], h[j].site, i, k) >= 0;
        }
      }
    }
  }

  /** `EntryOf` pairs a read with the write that matches it, and there is at most one. */
  lemma {:induction false} CloserIsMatch(h: seq<Visit>, i: nat, j: nat)
    requires j < |h|
    ensures Closer(h, i) == Some(j) <==> Matches(h, i, j)
  {
    hide Matches, Partner;
    var n := |h| - 1;
    if h[n].Write? {
      PartnerIsMatch(h, i, n);
    } else {
      NotWrite(h, i, n);
    }
    if j < n {
      CloserIsMatch(h[..n], i, j);
      MatchesOfPrefix(h, n, i, j);
      if Matches(h, i, n) && Matches(h, i, j) {
        OpenReadsAreReads(h[..n], h[n].site);
        OpenOrClosed(h[..n], i);
      }
    }
  }

  lemma NotWrite(h: seq<Visit>, i: nat, j: nat)
    requires j < |h| && h[j].Read?
    ensures !Matches(h, i, j)
  {
  }

  /** Reads have an entry, and so do exactly the writes that match no read. */
  lemma {:induction false} CreatorMeaning(h: seq<Visit>, c: nat)
    requires c < |h|
    ensures c in Creators(h) <==> h[c].Read? || forall i :: !Matches(h, i, c)
  {
    hide Matches, OpenReads, Partner, Creators;
    var n := |h| - 1;
    CreatorsStep(h);
    if c < n {
      CreatorMeaning(h[..n], c);
      forall i: nat | true ensures Matches(h[..n], i, c) <==> Matches(h, i, c) {
        MatchesOfPrefix(h, n, i, c);
      }
    } else if h[n].Write? {
      forall i: nat | true ensures Partner(h[..n], h[n].site) == Some(i) <==> Matches(h, i, n) {
        PartnerIsMatch(h, i, n);
      }
    }
  }

  // ---- Conservation ---------------------------------------------------------------------------

  function ReadEntries(trace: seq<Location>): nat {
    if trace == [] then 0
    else ReadEntries(trace[..|trace| - 1]) + if trace[|trace| - 1].readTime != MISSING then 1 else 0
  }

  function WrittenEntries(trace: seq<Location>): nat {
    if trace == [] then 0
    else WrittenEntries(trace[..|trace| - 1]) + if trace[|trace| - 1].writeTime != MISSING then 1 else 0
  }

  function ReadCount(h: seq<Visit>): nat {
    if h == [] then 0 else ReadCount(h[..|h| - 1]) + if h[|h| - 1].Read? then 1 else 0
  }

  lemma {:induction false} Completing(trace: seq<Location>, e: nat, t: real)
    requires e < |trace| && trace[e].writeTime == MISSING != t
    ensures
      var done := trace[e := trace[e].(writeTime := t)];
      ReadEntries(done) == ReadEntries(trace) && WrittenEntries(done) == WrittenEntries(trace) + 1
    decreases |trace|
  {
    var n := |trace| - 1;
    var done := trace[e := trace[e].(writeTime := t)];
    if e < n {
      Completing(trace[..n], e, t);
      assert done[..n] == trace[..n][e := trace[e].(writeTime := t)];
    } else {
      assert done[..n] == trace[..n];
    }
  }

  /** No read and no write is lost: each puts exactly one time into the trace. */
  lemma {:induction false} TimesConserved(h: seq<Visit>)
    requires TimesPresent(h)
    ensures ReadEntries(TraceOf(h)) == ReadCount(h)
    ensures WrittenEntries(TraceOf(h)) == |h| - ReadCount(h)
  {
    if h != [] {
      var n := |h| - 1;
      var trace := TraceOf(h[..n]);
      TimesConserved(h[..n]);
      if h[n].Write? && LastOpen(trace, h[n].site) < |trace| {
        Completing(trace, LastOpen(trace, h[n].site), h[n].time);
      } else {
        var longer := Extend(trace, h[n]);
        assert longer[..|longer| - 1] == trace;
      }
    }
  }

  predicate NonDecreasing(h: seq<Visit>) {
    forall i, j :: 0 <= i < j < |h| ==> h[i].time <= h[j].time
  }

  /** When time does not run backwards, a completed entry was read before it was written. */
  lemma ReadBeforeWritten(h: seq<Visit>, e: nat)
    requires TimesPresent(h) && NonDecreasing(h) && e < |TraceOf(h)|
    ensures
      var l := TraceOf(h)[e];
      l.readTime != MISSING && l.writeTime != MISSING ==> l.readTime <= l.writeTime
  {
    hide TraceOf, Creators, Closer, Net;
    TraceIsMatching(h);
    var c := Creators(h)[e];
    if Closer(h, c).Some? {
      CloserIsMatch(h, c, Closer(h, c).value);
    }
  }
}
