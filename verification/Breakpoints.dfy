/** Breakpoints: sets of conditions, the list that keeps them free of redundancy, and the stop decision. */
module Breakpoints {
  import opened Bytes

  datatype Condition = OnModuleRead | OnModuleWrite | AtTime | OnPacketId

  /** The order in which a map with these keys is walked. */
  const CONDITIONS: seq<Condition> := [OnModuleRead, OnModuleWrite, AtTime, OnPacketId]

  function Position(c: Condition): (k: nat)
    ensures k < |CONDITIONS| && CONDITIONS[k] == c
  {
    match c
    case OnModuleRead => 0
    case OnModuleWrite => 1
    case AtTime => 2
    case OnPacketId => 3
  }

  type Conditions = map<Condition, string>

  /** `id` is -1 for a stealth breakpoint. */
  datatype Breakpoint = Breakpoint(id: int, conditions: Conditions, temp: bool, disabled: bool)

  /** A packet is read or written at a module. */
  datatype Event = Event(site: string, packet: int, time: real, read: bool)

  /** `std::to_string` and `stof`. */
  datatype Conversions = Conversions(ofInt: int -> string, toTime: string -> real)

  // ---- What a breakpoint means -----------------------------------------------------------------

  predicate Holds(c: Condition, value: string, ev: Event, text: Conversions) {
    match c
    case OnModuleRead => ev.read && value == ev.site
    case OnModuleWrite => !ev.read && value == ev.site
    case OnPacketId => value == text.ofInt(ev.packet)
    case AtTime => text.toTime(value) <= ev.time
  }

  predicate Matches(cs: Conditions, ev: Event, text: Conversions) {
    forall c | c in cs :: Holds(c, cs[c], ev, text)
  }

  predicate Contained(a: Conditions, b: Conditions) {
    forall c | c in a :: c in b && a[c] == b[c]
  }

  /** Fewer conditions match more events. */
  lemma ContainedMatchesMore(a: Conditions, b: Conditions, ev: Event, text: Conversions)
    requires Contained(a, b) && Matches(b, ev, text)
    ensures Matches(a, ev, text)
  {
    forall c | c in a ensures Holds(c, a[c], ev, text) {
      assert Holds(c, b[c], ev, text);
    }
  }

  /** Some breakpoint of the list matches. */
  ghost predicate Listed(list: seq<Breakpoint>, ev: Event, text: Conversions) {
    exists i :: 0 <= i < |list| && Matches(list[i].conditions, ev, text)
  }

  /** No breakpoint is made redundant by an earlier one. */
  ghost predicate Irredundant(list: seq<Breakpoint>) {
    forall i, j :: 0 <= i < j < |list| ==> !Contained(list[i].conditions, list[j].conditions)
  }

  /** The list after `addBreakpoint`. */
  function Added(list: seq<Breakpoint>, br: Breakpoint): seq<Breakpoint> {
    if exists i :: 0 <= i < |list| && Contained(list[i].conditions, br.conditions) then list else list + [br]
  }

  /**
   * Adding a breakpoint adds its events to those that are matched and no others, also when it is
   * not entered into the list; and the list stays free of redundancy.
   */
  lemma AddedMeaning(list: seq<Breakpoint>, br: Breakpoint, ev: Event, text: Conversions)
    ensures Listed(Added(list, br), ev, text) <==> Listed(list, ev, text) || Matches(br.conditions, ev, text)
    ensures Irredundant(list) ==> Irredundant(Added(list, br))
  {
    if i :| 0 <= i < |list| && Contained(list[i].conditions, br.conditions) {
      if Matches(br.conditions, ev, text) {
        ContainedMatchesMore(list[i].conditions, br.conditions, ev, text);
      }
    } else {
      var longer := list + [br];
      assert longer[|list|] == br;
      if Listed(list, ev, text) {
        var i :| 0 <= i < |list| && Matches(list[i].conditions, ev, text);
        assert longer[i] == list[i];
      }
    }
  }

  /** The position of the first breakpoint with this identifier, or the length of the list. */
  function FindId(list: seq<Breakpoint>, id: int): (i: nat)
    ensures i <= |list| && (i < |list| ==> list[i].id == id)
    ensures forall j :: 0 <= j < i ==> list[j].id != id
  {
    if list == [] then 0 else if list[0].id == id then 0 else FindId(list[1..], id) + 1
  }

  function Removed(list: seq<Breakpoint>, id: int): seq<Breakpoint> {
    var i := FindId(list, id);
    if i < |list| then list[..i] + list[i + 1..] else list
  }

  lemma RemovedIrredundant(list: seq<Breakpoint>, id: int)
    requires Irredundant(list)
    ensures Irredundant(Removed(list, id))
  {
    var f, shorter := FindId(list, id), Removed(list, id);
    assert f < |list| ==> forall i :: 0 <= i < |shorter| ==> shorter[i] == list[if i < f then i else i + 1];
  }

  function Switched(list: seq<Breakpoint>, id: int, disabled: bool): seq<Breakpoint> {
    var i := FindId(list, id);
    if i < |list| then list[i := list[i].(disabled := disabled)] else list
  }

  /** Both find the first breakpoint with the identifier, and touch that one only. */
  lemma EditedMeaning(before: seq<Breakpoint>, br: Breakpoint, after: seq<Breakpoint>, disabled: bool)
    requires forall b | b in before :: b.id != br.id
    ensures Removed(before + [br] + after, br.id) == before + after
    ensures Switched(before + [br] + after, br.id, disabled)
         == before + [Breakpoint(br.id, br.conditions, br.temp, disabled)] + after
  {
    var list := before + [br] + after;
    assert forall j :: 0 <= j < |before| ==> list[j] == before[j];
    assert list[|before|] == br;
    assert FindId(list, br.id) == |before|;
  }

  lemma EditedNothing(list: seq<Breakpoint>, id: int, disabled: bool)
    requires forall b | b in list :: b.id != id
    ensures Removed(list, id) == list && Switched(list, id, disabled) == list
  {
    assert FindId(list, id) == |list|;
  }

  // ---- Which breakpoint stops the simulation -----------------------------------------------------

  /** Breakpoint `i` is the first that matches. */
  ghost predicate FirstMatch(list: seq<Breakpoint>, i: nat, ev: Event, text: Conversions) {
    && i < |list| && Matches(list[i].conditions, ev, text)
    && forall j :: 0 <= j < i ==> !Matches(list[j].conditions, ev, text)
  }

  /** The event stops the simulation: the first breakpoint that matches is enabled. */
  ghost predicate Stops(list: seq<Breakpoint>, ev: Event, text: Conversions) {
    exists i: nat :: FirstMatch(list, i, ev, text) && !list[i].disabled
  }

  ghost predicate EnabledMatch(list: seq<Breakpoint>, i: nat, ev: Event, text: Conversions) {
    i < |list| && Matches(list[i].conditions, ev, text) && !list[i].disabled
  }

  lemma {:induction false} SomeFirstMatch(list: seq<Breakpoint>, k: nat, ev: Event, text: Conversions) returns (i: nat)
    requires k < |list| && Matches(list[k].conditions, ev, text)
    ensures i <= k && FirstMatch(list, i, ev, text)
    decreases k
  {
    if j :| 0 <= j < k && Matches(list[j].conditions, ev, text) {
      i := SomeFirstMatch(list, j, ev, text);
    } else {
      i := k;
    }
  }

  /** A breakpoint alone stops exactly the events that meet every condition it has. */
  lemma LoneStops(br: Breakpoint, ev: Event, text: Conversions)
    ensures Stops([br], ev, text) <==>
      && br.disabled == false
      && (OnModuleRead in br.conditions ==> ev.read && ev.site == br.conditions[OnModuleRead])
      && (OnModuleWrite in br.conditions ==> !ev.read && ev.site == br.conditions[OnModuleWrite])
      && (OnPacketId in br.conditions ==> text.ofInt(ev.packet) == br.conditions[OnPacketId])
      && (AtTime in br.conditions ==> ev.time >= text.toTime(br.conditions[AtTime]))
  {
    var list := [br];
    if Stops(list, ev, text) {
      var i: nat :| FirstMatch(list, i, ev, text) && !list[i].disabled;
      assert list[i] == br;
    }
    if Matches(br.conditions, ev, text) && !br.disabled {
      assert FirstMatch(list, 0, ev, text);
    }
  }

  /** A breakpoint in time stops at its time and ever after, whatever happens there, and never before. */
  lemma StopsFromThenOn(id: int, value: string, temp: bool, ev: Event, text: Conversions)
    ensures
      var list := [Breakpoint(id, map[AtTime := value], temp, false)];
      && (Stops(list, ev, text) ==> forall later: Event :: ev.time <= later.time ==> Stops(list, later, text))
      && (ev.time < text.toTime(value) ==> !Stops(list, ev, text))
      && (ev.time == text.toTime(value) ==> Stops(list, ev, text))
  {
    var br := Breakpoint(id, map[AtTime := value], temp, false);
    LoneStops(br, ev, text);
    forall later: Event | ev.time <= later.time && Stops([br], ev, text) ensures Stops([br], later, text) {
      LoneStops(br, later, text);
    }
  }

  /**
   * An enabled breakpoint that matches an event does not always stop the simulation: that is so
   * exactly when a disabled breakpoint before all enabled ones does not match it too.
   */
  lemma EnabledStops(list: seq<Breakpoint>, k: nat, ev: Event, text: Conversions)
    requires EnabledMatch(list, k, ev, text)
    ensures Stops(list, ev, text) <==>
      forall j :: 0 <= j < |list| && list[j].disabled && Matches(list[j].conditions, ev, text) ==>
        exists i: nat :: i < j && EnabledMatch(list, i, ev, text)
  {
    var first := SomeFirstMatch(list, k, ev, text);
    if Stops(list, ev, text) {
      var i: nat :| FirstMatch(list, i, ev, text) && !list[i].disabled;
      assert EnabledMatch(list, i, ev, text);
    } else {
      assert list[first].disabled;
    }
  }

  /** The second breakpoint is enabled and matches, and yet the first one keeps it from stopping. */
  lemma DisabledHides(text: Conversions)
    ensures
      var ev := Event("module", 7, 0.0, true);
      var list := [Breakpoint(0, map[OnModuleRead := "module"], false, true),
                   Breakpoint(1, map[OnPacketId := text.ofInt(7)], false, false)];
      Irredundant(list) && EnabledMatch(list, 1, ev, text) && !Stops(list, ev, text)
  {
    var ev := Event("module", 7, 0.0, true);
    var list := [Breakpoint(0, map[OnModuleRead := "module"], false, true),
                 Breakpoint(1, map[OnPacketId := text.ofInt(7)], false, false)];
    assert OnModuleRead in list[0].conditions && OnModuleRead !in list[1].conditions;
    assert FirstMatch(list, 0, ev, text);
  }

  /**
   * What a new breakpoint changes about stopping: it stops the events that it matches, enabled, and
   * that no listed breakpoint matches, enabled or not.
   */
  lemma AddedStops(list: seq<Breakpoint>, br: Breakpoint, ev: Event, text: Conversions)
    ensures Stops(Added(list, br), ev, text) <==>
      Stops(list, ev, text) || (!Listed(list, ev, text) && Matches(br.conditions, ev, text) && !br.disabled)
  {
    hide Matches;
    if i :| 0 <= i < |list| && Contained(list[i].conditions, br.conditions) {
      if Matches(br.conditions, ev, text) {
        ContainedMatchesMore(list[i].conditions, br.conditions, ev, text);
      }
    } else {
      var longer := list + [br];
      assert longer[|list|] == br && forall j :: 0 <= j < |list| ==> longer[j] == list[j];
      if Stops(list, ev, text) {
        var i: nat :| FirstMatch(list, i, ev, text) && !list[i].disabled;
        assert FirstMatch(longer, i, ev, text);
      }
      if Stops(longer, ev, text) {
        var i: nat :| FirstMatch(longer, i, ev, text) && !longer[i].disabled;
        assert i < |list| ==> FirstMatch(list, i, ev, text);
      }
      if !Listed(list, ev, text) && Matches(br.conditions, ev, text) {
        assert FirstMatch(longer, |list|, ev, text);
      }
    }
  }

  /**
   * The breakpoint of a Next is lost behind a disabled one for the same packet: it is discarded, and
   * no event of that packet stops the simulation.
   */
  lemma NextSwallowed(ev: Event, text: Conversions)
    requires ev.packet == 7
    ensures
      var list := [Breakpoint(0, map[OnPacketId := text.ofInt(7)], false, true)];
      var next := Breakpoint(-1, map[OnPacketId := text.ofInt(7)], true, false);
      Added(list, next) == list && Matches(next.conditions, ev, text) && !Stops(Added(list, next), ev, text)
  {
    var list := [Breakpoint(0, map[OnPacketId := text.ofInt(7)], false, true)];
    assert Contained(list[0].conditions, map[OnPacketId := text.ofInt(7)]);
  }

  // ---- The code -------------------------------------------------------------------------------------

  /** `isEqual`: every condition of `a` is a condition of `b`. */
  method IsEqual(a: Conditions, b: Conditions) returns (r: bool)
    ensures r <==> Contained(a, b)
  {
    var k := 0;
    while k < |CONDITIONS|
      invariant 0 <= k <= |CONDITIONS|
      invariant forall c :: c in a && Position(c) < k ==> c in b && a[c] == b[c]
    {
      var c := CONDITIONS[k];
      if c in a {
        if c !in b {
          return false;
        }
        if b[c] != a[c] {
          return false;
        }
      }
      k := k + 1;
    }
    return true;
  }

  /** The loop over the conditions of one breakpoint. */
  method AllHold(cs: Conditions, ev: Event, text: Conversions) returns (r: bool)
    ensures r <==> Matches(cs, ev, text)
  {
    var k := 0;
    while k < |CONDITIONS|
      invariant 0 <= k <= |CONDITIONS|
      invariant forall c :: c in cs && Position(c) < k ==> Holds(c, cs[c], ev, text)
    {
      var c := CONDITIONS[k];
      if c in cs {
        if c == OnModuleRead && (!ev.read || cs[c] != ev.site) {
          return false;
        } else if c == OnModuleWrite && (ev.read || cs[c] != ev.site) {
          return false;
        } else if c == OnPacketId && cs[c] != text.ofInt(ev.packet) {
          return false;
        } else if c == AtTime && text.toTime(cs[c]) > ev.time {
          return false;
        }
      }
      k := k + 1;
    }
    return true;
  }

  /** The message that a stop sends. */
  datatype StopMessage =
    | BreakpointHit(id: int, site: string, packet: int, time: real, read: bool)
    | SimulationStopped(site: string, packet: int, time: real, read: bool)

  class BreakpointTable {
    var nextId: nat
    var list: seq<Breakpoint>
    var whoami: int

    ghost predicate Valid()
      reads this
    {
      Irredundant(list) && forall i :: 0 <= i < |list| ==> -1 <= list[i].id < nextId
    }

    constructor ()
      ensures Valid() && list == [] && whoami == -1
    {
      nextId, list, whoami := 0, [], -1;
    }

    /** A breakpoint without conditions, with an identifier that no listed breakpoint has. */
    method NewBreakpoint(stealth: bool) returns (br: Breakpoint)
      requires Valid()
      modifies `nextId
      ensures Valid() && br == Breakpoint(if stealth then -1 else old(nextId), map[], false, false)
      ensures -1 <= br.id < nextId
      ensures !stealth ==> forall i :: 0 <= i < |list| ==> list[i].id != br.id
    {
      if !stealth {
        br := Breakpoint(nextId, map[], false, false);
        nextId := nextId + 1;
      } else {
        br := Breakpoint(-1, map[], false, false);
      }
    }

    /** A condition that is there already keeps its value. */
    static method AddCondition(br: Breakpoint, c: Condition, value: string) returns (r: Breakpoint)
      ensures r == br.(conditions := r.conditions) && r.conditions.Keys == br.conditions.Keys + {c}
      ensures forall d :: d in r.conditions ==>
        r.conditions[d] == if d in br.conditions then br.conditions[d] else value
    {
      r := br;
      if c !in br.conditions {
        r := br.(conditions := br.conditions[c := value]);
      }
    }

    method AddBreakpoint(br: Breakpoint)
      requires Valid() && -1 <= br.id < nextId
      modifies `list
      ensures Valid() && list == Added(old(list), br)
    {
      hide Contained;
      Listing(br);
      var k := 0;
      while k < |list|
        invariant 0 <= k <= |list| && list == old(list)
        invariant forall j :: 0 <= j < k ==> !Contained(list[j].conditions, br.conditions)
      {
        var equal := IsEqual(list[k].conditions, br.conditions);
        if equal {
          return;
        }
        k := k + 1;
      }
      list := list + [br];
    }

    lemma Listing(br: Breakpoint)
      requires Valid()
      ensures Irredundant(Added(list, br))
    {
      AddedMeaning(list, br, Event("", 0, 0.0, false), Conversions(i => "", s => 0.0));
    }

    method RemoveBreakpoint(id: int)
      requires Valid()
      modifies `list
      ensures Valid() && list == Removed(old(list), id)
    {
      RemovedIrredundant(list, id);
      var k := Find(id);
      if k < |list| {
        list := list[..k] + list[k + 1..];
      }
    }

    /** The linear search for an identifier. */
    method Find(id: int) returns (k: nat)
      ensures k == FindId(list, id)
    {
      k := 0;
      while k < |list|
        invariant k <= |list| && forall j :: 0 <= j < k ==> list[j].id != id
      {
        if list[k].id == id {
          return;
        }
        k := k + 1;
      }
    }

    /** `enableBreakpoint` and `disableBreakpoint`. */
    method Switch(id: int, disabled: bool)
      requires Valid()
      modifies `list
      ensures Valid() && list == Switched(old(list), id, disabled)
    {
      var k := Find(id);
      if k < |list| {
        list := list[k := list[k].(disabled := disabled)];
      }
    }

    /** The two nested loops with their flag: the first breakpoint that matches. */
    method FindHit(ev: Event, text: Conversions) returns (hit: Option<nat>)
      ensures hit.Some? ==> FirstMatch(list, hit.value, ev, text)
      ensures hit.None? ==> !Listed(list, ev, text)
    {
      hide Matches;
      var k := 0;
      while k < |list|
        invariant 0 <= k <= |list|
        invariant forall j :: 0 <= j < k ==> !Matches(list[j].conditions, ev, text)
      {
        var breakHit := AllHold(list[k].conditions, ev, text);
        if breakHit {
          return Some(k);
        }
        k := k + 1;
      }
      return None;
    }

    /** The decision to stop, the message, and the breakpoints that a stop removes. */
    method CheckBreakpointHit(ev: Event, text: Conversions) returns (message: Option<StopMessage>)
      requires Valid()
      modifies `list, `whoami
      ensures Valid()
      ensures message.Some? <==> Stops(old(list), ev, text)
      ensures message.None? ==> list == old(list) && whoami == old(whoami)
      ensures message.Some? ==> whoami == ev.packet
      ensures forall i: nat :: FirstMatch(old(list), i, ev, text) && message.Some? ==>
        var hit := old(list)[i];
        var kept := if hit.id != -1 then Removed(old(list), -1) else old(list);
        && list == (if hit.temp then Removed(kept, hit.id) else kept)
        && message == Some(if hit.id != -1 then BreakpointHit(hit.id, ev.site, ev.packet, ev.time, ev.read)
                           else SimulationStopped(ev.site, ev.packet, ev.time, ev.read))
    {
      hide Matches, Removed, Irredundant;
      message := None;
      var hit := FindHit(ev, text);
      if hit.Some? && !list[hit.value].disabled {
        var br := list[hit.value];
        assert FirstMatch(list, hit.value, ev, text) && !list[hit.value].disabled;
        whoami := ev.packet;
        if br.id != -1 {
          message := Some(BreakpointHit(br.id, ev.site, ev.packet, ev.time, ev.read));
          RemoveBreakpoint(-1);
        } else {
          message := Some(SimulationStopped(ev.site, ev.packet, ev.time, ev.read));
        }
        if br.temp {
          RemoveBreakpoint(br.id);
        }
      }
    }
  }
}
