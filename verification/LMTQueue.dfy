/**
 * The size-limited queue, as processes see it that run without preemption between two waits
 * (section 4.2.1.2 of IEEE Std 1666-2011).
 */
module LMTQueue {
  import opened Bytes

  /** A process between its slices; `Woken` processes are runnable and test their condition again. */
  datatype Process<T> =
    | Ready
    | AwaitsRoom(item: T)
    | WokenForRoom(item: T)
    | AwaitsItem
    | WokenForItem

  /** `slots` counts the used positions; it stays in the range of `size_t`. */
  datatype State<T> = State(
    queue: seq<T>,
    slots: int,
    processes: seq<Process<T>>,
    pushed: seq<T>,
    popped: seq<T>)

  /** `cond_not_empty_.notify()`: every process that waits for it becomes runnable. */
  function NotifyNotEmpty<T>(ps: seq<Process<T>>): (qs: seq<Process<T>>)
    ensures |qs| == |ps|
    ensures forall i :: 0 <= i < |ps| ==> qs[i] == if ps[i].AwaitsItem? then WokenForItem else ps[i]
  {
    seq(|ps|, i requires 0 <= i < |ps| => if ps[i].AwaitsItem? then WokenForItem else ps[i])
  }

  /** `cond_not_full_.notify()`. */
  function NotifyNotFull<T>(ps: seq<Process<T>>): (qs: seq<Process<T>>)
    ensures |qs| == |ps|
    ensures forall i :: 0 <= i < |ps| ==> qs[i] == if ps[i].AwaitsRoom? then WokenForRoom(ps[i].item) else ps[i]
  {
    seq(|ps|, i requires 0 <= i < |ps| => if ps[i].AwaitsRoom? then WokenForRoom(ps[i].item) else ps[i])
  }

  /** The slice of `push` from a test of `full` to the next wait or to the end. */
  function PushSlice<T>(s: State<T>, capacity: nat, i: nat, item: T): State<T>
    requires i < |s.processes|
  {
    if s.slots == capacity then s.(processes := s.processes[i := AwaitsRoom(item)])
    else
      State(s.queue + [item], s.slots + 1, NotifyNotEmpty(s.processes[i := Ready]), s.pushed + [item], s.popped)
  }

  /** The slice of `pop` from a test of `empty` to the next wait or to the end. */
  function PopSlice<T>(s: State<T>, i: nat): State<T>
    requires i < |s.processes|
  {
    if s.queue == [] then s.(processes := s.processes[i := AwaitsItem])
    else
      State(s.queue[1..], s.slots - 1, NotifyNotFull(s.processes[i := Ready]), s.pushed, s.popped + [s.queue[0]])
  }

  /** What the scheduler lets process `i` do. */
  datatype Action<T> = CallPush(i: nat, item: T) | CallPop(i: nat) | Resume(i: nat)

  function Next<T>(s: State<T>, capacity: nat, a: Action<T>): Option<State<T>> {
    if a.i >= |s.processes| then None
    else
      match (a, s.processes[a.i])
      case (CallPush(i, item), Ready) => Some(PushSlice(s, capacity, i, item))
      case (CallPop(i), Ready) => Some(PopSlice(s, i))
      case (Resume(i), WokenForRoom(item)) => Some(PushSlice(s, capacity, i, item))
      case (Resume(i), WokenForItem) => Some(PopSlice(s, i))
      case _ => None
  }

  /** A queue of `n` processes before its first call. */
  function Initial<T>(n: nat): State<T> {
    State([], 0, seq(n, i => Ready), [], [])
  }

  // ---- The invariant -----------------------------------------------------------------------------

  predicate AwaitingItem<T>(s: State<T>) {
    exists i :: 0 <= i < |s.processes| && s.processes[i].AwaitsItem?
  }

  predicate AwaitingRoom<T>(s: State<T>) {
    exists i :: 0 <= i < |s.processes| && s.processes[i].AwaitsRoom?
  }

  /**
   * The counter is the length, the capacity is kept, nothing is lost, added or reordered, and a
   * process waits only while there is a reason to.
   */
  ghost predicate Invariant<T>(s: State<T>, capacity: nat) {
    && s.slots == |s.queue| <= capacity
    && s.pushed == s.popped + s.queue
    && (AwaitingItem(s) ==> s.queue == [])
    && (AwaitingRoom(s) ==> |s.queue| == capacity)
  }

  lemma PushKeeps<T>(s: State<T>, capacity: nat, i: nat, item: T)
    requires Invariant(s, capacity) && i < |s.processes|
    ensures Invariant(PushSlice(s, capacity, i, item), capacity)
  {
    var t := PushSlice(s, capacity, i, item);
    assert forall j :: 0 <= j < |s.processes| && j != i ==> s.processes[i := Ready][j] == s.processes[j];
    assert (s.popped + s.queue) + [item] == s.popped + (s.queue + [item]);
  }

  lemma PopKeeps<T>(s: State<T>, capacity: nat, i: nat)
    requires Invariant(s, capacity) && i < |s.processes|
    ensures Invariant(PopSlice(s, i), capacity)
  {
    var t := PopSlice(s, i);
    if s.queue != [] {
      assert s.popped + s.queue == (s.popped + [s.queue[0]]) + s.queue[1..];
    }
  }

  lemma NextKeeps<T>(s: State<T>, capacity: nat, a: Action<T>)
    requires Invariant(s, capacity) && Next(s, capacity, a).Some?
    ensures Invariant(Next(s, capacity, a).value, capacity)
  {
    hide Invariant, PushSlice, PopSlice;
    match (a, s.processes[a.i])
    case (CallPush(i, item), Ready) => PushKeeps(s, capacity, i, item);
    case (CallPop(i), Ready) => PopKeeps(s, capacity, i);
    case (Resume(i), WokenForRoom(item)) => PushKeeps(s, capacity, i, item);
    case (Resume(i), WokenForItem) => PopKeeps(s, capacity, i);
  }

  /** The state after a run: any calls and resumptions, in any order. */
  function Execute<T>(s: State<T>, capacity: nat, run: seq<Action<T>>): Option<State<T>>
    decreases |run|
  {
    if run == [] then Some(s)
    else
      match Next(s, capacity, run[0])
      case None => None
      case Some(t) => Execute(t, capacity, run[1..])
  }

  lemma {:induction false} RunKeeps<T>(s: State<T>, capacity: nat, run: seq<Action<T>>, t: State<T>)
    requires Invariant(s, capacity) && Execute(s, capacity, run) == Some(t)
    ensures Invariant(t, capacity)
    decreases |run|
  {
    hide Invariant, Next;
    if run != [] {
      NextKeeps(s, capacity, run[0]);
      RunKeeps(Next(s, capacity, run[0]).value, capacity, run[1..], t);
    }
  }

  /**
   * Any number of producers and consumers, in any order: `slots_` is the length of the queue and at
   * most the capacity, items leave in the order in which they came, a process that waits for an item
   * has an empty queue before it, and one that waits for room a full one.
   */
  lemma QueueIsCorrect<T>(n: nat, capacity: nat, run: seq<Action<T>>, s: State<T>)
    requires Execute(Initial(n), capacity, run) == Some(s)
    ensures s.slots == |s.queue| <= capacity
    ensures s.pushed == s.popped + s.queue
    ensures AwaitingItem(s) ==> s.queue == []
    ensures AwaitingRoom(s) ==> |s.queue| == capacity
  {
    hide Execute;
    assert Invariant<T>(Initial(n), capacity);
    RunKeeps(Initial(n), capacity, run, s);
  }

  /** What process `i` has in hand: an item that it is to push, or nothing when it is to pop. */
  function Task<T>(s: State<T>, a: Action<T>): Option<Option<T>> {
    if a.i >= |s.processes| then None
    else if s.processes[a.i].Ready? then
      match a
      case CallPush(_, item) => Some(Some(item))
      case CallPop(_) => Some(None)
      case Resume(_) => None
    else if a.Resume? && s.processes[a.i].WokenForRoom? then Some(Some(s.processes[a.i].item))
    else if a.Resume? && s.processes[a.i].WokenForItem? then Some(None)
    else None
  }

  /** Process `j` is where it was, or has been woken from its wait. */
  predicate KeptOrWoken<T(==)>(p: Process<T>, q: Process<T>) {
    p == q || (p.AwaitsItem? && q.WokenForItem?) || (p.AwaitsRoom? && q == WokenForRoom(p.item))
  }

  /**
   * What a step does, for a call and for a process that resumes alike: it goes through when there is room
   * or an item, takes the front item or puts its own behind the others, and otherwise waits (again).  The
   * other processes are at most woken.
   */
  lemma StepMeaning<T>(s: State<T>, capacity: nat, a: Action<T>)
    requires Invariant(s, capacity)
    ensures Next(s, capacity, a).Some? <==> Task(s, a).Some?
    ensures Task(s, a).Some? ==>
      var t := Next(s, capacity, a).value;
      && |t.processes| == |s.processes|
      && (forall j :: 0 <= j < |s.processes| && j != a.i ==> KeptOrWoken(s.processes[j], t.processes[j]))
      && match Task(s, a).value
         case Some(item) =>
           if |s.queue| < capacity then
             && t.processes[a.i] == Ready && t.queue == s.queue + [item]
             && t.pushed == s.pushed + [item] && t.popped == s.popped
           else t.processes[a.i] == AwaitsRoom(item) && t == s.(processes := t.processes)
         case None =>
           if s.queue != [] then
             && t.processes[a.i] == Ready && t.queue == s.queue[1..]
             && t.popped == s.popped + [s.queue[0]] && t.pushed == s.pushed
           else t.processes[a.i] == AwaitsItem && t == s.(processes := t.processes)
  {
  }

  /** Some run leaves one process waiting for an item and another one for room. */
  ghost predicate CanBlockBoth<T(!new)>(capacity: nat, item: T) {
    exists n, run: seq<Action<T>>, s ::
      Execute(Initial(n), capacity, run) == Some(s) && AwaitingItem(s) && AwaitingRoom(s)
  }

  /** Producers and consumers never block each other, exactly when the queue has room for an item. */
  lemma NeverBoth<T(!new)>(capacity: nat, item: T)
    ensures CanBlockBoth(capacity, item) <==> capacity == 0
  {
    if CanBlockBoth(capacity, item) {
      var n, run: seq<Action<T>>, s :|
        Execute(Initial(n), capacity, run) == Some(s) && AwaitingItem(s) && AwaitingRoom(s);
      QueueIsCorrect(n, capacity, run, s);
    }
    if capacity == 0 {
      BlockBoth(item);
    }
  }

  lemma BlockBoth<T(!new)>(item: T)
    ensures CanBlockBoth(0, item)
  {
    var run := [CallPush(0, item), CallPop(1)];
    var s0 := Initial<T>(2);
    var s1 := Next(s0, 0, run[0]).value;
    var s2 := Next(s1, 0, run[1]).value;
    assert run[1..] == [CallPop(1)] && run[1..][1..] == [];
    assert Execute(s2, 0, []) == Some(s2);
    assert Execute(s1, 0, run[1..]) == Some(s2);
    assert s2.processes[0].AwaitsRoom? && s2.processes[1].AwaitsItem?;
    assert Execute(Initial(2), 0, run) == Some(s2) && AwaitingItem(s2) && AwaitingRoom(s2);
  }

  // ---- The code --------------------------------------------------------------------------------------

  class Queue<T> {
    const capacity: nat
    var queue: seq<T>
    var slots: int
    var locked: bool
    var processes: seq<Process<T>>
    ghost var pushed: seq<T>
    ghost var popped: seq<T>

    ghost function View(): State<T>
      reads this
    {
      State(queue, slots, processes, pushed, popped)
    }

    /** Between two slices nobody holds the mutex. */
    ghost predicate Valid()
      reads this
    {
      Invariant(View(), capacity) && !locked
    }

    constructor (n: nat, capacity: nat)
      ensures Valid() && View() == Initial(n) && this.capacity == capacity
    {
      this.capacity := capacity;
      queue, slots, locked, pushed, popped := [], 0, false, [], [];
      processes := seq(n, i => Ready);
    }

    /** `push`, from a test of `full` on. */
    method Push(i: nat, item: T)
      requires Valid() && i < |processes| && (processes[i].Ready? || processes[i] == WokenForRoom(item))
      modifies this
      ensures Valid() && View() == PushSlice(old(View()), capacity, i, item)
    {
      PushKeeps(View(), capacity, i, item);
      var full := Full();
      if full {
        processes := processes[i := AwaitsRoom(item)];
        return;
      }
      locked := true;
      queue := queue + [item];
      slots := slots + 1;
      locked := false;
      processes := NotifyNotEmpty(processes[i := Ready]);
      pushed := pushed + [item];
    }

    /** `pop`, from a test of `empty` on. */
    method Pop(i: nat) returns (item: Option<T>)
      requires Valid() && i < |processes| && (processes[i].Ready? || processes[i].WokenForItem?)
      modifies this
      ensures Valid() && View() == PopSlice(old(View()), i)
      ensures item == if old(queue) == [] then None else Some(old(queue)[0])
    {
      PopKeeps(View(), capacity, i);
      if queue == [] {
        processes := processes[i := AwaitsItem];
        return None;
      }
      locked := true;
      item := Some(queue[0]);
      queue := queue[1..];
      slots := slots - 1;
      locked := false;
      processes := NotifyNotFull(processes[i := Ready]);
      popped := popped + [item.value];
    }

    method Full() returns (r: bool)
      requires Valid()
      ensures r <==> |queue| == capacity
    {
      r := slots == capacity;
    }

    method Available() returns (r: nat)
      requires Valid()
      ensures r == capacity - |queue|
    {
      r := capacity - slots;
    }
  }
}
