/**
 * The functions of the two threads, with their locks and wait loops.  While one thread runs a
 * function, the other one takes any steps of the state machine between its atomic blocks; a schedule
 * lists them, and a function that is still blocked when the schedule ends returns unfinished.
 */
module HandshakeThreads {
  import opened Bytes
  import opened Handshake

  type Schedule = seq<seq<Action>>

  /** The step is one that the thread in question takes itself. */
  predicate Own(a: Action, simulation: bool) {
    if simulation then a.SimStep? || a.Examine? else a.ServerStep? || a.Receive?
  }

  /** The state after one slot of a schedule: the steps of others, in order, as far as they are possible. */
  function Others(s: State, slot: seq<Action>, simulation: bool): State
    decreases |slot|
  {
    if slot == [] then s
    else if Own(slot[0], simulation) then Others(s, slot[1..], simulation)
    else
      match Next(s, slot[0])
      case None => Others(s, slot[1..], simulation)
      case Some(t) => Others(t, slot[1..], simulation)
  }

  /** A slot of possible steps of others is taken as it stands. */
  lemma {:induction false} OthersRun(s: State, slot: seq<Action>, simulation: bool)
    requires Execute(s, slot).Some? && forall k :: 0 <= k < |slot| ==> !Own(slot[k], simulation)
    ensures Some(Others(s, slot, simulation)) == Execute(s, slot)
    decreases |slot|
  {
    hide Next;
    if slot != [] {
      OthersRun(Next(s, slot[0]).value, slot[1..], simulation);
    }
  }

  class Debugger {
    var simPc: SimPc
    var serverPc: ServerPc
    var startMutex: Owner
    var bkptMutex: Owner
    var stopMutex: Owner
    var stopped: bool
    var continueCommand: bool
    var runCalled: bool
    var stopMessage: nat
    var messageCount: nat
    var replyMessage: Option<nat>
    var reply: Option<nat>
    var sent: seq<Option<nat>>
    var freed: seq<Option<nat>>
    var accepted: seq<Request>
    var raised: nat
    var taken: nat
    var granted: nat
    var consumed: nat
    var enable: bool
    ghost var run: seq<Action>

    function View(): State
      reads this
    {
      State(simPc, serverPc, startMutex, bkptMutex, stopMutex, stopped, continueCommand, runCalled,
            stopMessage, messageCount, replyMessage, reply, sent, freed, accepted, raised, taken, granted, consumed)
    }

    /** The fields are what the steps taken so far make of the initial state. */
    ghost predicate Valid()
      reads this
    {
      Execute(INITIAL, run) == Some(View())
    }

    constructor (debugging: bool)
      ensures Valid() && run == [] && enable == debugging
    {
      simPc, serverPc := WaitRun, Idle;
      startMutex, bkptMutex, stopMutex := Server, Free, Free;
      stopped, continueCommand, runCalled := false, false, false;
      messageCount, stopMessage, replyMessage, reply := 0, 0, None, None;
      sent, freed, accepted, run := [], [], [], [];
      raised, taken, granted, consumed := 0, 0, 0, 0;
      enable := debugging;
    }

    lemma Facts()
      requires Valid()
      ensures Sound(View())
    {
      Reachable(run, View());
    }

    /** An atomic block has been carried out. */
    ghost method Log(before: State, a: Action)
      requires Execute(INITIAL, run) == Some(before) && Next(before, a) == Some(View())
      modifies `run
      ensures Valid() && Sound(View())
    {
      hide Execute, Next;
      OneMoreStep(INITIAL, run, a);
      run := run + [a];
      Facts();
    }

    method Load(t: State)
      modifies this
      ensures View() == t && run == old(run) && enable == old(enable)
    {
      LoadLocks(t);
      LoadLogs(t);
    }

    method LoadLocks(t: State)
      modifies `simPc, `serverPc, `startMutex, `bkptMutex, `stopMutex, `stopped, `continueCommand, `runCalled
      ensures simPc == t.sim && serverPc == t.server
      ensures startMutex == t.start && bkptMutex == t.bkpt && stopMutex == t.stop
      ensures stopped == t.stopped && continueCommand == t.continueCommand && runCalled == t.runCalled
    {
      simPc, serverPc, startMutex, bkptMutex, stopMutex := t.sim, t.server, t.start, t.bkpt, t.stop;
      stopped, continueCommand, runCalled := t.stopped, t.continueCommand, t.runCalled;
    }

    method LoadLogs(t: State)
      modifies `stopMessage, `messageCount, `replyMessage, `reply, `sent, `freed, `accepted,
               `raised, `taken, `granted, `consumed
      ensures stopMessage == t.message && messageCount == t.made && replyMessage == t.slot && reply == t.reply
      ensures sent == t.sent && freed == t.freed && accepted == t.accepted
      ensures raised == t.raised && taken == t.taken && granted == t.granted && consumed == t.consumed
    {
      stopMessage, messageCount, replyMessage, reply := t.message, t.made, t.slot, t.reply;
      sent, freed, accepted := t.sent, t.freed, t.accepted;
      raised, taken, granted, consumed := t.raised, t.taken, t.granted, t.consumed;
    }

    // ---- The simulation thread -------------------------------------------------------------------

    /** The server thread and the client do what comes next in the schedule. */
    method ServerRuns(schedule: Schedule) returns (rest: Schedule)
      requires Valid()
      modifies this
      ensures Valid() && SimRely(old(View()), View()) && enable == old(enable)
      ensures View() == if schedule == [] then old(View()) else Others(old(View()), schedule[0], true)
      ensures rest == if schedule == [] then [] else schedule[1..]
    {
      hide Execute, Next, Sound;
      if schedule == [] {
        return [];
      }
      for k := 0 to |schedule[0]|
        invariant Valid() && SimRely(old(View()), View()) && enable == old(enable)
        invariant Others(View(), schedule[0][k..], true) == Others(old(View()), schedule[0], true)
      {
        var a := schedule[0][k];
        var t := Next(View(), a);
        assert schedule[0][k..][1..] == schedule[0][k + 1..];
        if !a.SimStep? && !a.Examine? && t.Some? {
          ghost var s := View();
          Facts();
          ServerLeavesAlone(s, a, t.value);
          Load(t.value);
          Log(s, a);
        }
      }
      return schedule[1..];
    }

    method LeaveGate(schedule: Schedule) returns (rest: Schedule)
      requires Valid() && simPc == HoldStart
      modifies this
      ensures Valid() && simPc == Simulate && |rest| <= |schedule| && enable == old(enable)
    {
      hide Execute, Sound, Others;
      rest := ServerRuns(schedule);
      ghost var s := View();
      startMutex, simPc := Free, Simulate;
      Log(s, SimStep);
    }

    method EnterGate(schedule: Schedule) returns (done: bool, rest: Schedule)
      requires Valid() && simPc == WaitRun
      modifies this
      ensures Valid() && enable == old(enable) && |rest| <= |schedule|
      ensures if done then simPc == HoldStart else rest == [] && simPc == WaitRun
      ensures !done ==> SimNext(View()).None?
    {
      hide Execute, Sound, Others;
      rest := ServerRuns(schedule);
      while startMutex != Free
        invariant Valid() && simPc == WaitRun && enable == old(enable) && |rest| <= |schedule|
        decreases |rest|
      {
        if rest == [] {
          return false, rest;
        }
        rest := ServerRuns(rest);
      }
      TakeStartMutex();
      done := true;
    }

    method TakeStartMutex()
      requires Valid() && simPc == WaitRun && startMutex == Free
      modifies this
      ensures Valid() && simPc == HoldStart && enable == old(enable)
    {
      hide Execute, Sound, Others;
      ghost var s := View();
      startMutex, simPc := Simulation, HoldStart;
      Log(s, SimStep);
    }

    /** `waitForRunCommand`: the simulation starts only when a Run has been accepted. */
    method WaitForRunCommand(schedule: Schedule) returns (done: bool, rest: Schedule)
      requires Valid() && simPc == WaitRun
      modifies this
      ensures Valid() && enable == old(enable)
      ensures done ==> simPc == Simulate && RunRequest in accepted && RunFirst(accepted)
      ensures !done ==> rest == [] && simPc == WaitRun && SimNext(View()).None?
    {
      hide Valid, View, RunFirst, Others, SimNext, ServerNext;
      done, rest := EnterGate(schedule);
      if done {
        rest := LeaveGate(rest);
        Started();
      }
    }

    lemma Started()
      requires Valid() && simPc != WaitRun
      ensures RunFirst(accepted) && Invariant(View())
      ensures simPc != HoldStart ==> RunRequest in accepted
      ensures simPc == Simulate ==> |sent| == messageCount
    {
      hide Execute, RunFirst;
      Facts();
    }

    /** What the blocks of a stop leave alone, apart from what they say; nothing is granted when the server rests. */
    twostate predicate Unstopped(schedule: Schedule)
      reads this
    {
      && enable == old(enable) && messageCount == old(messageCount) && raised == old(raised)
      && consumed == old(consumed) && Ungranted(schedule)
    }

    twostate predicate Ungranted(schedule: Schedule)
      reads this
    {
      schedule == [] ==> granted == old(granted)
    }

    method LockStopMutex(schedule: Schedule) returns (done: bool, rest: Schedule)
      requires Valid() && simPc == LockStop
      modifies this
      ensures Valid() && Unstopped(schedule) && |rest| <= |schedule| && (schedule != [] ==> |rest| < |schedule|)
      ensures if done then simPc == SetStopped else rest == [] && simPc == LockStop
      ensures !done ==> SimNext(View()).None?
    {
      hide Execute, Sound, Others;
      rest := ServerRuns(schedule);
      while stopMutex != Free
        invariant Valid() && Unstopped(schedule) && simPc == LockStop
        invariant |rest| <= |schedule| && (schedule != [] ==> |rest| < |schedule|)
        decreases |rest|
      {
        if rest == [] {
          return false, rest;
        }
        rest := ServerRuns(rest);
      }
      LockBeforeStop();
      done := true;
    }

    method LockBeforeStop()
      requires Valid() && simPc == LockStop && stopMutex == Free
      modifies this
      ensures Valid() && simPc == SetStopped && Unstopped([])
    {
      hide Execute, Sound, Others;
      ghost var s := View();
      stopMutex, simPc := Simulation, SetStopped;
      Log(s, SimStep);
    }

    method RaiseStopped(schedule: Schedule) returns (rest: Schedule)
      requires Valid() && simPc == SetStopped
      modifies this
      ensures Valid() && simPc == UnlockStop && |rest| <= |schedule| && enable == old(enable)
      ensures raised == old(raised) + 1 && messageCount == old(messageCount) && consumed == old(consumed)
      ensures Ungranted(schedule)
    {
      hide Execute, Sound, Others;
      rest := ServerRuns(schedule);
      ghost var s := View();
      stopped, raised, simPc := true, raised + 1, UnlockStop;
      Log(s, SimStep);
    }

    method UnlockStopMutex(schedule: Schedule) returns (rest: Schedule)
      requires Valid() && simPc == UnlockStop
      modifies this
      ensures Valid() && simPc == NotifyStop && |rest| <= |schedule| && enable == old(enable)
      ensures Unstopped(schedule)
    {
      hide Execute, Sound, Others;
      rest := ServerRuns(schedule);
      ghost var s := View();
      stopMutex, simPc := Free, NotifyStop;
      Log(s, SimStep);
    }

    method NotifyWaitingServer(schedule: Schedule) returns (rest: Schedule)
      requires Valid() && simPc == NotifyStop
      modifies this
      ensures Valid() && simPc == LockBkpt && |rest| <= |schedule| && enable == old(enable)
      ensures Unstopped(schedule)
    {
      hide Execute, Sound, Others;
      rest := ServerRuns(schedule);
      ghost var s := View();
      if serverPc == AwaitStop { serverPc := RewakeStop; }
      simPc := LockBkpt;
      Log(s, SimStep);
    }

    /** `notifyServer`: the flag is raised once, under its mutex. */
    method NotifyServer(schedule: Schedule) returns (done: bool, rest: Schedule)
      requires Valid() && simPc == LockStop
      modifies this
      ensures Valid() && enable == old(enable) && |rest| <= |schedule| && (schedule != [] ==> |rest| < |schedule|)
      ensures done ==> simPc == LockBkpt && raised == old(raised) + 1
      ensures !done ==> rest == [] && simPc == LockStop && raised == old(raised) && SimNext(View()).None?
      ensures messageCount == old(messageCount) && consumed == old(consumed) && Ungranted(schedule)
    {
      hide Valid, View, Others, SimNext, ServerNext;
      done, rest := LockStopMutex(schedule);
      if done {
        rest := RaiseStopped(rest);
        rest := UnlockStopMutex(rest);
        rest := NotifyWaitingServer(rest);
      }
    }

    /** Takes `bkpt_mutex`, at the start of `pause` or after a wakeup. */
    method LockForPause(schedule: Schedule) returns (done: bool, rest: Schedule)
      requires Valid() && (simPc == LockBkpt || simPc == WaitContinue)
      modifies this
      ensures Valid() && Unstopped(schedule) && |rest| <= |schedule|
      ensures done ==> simPc == CheckContinue && (old(simPc) == WaitContinue ==> |rest| < |schedule|)
      ensures !done ==> rest == [] && simPc in {LockBkpt, WaitContinue, WakeContinue} && SimNext(View()).None?
    {
      hide Execute, Sound, Others;
      rest := schedule;
      if simPc == LockBkpt {
        rest := ServerRuns(schedule);
      }
      while simPc == WaitContinue || bkptMutex != Free
        invariant Valid() && Unstopped(schedule) && |rest| <= |schedule|
        invariant simPc == old(simPc) || (old(simPc) == WaitContinue && simPc == WakeContinue && |rest| < |schedule|)
        decreases |rest|
      {
        if rest == [] {
          return false, rest;
        }
        rest := ServerRuns(rest);
      }
      TakeBkptMutex();
      done := true;
    }

    method TakeBkptMutex()
      requires Valid() && (simPc == LockBkpt || simPc == WakeContinue) && bkptMutex == Free
      modifies this
      ensures Valid() && simPc == CheckContinue && Unstopped([])
    {
      hide Execute, Sound, Others;
      ghost var s := View();
      bkptMutex, simPc := Simulation, CheckContinue;
      Log(s, SimStep);
    }

    /** The test of the wait loop; when the flag is not set, `wait` releases the mutex in the same block. */
    method TestContinue(schedule: Schedule) returns (isSet: bool, rest: Schedule)
      requires Valid() && simPc == CheckContinue
      modifies this
      ensures Valid() && Unstopped(schedule) && |rest| <= |schedule|
      ensures simPc == if isSet then ClearContinue else WaitContinue
    {
      hide Execute, Sound, Others;
      rest := ServerRuns(schedule);
      ghost var s := View();
      isSet := continueCommand;
      if isSet {
        simPc := ClearContinue;
      } else {
        bkptMutex, simPc := Free, WaitContinue;
      }
      Log(s, SimStep);
    }

    method TakeContinue(schedule: Schedule) returns (rest: Schedule)
      requires Valid() && simPc == ClearContinue
      modifies this
      ensures Valid() && simPc == UnlockBkpt && |rest| <= |schedule| && enable == old(enable)
      ensures consumed == old(consumed) + 1 && messageCount == old(messageCount) && raised == old(raised)
      ensures Ungranted(schedule)
    {
      hide Execute, Sound, Others;
      rest := ServerRuns(schedule);
      ghost var s := View();
      continueCommand, consumed, simPc := false, consumed + 1, UnlockBkpt;
      Log(s, SimStep);
    }

    method UnlockBkptMutex(schedule: Schedule) returns (rest: Schedule)
      requires Valid() && simPc == UnlockBkpt
      modifies this
      ensures Valid() && simPc == Simulate && |rest| <= |schedule| && enable == old(enable)
      ensures Unstopped(schedule)
    {
      hide Execute, Sound, Others;
      rest := ServerRuns(schedule);
      ghost var s := View();
      bkptMutex, simPc := Free, Simulate;
      Log(s, SimStep);
    }

    /** `pause`: returns only when `continue_command` was set, and takes it back; exactly one is consumed. */
    method Pause(schedule: Schedule) returns (done: bool, rest: Schedule)
      requires Valid() && simPc == LockBkpt
      modifies this
      ensures Valid() && enable == old(enable) && |rest| <= |schedule|
      ensures done ==> simPc == Simulate && consumed == old(consumed) + 1
      ensures !done ==> rest == [] && simPc in {LockBkpt, WaitContinue, WakeContinue} && consumed == old(consumed)
      ensures !done ==> SimNext(View()).None?
      ensures raised == old(raised) && messageCount == old(messageCount) && Ungranted(schedule)
    {
      hide Valid, View, Others, SimNext, ServerNext;
      done, rest := LockForPause(schedule);
      if !done {
        return;
      }
      var isSet: bool;
      isSet, rest := TestContinue(rest);
      while !isSet
        invariant Valid() && Unstopped(schedule) && |rest| <= |schedule|
        invariant simPc == if isSet then ClearContinue else WaitContinue
        decreases |rest|
      {
        done, rest := LockForPause(rest);
        if !done {
          return;
        }
        isSet, rest := TestContinue(rest);
      }
      rest := TakeContinue(rest);
      rest := UnlockBkptMutex(rest);
      done := true;
    }

    method MakeMessage(schedule: Schedule) returns (rest: Schedule)
      requires Valid() && simPc == Simulate
      modifies this
      ensures Valid() && simPc == SetReply && enable == old(enable)
      ensures |rest| <= |schedule| && (schedule != [] ==> |rest| < |schedule|)
      ensures messageCount == old(messageCount) + 1 && raised == old(raised) && consumed == old(consumed)
      ensures Ungranted(schedule)
    {
      hide Execute, Sound, Others;
      rest := ServerRuns(schedule);
      ghost var s := View();
      stopMessage, messageCount, simPc := messageCount, messageCount + 1, SetReply;
      Log(s, SimStep);
    }

    method SetReplyMessage(schedule: Schedule) returns (rest: Schedule)
      requires Valid() && simPc == SetReply
      modifies this
      ensures Valid() && simPc == Tidy && |rest| <= |schedule| && enable == old(enable)
      ensures Unstopped(schedule)
    {
      hide Execute, Sound, Others;
      rest := ServerRuns(schedule);
      ghost var s := View();
      replyMessage, simPc := Some(stopMessage), Tidy;
      Log(s, SimStep);
    }

    method RemoveBreakpoints(schedule: Schedule) returns (rest: Schedule)
      requires Valid() && simPc == Tidy
      modifies this
      ensures Valid() && simPc == LockStop && |rest| <= |schedule| && enable == old(enable)
      ensures Unstopped(schedule)
    {
      hide Execute, Sound, Others;
      rest := ServerRuns(schedule);
      ghost var s := View();
      simPc := LockStop;
      Log(s, SimStep);
    }

    /** While events are examined, every Continue that was granted has been consumed. */
    lemma NothingGranted()
      requires Valid()
      ensures simPc != WaitRun ==> consumed <= granted
      ensures simPc == Simulate ==> consumed == granted
    {
      hide Execute, RunFirst, ContinueCount, ResumeCount;
      Facts();
    }

    /**
     * A stop: `setReplyMessage`, `notifyServer`, `pause`.  When it is over, one message has been made
     * and one Continue consumed, and the message, like all before it, has been sent.
     */
    method StopSimulation(schedule: Schedule) returns (done: bool, rest: Schedule)
      requires Valid() && simPc == Simulate
      modifies this
      ensures Valid() && enable == old(enable)
      ensures messageCount == old(messageCount) + 1
      ensures done ==> simPc == Simulate && consumed == old(consumed) + 1 && |sent| == messageCount
      ensures done ==> |rest| < |schedule|
      ensures !done ==> rest == [] && simPc != Simulate && consumed == old(consumed) && SimNext(View()).None?
    {
      hide Valid, View, Others, SimNext, ServerNext;
      NothingGranted();
      rest := MakeMessage(schedule);
      rest := SetReplyMessage(rest);
      rest := RemoveBreakpoints(rest);
      done, rest := NotifyServer(rest);
      if done {
        done, rest := Pause(rest);
        if done {
          NothingGranted();
          Started();
        }
      }
    }

    /**
     * The destructor: as long as debugging is enabled, the end of the simulation is reported again for
     * every Continue, and it is blocked in the end.  A simulation that is not debugged has not waited for a Run.
     */
    method Destructor(schedule: Schedule) returns (rounds: nat)
      requires Valid() && if enable then simPc == Simulate else simPc == WaitRun
      modifies this
      ensures Valid() && enable == old(enable)
      ensures consumed == old(consumed) + rounds
      ensures enable ==> messageCount == old(messageCount) + rounds + 1 && simPc != Simulate && SimNext(View()).None?
      ensures !enable ==> rounds == 0 && View() == old(View())
    {
      hide Valid, View, Others, SimNext, ServerNext;
      rounds := 0;
      var rest := schedule;
      while enable
        invariant Valid() && simPc == old(simPc) && enable == old(enable)
        invariant consumed == old(consumed) + rounds && messageCount == old(messageCount) + rounds
        invariant !enable ==> rounds == 0 && View() == old(View())
        decreases |rest|
      {
        var done: bool;
        done, rest := StopSimulation(rest);
        if !done {
          return;
        }
        rounds := rounds + 1;
      }
    }

    // ---- The server thread -------------------------------------------------------------------------

    /** The simulation thread does what comes next in the schedule. */
    method SimulationRuns(schedule: Schedule) returns (rest: Schedule)
      requires Valid()
      modifies this
      ensures Valid() && ServerRely(old(View()), View())
      ensures View() == if schedule == [] then old(View()) else Others(old(View()), schedule[0], false)
      ensures rest == if schedule == [] then [] else schedule[1..]
    {
      hide Execute, Next, Sound;
      if schedule == [] {
        return [];
      }
      for k := 0 to |schedule[0]|
        invariant Valid() && ServerRely(old(View()), View())
        invariant Others(View(), schedule[0][k..], false) == Others(old(View()), schedule[0], false)
      {
        var a := schedule[0][k];
        var t := Next(View(), a);
        assert schedule[0][k..][1..] == schedule[0][k + 1..];
        if !a.ServerStep? && !a.Receive? && t.Some? {
          ghost var s := View();
          Facts();
          SimLeavesAlone(s, a, t.value);
          Load(t.value);
          Log(s, a);
        }
      }
      return schedule[1..];
    }

    /** What a handler that waits leaves alone. */
    twostate predicate Unanswered()
      reads this
    {
      && sent == old(sent) && freed == old(freed) && accepted == old(accepted)
      && granted == old(granted) && runCalled == old(runCalled)
    }

    /** Takes `stop_mutex`, at the start of `waitForStop` or after a wakeup. */
    method LockForStop(schedule: Schedule) returns (done: bool, rest: Schedule)
      requires Valid() && (serverPc == AcquireStop || serverPc == AwaitStop)
      modifies this
      ensures Valid() && Unanswered() && taken == old(taken) && |rest| <= |schedule|
      ensures done ==> serverPc == TestStopped && (old(serverPc) == AwaitStop ==> |rest| < |schedule|)
      ensures !done ==> rest == [] && serverPc in {AcquireStop, AwaitStop, RewakeStop} && ServerNext(View()).None?
    {
      hide Execute, Sound, Others;
      rest := schedule;
      if serverPc == AcquireStop {
        rest := SimulationRuns(schedule);
      }
      while serverPc == AwaitStop || stopMutex != Free
        invariant Valid() && Unanswered() && taken == old(taken) && |rest| <= |schedule|
        invariant serverPc == old(serverPc)
               || (old(serverPc) == AwaitStop && serverPc == RewakeStop && |rest| < |schedule|)
        decreases |rest|
      {
        if rest == [] {
          return false, rest;
        }
        rest := SimulationRuns(rest);
      }
      TakeStopMutex();
      done := true;
    }

    method TakeStopMutex()
      requires Valid() && (serverPc == AcquireStop || serverPc == RewakeStop) && stopMutex == Free
      modifies this
      ensures Valid() && serverPc == TestStopped && Unanswered() && taken == old(taken)
    {
      hide Execute, Sound, Others;
      ghost var s := View();
      stopMutex, serverPc := Server, TestStopped;
      Log(s, Action.ServerStep);
    }

    /** The test of the wait loop; when the flag is not set, `wait` releases the mutex in the same block. */
    method TestStop(schedule: Schedule) returns (isSet: bool, rest: Schedule)
      requires Valid() && serverPc == TestStopped
      modifies this
      ensures Valid() && Unanswered() && taken == old(taken) && |rest| <= |schedule|
      ensures serverPc == if isSet then ClearStopped else AwaitStop
    {
      hide Execute, Sound, Others;
      rest := SimulationRuns(schedule);
      ghost var s := View();
      isSet := stopped;
      if isSet {
        serverPc := ClearStopped;
      } else {
        stopMutex, serverPc := Free, AwaitStop;
      }
      Log(s, Action.ServerStep);
    }

    method TakeStopped(schedule: Schedule) returns (rest: Schedule)
      requires Valid() && serverPc == ClearStopped
      modifies this
      ensures Valid() && serverPc == ReleaseStop && |rest| <= |schedule|
      ensures Unanswered() && taken == old(taken) + 1
    {
      hide Execute, Sound, Others;
      rest := SimulationRuns(schedule);
      ghost var s := View();
      stopped, taken, serverPc := false, taken + 1, ReleaseStop;
      Log(s, Action.ServerStep);
    }

    method ReleaseStopMutex(schedule: Schedule) returns (rest: Schedule)
      requires Valid() && serverPc == ReleaseStop
      modifies this
      ensures Valid() && serverPc == ReadReply && |rest| <= |schedule|
      ensures Unanswered() && taken == old(taken)
    {
      hide Execute, Sound, Others;
      rest := SimulationRuns(schedule);
      ghost var s := View();
      stopMutex, serverPc := Free, ReadReply;
      Log(s, Action.ServerStep);
    }

    /** `waitForStop`: returns only when `stopped` was set, and takes it back. */
    method WaitForStop(schedule: Schedule) returns (done: bool, rest: Schedule)
      requires Valid() && serverPc == AcquireStop
      modifies this
      ensures Valid() && Unanswered() && |rest| <= |schedule|
      ensures done ==> serverPc == ReadReply && taken == old(taken) + 1
      ensures !done ==> rest == [] && serverPc in {AcquireStop, AwaitStop, RewakeStop} && taken == old(taken)
      ensures !done ==> ServerNext(View()).None?
    {
      hide Valid, View, Others, SimNext, ServerNext;
      done, rest := LockForStop(schedule);
      if !done {
        return;
      }
      var isSet: bool;
      isSet, rest := TestStop(rest);
      while !isSet
        invariant Valid() && Unanswered() && taken == old(taken) && |rest| <= |schedule|
        invariant serverPc == if isSet then ClearStopped else AwaitStop
        decreases |rest|
      {
        done, rest := LockForStop(rest);
        if !done {
          return;
        }
        isSet, rest := TestStop(rest);
      }
      rest := TakeStopped(rest);
      rest := ReleaseStopMutex(rest);
      done := true;
    }

    /** The next message has been sent, and freed; the Continue before it, if any, has been consumed. */
    twostate predicate Answered()
      reads this
    {
      && serverPc == Idle && RunFirst(accepted) && consumed == granted
      && sent == old(sent) + [Some(|old(sent)|)]
      && freed == old(freed) + [Some(|old(freed)|)] && |freed| == |sent|
    }

    /** The NULL branch would leave the generic acknowledgement; the slot is never empty here. */
    method ReadSlot(schedule: Schedule) returns (rest: Schedule)
      requires Valid() && serverPc == ReadReply
      modifies this
      ensures Valid() && serverPc == ServerPc.SendReply && |rest| <= |schedule|
      ensures Unanswered() && taken == old(taken) && reply == Some(|sent|)
    {
      hide Execute, Sound, Others;
      rest := SimulationRuns(schedule);
      SlotIsFresh();
      ghost var s := View();
      reply := if replyMessage == None then None else replyMessage;
      serverPc := ServerPc.SendReply;
      Log(s, Action.ServerStep);
    }

    lemma SlotIsFresh()
      requires Valid() && serverPc == ReadReply
      ensures replyMessage == Some(|sent|)
    {
      hide Execute, RunFirst, ContinueCount, ResumeCount;
      Facts();
    }

    method SendMessage(schedule: Schedule) returns (rest: Schedule)
      requires Valid() && serverPc == ServerPc.SendReply
      modifies this
      ensures Valid() && serverPc == DeleteReply && |rest| <= |schedule|
      ensures sent == old(sent) + [old(reply)] && reply == old(reply)
      ensures freed == old(freed) && accepted == old(accepted) && runCalled == old(runCalled)
      ensures granted == old(granted) && taken == old(taken)
    {
      hide Execute, Sound, Others;
      rest := SimulationRuns(schedule);
      ghost var s := View();
      sent, serverPc := sent + [reply], DeleteReply;
      Log(s, Action.ServerStep);
    }

    method DeleteMessage(schedule: Schedule) returns (rest: Schedule)
      requires Valid() && serverPc == DeleteReply
      modifies this
      ensures Valid() && serverPc == Idle && |rest| <= |schedule|
      ensures freed == old(freed) + [old(reply)]
      ensures sent == old(sent) && accepted == old(accepted) && runCalled == old(runCalled)
      ensures granted == old(granted) && taken == old(taken)
    {
      hide Execute, Sound, Others;
      rest := SimulationRuns(schedule);
      ghost var s := View();
      freed, serverPc := freed + [reply], Idle;
      Log(s, Action.ServerStep);
    }

    /** The end of a handler: the next message is sent and freed. */
    method SendReply(schedule: Schedule) returns (rest: Schedule)
      requires Valid() && serverPc == ReadReply
      modifies this
      ensures Valid() && Answered() && |rest| <= |schedule|
      ensures accepted == old(accepted) && granted == old(granted) && taken == old(taken)
    {
      hide Valid, View, RunFirst, Others, SimNext, ServerNext;
      FreedSoFar();
      rest := ReadSlot(schedule);
      rest := SendMessage(rest);
      rest := DeleteMessage(rest);
      IdleFacts();
    }

    lemma FreedSoFar()
      requires Valid() && serverPc == ReadReply
      ensures |freed| == |sent|
    {
      hide Execute, RunFirst, ContinueCount, ResumeCount;
      Facts();
    }

    /** An idle server has answered everything. */
    lemma IdleFacts()
      requires Valid() && serverPc == Idle
      ensures RunFirst(accepted) && |sent| == ResumeCount(accepted) && consumed == granted
      ensures runCalled <==> RunRequest in accepted
    {
      hide Execute, RunFirst, ContinueCount, ResumeCount;
      Facts();
    }

    method TakeRun(schedule: Schedule) returns (rest: Schedule)
      requires Valid() && serverPc == PrepareRun
      modifies this
      ensures Valid() && serverPc == ReleaseStart && |rest| <= |schedule|
      ensures Unanswered() && taken == old(taken)
    {
      hide Execute, Sound, Others;
      rest := SimulationRuns(schedule);
      ghost var s := View();
      serverPc := ReleaseStart;
      Log(s, Action.ServerStep);
    }

    /** The start lock is still held by the server. */
    lemma GateIsClosed()
      requires Valid() && serverPc == ReleaseStart
      ensures startMutex == Server
    {
      hide Execute, RunFirst, ContinueCount, ResumeCount;
      Facts();
    }

    method OpenGate(schedule: Schedule) returns (rest: Schedule)
      requires Valid() && serverPc == ReleaseStart
      modifies this
      ensures Valid() && serverPc == AcquireStop && |rest| <= |schedule|
      ensures Unanswered() && taken == old(taken)
    {
      hide Execute, Sound, Others;
      rest := SimulationRuns(schedule);
      GateIsClosed();
      ghost var s := View();
      startMutex, serverPc := Free, AcquireStop;
      Log(s, Action.ServerStep);
    }

    /** `handleRun`: opens the start gate and answers with the first stop. */
    method HandleRun(schedule: Schedule) returns (done: bool, rest: Schedule)
      requires Valid() && serverPc == PrepareRun
      modifies this
      ensures Valid() && |rest| <= |schedule| && accepted == old(accepted) && granted == old(granted)
      ensures done ==> Answered() && taken == old(taken) + 1
      ensures !done ==> rest == [] && serverPc in {AcquireStop, AwaitStop, RewakeStop} && Unanswered()
      ensures !done ==> ServerNext(View()).None?
    {
      hide Valid, View, RunFirst, Others, SimNext, ServerNext;
      rest := TakeRun(schedule);
      rest := OpenGate(rest);
      done, rest := WaitForStop(rest);
      if done {
        rest := SendReply(rest);
      }
    }

    method PrepareToContinue(schedule: Schedule) returns (rest: Schedule)
      requires Valid() && serverPc == PrepareContinue
      modifies this
      ensures Valid() && serverPc == AcquireBkpt && |rest| <= |schedule|
      ensures Unanswered() && taken == old(taken)
    {
      hide Execute, Sound, Others;
      rest := SimulationRuns(schedule);
      ghost var s := View();
      serverPc := AcquireBkpt;
      Log(s, Action.ServerStep);
    }

    method LockBkptMutex(schedule: Schedule) returns (done: bool, rest: Schedule)
      requires Valid() && serverPc == AcquireBkpt
      modifies this
      ensures Valid() && Unanswered() && taken == old(taken) && |rest| <= |schedule|
      ensures if done then serverPc == SetContinue else rest == [] && serverPc == AcquireBkpt
      ensures !done ==> ServerNext(View()).None?
    {
      hide Execute, Sound, Others;
      rest := SimulationRuns(schedule);
      while bkptMutex != Free
        invariant Valid() && Unanswered() && serverPc == AcquireBkpt && taken == old(taken) && |rest| <= |schedule|
        decreases |rest|
      {
        if rest == [] {
          return false, rest;
        }
        rest := SimulationRuns(rest);
      }
      ghost var s := View();
      bkptMutex, serverPc := Server, SetContinue;
      Log(s, Action.ServerStep);
      done := true;
    }

    method GrantContinue(schedule: Schedule) returns (rest: Schedule)
      requires Valid() && serverPc == SetContinue
      modifies this
      ensures Valid() && serverPc == ReleaseBkpt && |rest| <= |schedule|
      ensures granted == old(granted) + 1 && sent == old(sent) && freed == old(freed) && accepted == old(accepted)
      ensures taken == old(taken) && runCalled == old(runCalled)
    {
      hide Execute, Sound, Others;
      rest := SimulationRuns(schedule);
      ghost var s := View();
      continueCommand, granted, serverPc := true, granted + 1, ReleaseBkpt;
      Log(s, Action.ServerStep);
    }

    method ReleaseBkptMutex(schedule: Schedule) returns (rest: Schedule)
      requires Valid() && serverPc == ReleaseBkpt
      modifies this
      ensures Valid() && serverPc == NotifyBkpt && |rest| <= |schedule|
      ensures Unanswered() && taken == old(taken)
    {
      hide Execute, Sound, Others;
      rest := SimulationRuns(schedule);
      ghost var s := View();
      bkptMutex, serverPc := Free, NotifyBkpt;
      Log(s, Action.ServerStep);
    }

    method NotifyPausedSimulation(schedule: Schedule) returns (rest: Schedule)
      requires Valid() && serverPc == NotifyBkpt
      modifies this
      ensures Valid() && serverPc == AcquireStop && |rest| <= |schedule|
      ensures Unanswered() && taken == old(taken)
    {
      hide Execute, Sound, Others;
      rest := SimulationRuns(schedule);
      ghost var s := View();
      if simPc == WaitContinue { simPc := WakeContinue; }
      serverPc := AcquireStop;
      Log(s, Action.ServerStep);
    }

    /** `handleContinue`, and `handleNext` behind its breakpoint: grants one Continue, answers with one stop. */
    method HandleContinue(schedule: Schedule) returns (done: bool, rest: Schedule)
      requires Valid() && serverPc == PrepareContinue
      modifies this
      ensures Valid() && |rest| <= |schedule| && accepted == old(accepted)
      ensures done ==> Answered() && granted == old(granted) + 1 && taken == old(taken) + 1
      ensures !done ==> rest == [] && serverPc != Idle && sent == old(sent) && ServerNext(View()).None?
    {
      hide Valid, View, RunFirst, Others, SimNext, ServerNext;
      rest := PrepareToContinue(schedule);
      done, rest := LockBkptMutex(rest);
      if !done {
        return;
      }
      rest := GrantContinue(rest);
      rest := ReleaseBkptMutex(rest);
      rest := NotifyPausedSimulation(rest);
      done, rest := WaitForStop(rest);
      if done {
        rest := SendReply(rest);
      }
    }

    /** A request that starts a handler which waits. */
    method StartHandler(r: Request)
      requires Valid() && serverPc == Idle && r != Query && (r == RunRequest ==> !runCalled)
      modifies this
      ensures Valid() && serverPc == if r == RunRequest then PrepareRun else PrepareContinue
      ensures accepted == old(accepted) + [r] && sent == old(sent)
    {
      hide Execute, Sound, Others;
      ghost var s := View();
      accepted := accepted + [r];
      if r == RunRequest {
        runCalled, serverPc := true, PrepareRun;
      } else {
        serverPc := PrepareContinue;
      }
      Log(s, Receive(r));
    }

    /** A request that is answered on the spot. */
    method HandleAtOnce(r: Request, schedule: Schedule) returns (rest: Schedule)
      requires Valid() && serverPc == Idle && (r == Query || (r == RunRequest && runCalled))
      modifies this
      ensures Valid() && serverPc == Idle && |rest| <= |schedule|
      ensures accepted == old(accepted) + [r] && sent == old(sent)
    {
      hide Valid, View, Others, SimNext, ServerNext;
      TakeQuery(r);
      rest := AnswerQuery(schedule);
    }

    method TakeQuery(r: Request)
      requires Valid() && serverPc == Idle && (r == Query || (r == RunRequest && runCalled))
      modifies this
      ensures Valid() && serverPc == Handle && accepted == old(accepted) + [r] && sent == old(sent)
    {
      hide Execute, Sound, Others;
      ghost var s := View();
      accepted, serverPc := accepted + [r], Handle;
      Log(s, Receive(r));
    }

    method AnswerQuery(schedule: Schedule) returns (rest: Schedule)
      requires Valid() && serverPc == Handle
      modifies this
      ensures Valid() && serverPc == Idle && |rest| <= |schedule|
      ensures Unanswered()
    {
      hide Execute, Sound, Others;
      rest := SimulationRuns(schedule);
      ghost var s := View();
      serverPc := Idle;
      Log(s, Action.ServerStep);
    }

    /** `parseRequest`: only the first Run and every Continue and Next are answered with a stop. */
    method ParseRequest(r: Request, schedule: Schedule) returns (done: bool, rest: Schedule)
      requires Valid() && serverPc == Idle
      modifies this
      ensures Valid() && accepted == old(accepted) + [r] && |rest| <= |schedule|
      ensures done ==> serverPc == Idle
      ensures done ==> |sent| == |old(sent)| + if Resumes(old(accepted), r) then 1 else 0
      ensures !done ==> rest == [] && serverPc != Idle && sent == old(sent) && ServerNext(View()).None?
    {
      hide Valid, View, RunFirst, Others, SimNext, ServerNext;
      IdleFacts();
      if r == Query || (r == RunRequest && runCalled) {
        rest := HandleAtOnce(r, schedule);
        done := true;
      } else {
        StartHandler(r);
        if r == RunRequest {
          done, rest := HandleRun(schedule);
        } else {
          done, rest := HandleContinue(schedule);
        }
      }
    }

    /** `requestThread` on a list of requests: when it gets through, every request to resume is answered. */
    method RequestThread(requests: seq<Request>, schedule: Schedule) returns (done: bool)
      requires Valid() && serverPc == Idle
      modifies this
      ensures Valid() && done == (serverPc == Idle)
      ensures accepted <= old(accepted) + requests && (done ==> accepted == old(accepted) + requests)
      ensures done ==> RunFirst(accepted) && |sent| == ResumeCount(accepted)
      ensures !done ==> ServerNext(View()).None?
    {
      hide Execute, Sound, RunFirst, Others;
      var rest := schedule;
      for k := 0 to |requests|
        invariant Valid() && serverPc == Idle && accepted == old(accepted) + requests[..k]
      {
        assert requests[..k] + [requests[k]] == requests[..k + 1];
        done, rest := ParseRequest(requests[k], rest);
        if !done {
          return;
        }
      }
      assert requests[..|requests|] == requests;
      IdleFacts();
      done := true;
    }
  }
}
