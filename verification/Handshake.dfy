/**
 * The stop/continue protocol between the simulation thread and the request server thread of the
 * debugger, as a state machine over their atomic steps.
 */
module Handshake {
  import opened Bytes

  /** Kinds of client request; `Query` stands for every request that does not resume the simulation. */
  datatype Request = RunRequest | ContinueRequest | NextRequest | Query

  /** What the simulation thread does next. */
  datatype SimPc =
    | WaitRun | HoldStart                                     // waitForRunCommand
    | Simulate                                                // observers update and examine the data manager
    | SetReply | Tidy                                         // a stop: reply_message, temporary breakpoints
    | LockStop | SetStopped | UnlockStop | NotifyStop         // notifyServer
    | LockBkpt | CheckContinue | WaitContinue | WakeContinue  // pause
    | ClearContinue | UnlockBkpt

  /** What the server thread does next. */
  datatype ServerPc =
    | Idle | Handle                                           // requestThread, handlers that do not wait
    | PrepareRun | ReleaseStart                               // handleRun
    | PrepareContinue | AcquireBkpt | SetContinue             // handleNext, handleContinue
    | ReleaseBkpt | NotifyBkpt
    | AcquireStop | TestStopped | AwaitStop | RewakeStop      // waitForStop
    | ClearStopped | ReleaseStop
    | ReadReply | SendReply | DeleteReply

  datatype Owner = Free | Simulation | Server

  /**
   * A message is named by its place in the order of allocation; `None` is the NULL pointer.  The last
   * fields are a log: messages sent and freed, requests accepted, and how often `stopped` was raised and
   * taken back, and `continue_command` granted and consumed.
   */
  datatype State = State(
    sim: SimPc,
    server: ServerPc,
    start: Owner,
    bkpt: Owner,
    stop: Owner,
    stopped: bool,
    continueCommand: bool,
    runCalled: bool,
    message: nat,
    made: nat,
    slot: Option<nat>,
    reply: Option<nat>,
    sent: seq<Option<nat>>,
    freed: seq<Option<nat>>,
    accepted: seq<Request>,
    raised: nat,
    taken: nat,
    granted: nat,
    consumed: nat)

  /** The server has taken `start_mutex` before its thread runs. */
  const INITIAL := 
    State(WaitRun, Idle, Server, Free, Free, false, false, false, 0, 0, None, None, [], [], [], 0, 0, 0, 0)

  /** The next step of the simulation thread, unless it is blocked. */
  function SimNext(s: State): Option<State> {
    match s.sim
    case WaitRun => if s.start == Free then Some(s.(start := Simulation, sim := HoldStart)) else None
    case HoldStart => Some(s.(start := Free, sim := Simulate))
    case Simulate => Some(s.(message := s.made, made := s.made + 1, sim := SetReply))
    case SetReply => Some(s.(slot := Some(s.message), sim := Tidy))
    case Tidy => Some(s.(sim := LockStop))
    case LockStop => if s.stop == Free then Some(s.(stop := Simulation, sim := SetStopped)) else None
    case SetStopped => Some(s.(stopped := true, raised := s.raised + 1, sim := UnlockStop))
    case UnlockStop => Some(s.(stop := Free, sim := NotifyStop))
    case NotifyStop => Some(s.(server := if s.server == AwaitStop then RewakeStop else s.server, sim := LockBkpt))
    case LockBkpt => if s.bkpt == Free then Some(s.(bkpt := Simulation, sim := CheckContinue)) else None
    case CheckContinue =>
      if s.continueCommand then Some(s.(sim := ClearContinue)) else Some(s.(bkpt := Free, sim := WaitContinue))
    case WaitContinue => None
    case WakeContinue => if s.bkpt == Free then Some(s.(bkpt := Simulation, sim := CheckContinue)) else None
    case ClearContinue => Some(s.(continueCommand := false, consumed := s.consumed + 1, sim := UnlockBkpt))
    case UnlockBkpt => Some(s.(bkpt := Free, sim := Simulate))
  }

  /** The next step of the server thread, unless it is blocked or has no request. */
  function ServerNext(s: State): Option<State> {
    match s.server
    case Idle => None
    case Handle => Some(s.(server := Idle))
    case PrepareRun => Some(s.(server := ReleaseStart))
    case ReleaseStart => if s.start == Server then Some(s.(start := Free, server := AcquireStop)) else None
    case PrepareContinue => Some(s.(server := AcquireBkpt))
    case AcquireBkpt => if s.bkpt == Free then Some(s.(bkpt := Server, server := SetContinue)) else None
    case SetContinue => Some(s.(continueCommand := true, granted := s.granted + 1, server := ReleaseBkpt))
    case ReleaseBkpt => Some(s.(bkpt := Free, server := NotifyBkpt))
    case NotifyBkpt => Some(s.(sim := if s.sim == WaitContinue then WakeContinue else s.sim, server := AcquireStop))
    case AcquireStop => if s.stop == Free then Some(s.(stop := Server, server := TestStopped)) else None
    case TestStopped =>
      if s.stopped then Some(s.(server := ClearStopped)) else Some(s.(stop := Free, server := AwaitStop))
    case AwaitStop => None
    case RewakeStop => if s.stop == Free then Some(s.(stop := Server, server := TestStopped)) else None
    case ClearStopped => Some(s.(stopped := false, taken := s.taken + 1, server := ReleaseStop))
    case ReleaseStop => Some(s.(stop := Free, server := ReadReply))
    case ReadReply => Some(s.(reply := s.slot, server := SendReply))
    case SendReply => Some(s.(sent := s.sent + [s.reply], server := DeleteReply))
    case DeleteReply => Some(s.(freed := s.freed + [s.reply], server := Idle))
  }

  /** A request arrives; a second Run is answered on the spot. */
  function Accept(s: State, r: Request): Option<State> {
    if s.server != Idle then None
    else
      var t := s.(accepted := s.accepted + [r]);
      match r
      case RunRequest =>
        if s.runCalled then Some(t.(server := Handle)) else Some(t.(runCalled := true, server := PrepareRun))
      case ContinueRequest => Some(t.(server := PrepareContinue))
      case NextRequest => Some(t.(server := PrepareContinue))
      case Query => Some(t.(server := Handle))
  }

  datatype Action =
    | SimStep                 // at Simulate: an event stops the simulation
    | Examine                 // at Simulate: an event does not
    | ServerStep
    | Receive(r: Request)
    | SimWakes                // spurious wakeup
    | ServerWakes             // spurious wakeup

  function Next(s: State, a: Action): Option<State> {
    match a
    case SimStep => SimNext(s)
    case Examine => if s.sim == Simulate then Some(s) else None
    case ServerStep => ServerNext(s)
    case Receive(r) => Accept(s, r)
    case SimWakes => if s.sim == WaitContinue then Some(s.(sim := WakeContinue)) else None
    case ServerWakes => if s.server == AwaitStop then Some(s.(server := RewakeStop)) else None
  }

  /** The state after a run from `s`, if every step of it is possible. */
  function Execute(s: State, run: seq<Action>): Option<State>
    decreases |run|
  {
    if run == [] then Some(s)
    else
      match Next(s, run[0])
      case None => None
      case Some(t) => Execute(t, run[1..])
  }

  lemma {:induction false} OneMoreStep(s: State, run: seq<Action>, a: Action)
    requires Execute(s, run).Some?
    ensures Execute(s, run + [a]) == Next(Execute(s, run).value, a)
    decreases |run|
  {
    hide Next;
    if run == [] {
      assert (run + [a])[1..] == [];
    } else {
      assert (run + [a])[1..] == run[1..] + [a];
      OneMoreStep(Next(s, run[0]).value, run[1..], a);
    }
  }

  // ---- The requests of a run ------------------------------------------------------------

  predicate Resumes(before: seq<Request>, r: Request) {
    r == ContinueRequest || r == NextRequest || (r == RunRequest && RunRequest !in before)
  }

  /** How many requests of a run ask the simulation to resume. */
  function ResumeCount(rs: seq<Request>): nat {
    if rs == [] then 0
    else ResumeCount(rs[..|rs| - 1]) + if Resumes(rs[..|rs| - 1], rs[|rs| - 1]) then 1 else 0
  }

  /** The client asks to continue only after it has asked to run. */
  predicate RunFirst(rs: seq<Request>) {
    forall i :: 0 <= i < |rs| && (rs[i] == ContinueRequest || rs[i] == NextRequest) ==> RunRequest in rs[..i]
  }

  /** How many requests ask it to continue. */
  function ContinueCount(rs: seq<Request>): nat {
    if rs == [] then 0
    else
      var r := rs[|rs| - 1];
      ContinueCount(rs[..|rs| - 1]) + if r == ContinueRequest || r == NextRequest then 1 else 0
  }

  lemma OneMoreRequest(rs: seq<Request>, r: Request)
    ensures ResumeCount(rs + [r]) == ResumeCount(rs) + if Resumes(rs, r) then 1 else 0
    ensures ContinueCount(rs + [r]) == ContinueCount(rs) + if r == ContinueRequest || r == NextRequest then 1 else 0
    ensures RunRequest in rs + [r] <==> RunRequest in rs || r == RunRequest
    ensures RunFirst(rs + [r]) <==> RunFirst(rs) && (r == ContinueRequest || r == NextRequest ==> RunRequest in rs)
  {
    assert (rs + [r])[..|rs|] == rs;
    assert forall i :: 0 <= i <= |rs| ==> (rs + [r])[..i] == rs[..i];
    assert (rs + [r])[|rs|] == r;
    assert forall i :: 0 <= i < |rs| ==> (rs + [r])[i] == rs[i];
  }

  // ---- The invariant ----------------------------------------------------------------------

  /** A mutex has an owner exactly while that thread is between its lock and its unlock. */
  predicate LocksHeld(s: State) {
    && (s.start == Simulation <==> s.sim == HoldStart)
    && (s.bkpt == Simulation <==> s.sim in {CheckContinue, ClearContinue, UnlockBkpt})
    && (s.bkpt == Server <==> s.server in {SetContinue, ReleaseBkpt})
    && (s.stop == Simulation <==> s.sim in {SetStopped, UnlockStop})
    && (s.stop == Server <==> s.server in {TestStopped, ClearStopped, ReleaseStop})
  }

  /** A thread that sleeps although its flag is set is about to be notified. */
  predicate NoLostWakeup(s: State) {
    && (s.server == AwaitStop && s.stopped ==> s.sim in {UnlockStop, NotifyStop})
    && (s.sim == WaitContinue && s.continueCommand ==> s.server in {ReleaseBkpt, NotifyBkpt})
  }

  /** The server answers or handles; it has not set `continue_command` for this request. */
  predicate ServerBefore(pc: ServerPc) {
    pc in {Idle, Handle, PrepareContinue, AcquireBkpt, SetContinue}
  }

  predicate ServerWaiting(pc: ServerPc) {
    pc in {NotifyBkpt, AcquireStop, TestStopped, AwaitStop, RewakeStop}
  }

  predicate ServerReplying(pc: ServerPc) {
    pc in {ReleaseStop, ReadReply, SendReply, DeleteReply}
  }

  predicate SimRunning(pc: SimPc) {
    pc in {UnlockBkpt, Simulate, SetReply, Tidy, LockStop, SetStopped}
  }

  predicate SimPausing(pc: SimPc) {
    pc in {UnlockStop, NotifyStop, LockBkpt, CheckContinue, WaitContinue, WakeContinue}
  }

  /** Whose turn it is. */
  datatype Phase = BeforeRun | Released | Running | Stopped | Answered | Continued

  predicate InPhase(s: State, phase: Phase) {
    match phase
    case BeforeRun =>
      && s.sim == WaitRun && s.start == Server && !s.stopped && !s.continueCommand
      && s.server in (if s.runCalled then {PrepareRun, ReleaseStart} else {Idle, Handle})
    case Released =>
      && s.sim in {WaitRun, HoldStart} && s.start != Server && !s.stopped && !s.continueCommand && s.runCalled
      && ServerWaiting(s.server) && s.server != NotifyBkpt
    case Running =>
      && SimRunning(s.sim) && s.start == Free && !s.stopped && !s.continueCommand && s.runCalled
      && ServerWaiting(s.server)
    case Stopped =>
      && SimPausing(s.sim) && s.start == Free && s.stopped && !s.continueCommand && s.runCalled
      && (ServerWaiting(s.server) || s.server == ClearStopped)
    case Answered =>
      && SimPausing(s.sim) && s.start == Free && !s.stopped && !s.continueCommand && s.runCalled
      && (ServerBefore(s.server) || ServerReplying(s.server))
    case Continued =>
      && (SimPausing(s.sim) || s.sim == ClearContinue) && s.start == Free
      && !s.stopped && s.continueCommand && s.runCalled
      && (ServerWaiting(s.server) || s.server == ReleaseBkpt)
  }

  /** The message that the simulation has made and the server has not sent, if there is one. */
  predicate MessageWaits(s: State) {
    || s.sim in {SetReply, Tidy, LockStop, SetStopped}
    || s.stopped
    || s.server in {ReleaseStop, ReadReply, SendReply}
  }

  /** Messages 0, 1, 2 and so on, each once. */
  predicate Numbered(ms: seq<Option<nat>>) {
    forall i :: 0 <= i < |ms| ==> ms[i] == Some(i)
  }

  /** Messages are sent in the order in which they were made, and freed after that. */
  predicate InOrder(s: State) {
    && s.made == |s.sent| + (if MessageWaits(s) then 1 else 0)
    && (s.sim == SetReply ==> s.message == |s.sent|)
    && (MessageWaits(s) && s.sim != SetReply ==> s.slot == Some(|s.sent|))
    && (s.server == SendReply ==> s.reply == Some(|s.sent|))
    && (s.server == DeleteReply ==> |s.sent| > 0 && s.reply == Some(|s.sent| - 1))
    && |s.freed| == |s.sent| - (if s.server == DeleteReply then 1 else 0)
    && Numbered(s.sent) && Numbered(s.freed)
  }

  predicate ServerOwesReply(pc: ServerPc) {
    pc !in {Idle, Handle, DeleteReply}
  }

  predicate Answers(s: State) {
    && (s.runCalled <==> RunRequest in s.accepted)
    && ResumeCount(s.accepted) == |s.sent| + if ServerOwesReply(s.server) then 1 else 0
  }

  /** The simulation has made a stop message and has not been allowed to go on since. */
  predicate StopPending(pc: SimPc) {
    pc !in {WaitRun, HoldStart, Simulate, UnlockBkpt}
  }

  /** What one thread gives, the other takes once: flags, stops, requests and messages balance. */
  predicate Balanced(s: State) {
    && s.granted == s.consumed + (if s.continueCommand then 1 else 0)
    && s.raised == s.taken + (if s.stopped then 1 else 0)
    && ContinueCount(s.accepted)
       == s.granted + (if s.server in {PrepareContinue, AcquireBkpt, SetContinue} then 1 else 0)
    && s.made == s.consumed + (if StopPending(s.sim) then 1 else 0)
    && s.made == s.raised + (if s.sim in {SetReply, Tidy, LockStop, SetStopped} then 1 else 0)
    && s.taken == |s.sent| + (if s.server in {ReleaseStop, ReadReply, SendReply} then 1 else 0)
  }

  function PhaseOf(s: State): Phase {
    if s.start == Server then BeforeRun
    else if s.sim == WaitRun || s.sim == HoldStart then Released
    else if s.continueCommand then Continued
    else if s.stopped then Stopped
    else if SimRunning(s.sim) then Running
    else Answered
  }

  predicate Invariant(s: State) {
    LocksHeld(s) && NoLostWakeup(s) && InPhase(s, PhaseOf(s)) && InOrder(s) && Answers(s) && Balanced(s)
  }

  /** Where a Continue or Next without a Run before it leaves both threads. */
  predicate Stuck(s: State) {
    && s.sim == WaitRun && s.start == Server && s.bkpt != Simulation && s.stop != Simulation
    && !s.stopped && s.sent == s.freed == []
    && (s.server in {PrepareContinue, AcquireBkpt, SetContinue, ReleaseBkpt, NotifyBkpt}
        || s.server in {AcquireStop, TestStopped, AwaitStop, RewakeStop})
  }

  /** What holds in every reachable state. */
  predicate Sound(s: State) {
    && (RunFirst(s.accepted) ==> Invariant(s))
    && (!RunFirst(s.accepted) ==> Stuck(s))
  }

  // ---- Every step keeps it -----------------------------------------------------------------

  lemma SimKeepsPhase(s: State, t: State)
    requires LocksHeld(s) && NoLostWakeup(s) && InPhase(s, PhaseOf(s)) && SimNext(s) == Some(t)
    ensures LocksHeld(t) && NoLostWakeup(t) && InPhase(t, PhaseOf(t))
  {
    match s.sim
    case WaitRun | HoldStart =>
    case Simulate | SetReply | Tidy =>
    case LockStop =>
    case SetStopped =>
    case UnlockStop =>
    case NotifyStop =>
    case LockBkpt | WakeContinue =>
    case CheckContinue =>
    case WaitContinue =>
    case ClearContinue =>
    case UnlockBkpt =>
  }

  lemma ServerKeepsPhase(s: State, t: State)
    requires LocksHeld(s) && NoLostWakeup(s) && InPhase(s, PhaseOf(s)) && ServerNext(s) == Some(t)
    ensures LocksHeld(t) && NoLostWakeup(t) && InPhase(t, PhaseOf(t))
  {
    match s.server
    case SetContinue =>
    case ReleaseBkpt =>
    case NotifyBkpt =>
    case TestStopped =>
    case ClearStopped =>
    case ReleaseStop =>
    case SendReply =>
    case DeleteReply =>
    case AcquireStop | RewakeStop =>
    case Idle | Handle | AwaitStop | ReadReply =>
    case PrepareRun | ReleaseStart | PrepareContinue | AcquireBkpt =>
  }

  /** What the phase says about messages. */
  lemma MessageFacts(s: State)
    requires InPhase(s, PhaseOf(s))
    ensures s.stopped ==> s.sim !in {SetReply, Tidy, LockStop, SetStopped, Simulate}
    ensures s.stopped ==> s.server !in {ReleaseStop, ReadReply, SendReply, DeleteReply}
    ensures s.server in {ClearStopped, ReleaseStop, ReadReply, SendReply, DeleteReply} ==>
      s.sim !in {SetReply, Tidy, LockStop, SetStopped, Simulate}
    ensures s.server == ClearStopped ==> s.stopped
  {
  }

  lemma SimKeepsAnswers(s: State, t: State)
    requires Answers(s) && SimNext(s) == Some(t)
    ensures Answers(t) && t.accepted == s.accepted
  {
    hide ResumeCount;
    match s.sim
    case WaitRun | HoldStart =>
    case Simulate | SetReply | Tidy =>
    case LockStop =>
    case SetStopped =>
    case UnlockStop =>
    case NotifyStop =>
    case LockBkpt | WakeContinue =>
    case CheckContinue =>
    case WaitContinue =>
    case ClearContinue =>
    case UnlockBkpt =>
  }

  lemma SimKeepsOrder(s: State, t: State)
    requires InPhase(s, PhaseOf(s)) && InOrder(s) && SimNext(s) == Some(t)
    ensures InOrder(t)
  {
    MessageFacts(s);
    hide Numbered, ResumeCount, ContinueCount, InPhase, PhaseOf;
    match s.sim
    case WaitRun | HoldStart =>
    case Simulate | SetReply | Tidy =>
    case LockStop =>
    case SetStopped =>
    case UnlockStop =>
    case NotifyStop =>
    case LockBkpt | WakeContinue =>
    case CheckContinue =>
    case WaitContinue =>
    case ClearContinue =>
    case UnlockBkpt =>
  }

  lemma ServerKeepsAnswers(s: State, t: State)
    requires Answers(s) && ServerNext(s) == Some(t)
    ensures Answers(t) && t.accepted == s.accepted
  {
    hide ResumeCount;
    match s.server
    case SetContinue =>
    case ReleaseBkpt =>
    case NotifyBkpt =>
    case TestStopped =>
    case ClearStopped =>
    case ReleaseStop =>
    case SendReply =>
    case DeleteReply =>
    case AcquireStop | RewakeStop =>
    case Idle | Handle | AwaitStop | ReadReply =>
    case PrepareRun | ReleaseStart | PrepareContinue | AcquireBkpt =>
  }

  lemma ServerKeepsOrder(s: State, t: State)
    requires InPhase(s, PhaseOf(s)) && InOrder(s) && ServerNext(s) == Some(t)
    ensures InOrder(t)
  {
    MessageFacts(s);
    hide Numbered, InPhase, PhaseOf;
    match s.server
    case SetContinue =>
    case ReleaseBkpt =>
    case NotifyBkpt =>
    case TestStopped =>
    case ClearStopped =>
    case ReleaseStop =>
    case SendReply => NumberedPush(s.sent, s.reply);
    case DeleteReply => NumberedPush(s.freed, s.reply);
    case AcquireStop | RewakeStop =>
    case Idle | Handle | AwaitStop | ReadReply =>
    case PrepareRun | ReleaseStart | PrepareContinue | AcquireBkpt =>
  }

  /** A flag is down before it is set, and up before it is taken back. */
  lemma FlagsWhenSet(s: State)
    requires InPhase(s, PhaseOf(s))
    ensures (s.sim == SetStopped ==> !s.stopped) && (s.server == ClearStopped ==> s.stopped)
    ensures (s.server == SetContinue ==> !s.continueCommand) && (s.sim == ClearContinue ==> s.continueCommand)
  {
  }

  lemma SimKeepsBalance(s: State, t: State)
    requires InPhase(s, PhaseOf(s)) && Balanced(s) && SimNext(s) == Some(t)
    ensures Balanced(t)
  {
    FlagsWhenSet(s);
    hide ContinueCount, InPhase, PhaseOf;
    match s.sim
    case WaitRun | HoldStart =>
    case Simulate | SetReply | Tidy =>
    case LockStop =>
    case SetStopped =>
    case UnlockStop =>
    case NotifyStop =>
    case LockBkpt | WakeContinue =>
    case CheckContinue =>
    case WaitContinue =>
    case ClearContinue =>
    case UnlockBkpt =>
  }

  lemma ServerKeepsBalance(s: State, t: State)
    requires InPhase(s, PhaseOf(s)) && Balanced(s) && ServerNext(s) == Some(t)
    ensures Balanced(t)
  {
    FlagsWhenSet(s);
    hide ContinueCount, InPhase, PhaseOf;
    match s.server
    case SetContinue =>
    case ReleaseBkpt =>
    case NotifyBkpt =>
    case TestStopped =>
    case ClearStopped =>
    case ReleaseStop =>
    case SendReply =>
    case DeleteReply =>
    case AcquireStop | RewakeStop =>
    case Idle | Handle | AwaitStop | ReadReply =>
    case PrepareRun | ReleaseStart | PrepareContinue | AcquireBkpt =>
  }

  lemma NumberedPush(ms: seq<Option<nat>>, m: Option<nat>)
    requires Numbered(ms) && m == Some(|ms|)
    ensures Numbered(ms + [m])
  {
  }

  lemma {:induction false} NothingResumed(rs: seq<Request>)
    requires RunFirst(rs) && RunRequest !in rs
    ensures ResumeCount(rs) == 0
  {
    if rs != [] {
      OneMoreRequest(rs[..|rs| - 1], rs[|rs| - 1]);
      assert rs[..|rs| - 1] + [rs[|rs| - 1]] == rs;
      NothingResumed(rs[..|rs| - 1]);
    }
  }

  lemma AcceptKeeps(s: State, r: Request, t: State)
    requires RunFirst(s.accepted) && Invariant(s) && Accept(s, r) == Some(t)
    ensures Sound(t)
  {
    hide RunFirst, ResumeCount, ContinueCount, Numbered;
    OneMoreRequest(s.accepted, r);
    if RunRequest !in s.accepted {
      NothingResumed(s.accepted);
    }
  }

  lemma StuckKeeps(s: State, a: Action, t: State)
    requires Stuck(s) && Next(s, a) == Some(t)
    ensures Stuck(t) && t.accepted == s.accepted
  {
  }

  lemma ThreadKeeps(s: State, a: Action, t: State)
    requires Invariant(s) && !a.Receive? && Next(s, a) == Some(t)
    ensures Invariant(t) && t.accepted == s.accepted
  {
    hide InPhase, PhaseOf, Numbered, ResumeCount, LocksHeld, NoLostWakeup, InOrder, Answers, Balanced;
    hide SimNext, ServerNext;
    match a
    case SimStep =>
      SimKeepsPhase(s, t);
      SimKeepsOrder(s, t);
      SimKeepsAnswers(s, t);
      SimKeepsBalance(s, t);
    case Examine =>
    case ServerStep =>
      ServerKeepsPhase(s, t);
      ServerKeepsOrder(s, t);
      ServerKeepsAnswers(s, t);
      ServerKeepsBalance(s, t);
    case SimWakes => WakeKeeps(s, t);
    case ServerWakes => WakeKeeps(s, t);
  }

  lemma WakeKeeps(s: State, t: State)
    requires Invariant(s)
    requires (s.sim == WaitContinue && t == s.(sim := WakeContinue))
          || (s.server == AwaitStop && t == s.(server := RewakeStop))
    ensures Invariant(t)
  {
    hide Numbered, ResumeCount, ContinueCount;
  }

  /** The invariant holds after every run: any requests, any interleaving, any spurious wakeups. */
  lemma {:induction false} RunKeeps(s: State, run: seq<Action>, t: State)
    requires Sound(s) && Execute(s, run) == Some(t)
    ensures Sound(t)
    decreases |run|
  {
    hide Invariant, Stuck, RunFirst, Next;
    if run != [] {
      var next := Next(s, run[0]).value;
      StepKeeps(s, run[0], next);
      RunKeeps(next, run[1..], t);
    }
  }

  lemma StepKeeps(s: State, a: Action, t: State)
    requires Sound(s) && Next(s, a) == Some(t)
    ensures Sound(t)
  {
    hide Invariant, Stuck, RunFirst;
    if !RunFirst(s.accepted) {
      StuckKeeps(s, a, t);
    } else if a.Receive? {
      AcceptKeeps(s, a.r, t);
    } else {
      ThreadKeeps(s, a, t);
    }
  }

  lemma Reachable(run: seq<Action>, s: State)
    requires Execute(INITIAL, run) == Some(s)
    ensures Sound(s)
  {
    hide Execute;
    RunKeeps(INITIAL, run, s);
  }

  // ---- Safety ----------------------------------------------------------------------------------

  /** The simulation thread is inside an observer that reads or writes the data manager. */
  predicate SimExamines(pc: SimPc) {
    pc in {Simulate, SetReply, Tidy}
  }

  /** The server thread is inside a handler that reads or writes the data manager. */
  predicate ServerExamines(pc: ServerPc) {
    pc in {Handle, PrepareRun, PrepareContinue}
  }

  /** The two flags are never both set, and the data manager needs no lock. */
  lemma Safety(run: seq<Action>, s: State)
    requires Execute(INITIAL, run) == Some(s) && RunFirst(s.accepted)
    ensures !(s.stopped && s.continueCommand)
    ensures !(SimExamines(s.sim) && ServerExamines(s.server))
  {
    hide Execute, RunFirst, Numbered;
    Reachable(run, s);
  }

  /**
   * The k-th request to resume is answered by the k-th stop message.  The slot is fresh whenever
   * it is read, the NULL pointer is never found in it, and no message is sent or freed twice.
   */
  lemma ExactlyOnce(run: seq<Action>, s: State)
    requires Execute(INITIAL, run) == Some(s) && RunFirst(s.accepted)
    ensures forall k :: 0 <= k < |s.sent| ==> s.sent[k] == Some(k)
    ensures s.freed <= s.sent && |s.sent| <= s.made <= |s.sent| + 1
    ensures ResumeCount(s.accepted) == |s.sent| + if ServerOwesReply(s.server) then 1 else 0
    ensures s.server == ReadReply ==> s.made == |s.sent| + 1 && s.slot == Some(|s.sent|)
  {
    hide Execute, RunFirst, ResumeCount;
    Reachable(run, s);
  }

  /**
   * No Continue or Next is swallowed or used twice: each accepted one, once its handler has set the
   * flag, is consumed by exactly one pause, and every stop is paused for once.
   */
  lemma ContinuesConsumed(run: seq<Action>, s: State)
    requires Execute(INITIAL, run) == Some(s) && RunFirst(s.accepted)
    ensures s.granted == s.consumed + if s.continueCommand then 1 else 0
    ensures ContinueCount(s.accepted)
         == s.granted + if s.server in {PrepareContinue, AcquireBkpt, SetContinue} then 1 else 0
    ensures s.made == s.consumed + if StopPending(s.sim) then 1 else 0
    ensures s.server == Idle ==> ContinueCount(s.accepted) == s.granted && s.taken == |s.sent|
  {
    hide Execute, RunFirst, ContinueCount;
    Reachable(run, s);
  }

  // ---- Progress --------------------------------------------------------------------------------

  /** Unless the server only awaits a request, a thread can step without a spurious wakeup. */
  lemma Progress(run: seq<Action>, s: State)
    requires Execute(INITIAL, run) == Some(s) && RunFirst(s.accepted) && s.server != Idle
    ensures SimNext(s).Some? || ServerNext(s).Some?
  {
    hide Execute, RunFirst, Invariant;
    Reachable(run, s);
    ServerOrSimSteps(s);
  }

  function SimRank(pc: SimPc): nat {
    match pc
    case WaitRun => 13
    case HoldStart => 12
    case Simulate => 11
    case SetReply => 10
    case Tidy => 9
    case LockStop => 8
    case SetStopped => 7
    case UnlockStop => 6
    case NotifyStop => 5
    case LockBkpt => 2
    case CheckContinue => 1
    case WaitContinue => 0
    case WakeContinue => 2
    case ClearContinue => 13
    case UnlockBkpt => 12
  }

  function ServerRank(pc: ServerPc): nat {
    match pc
    case Idle => 0
    case Handle => 1
    case PrepareRun => 10
    case ReleaseStart => 9
    case PrepareContinue => 28
    case AcquireBkpt => 27
    case SetContinue => 26
    case ReleaseBkpt => 12
    case NotifyBkpt => 11
    case AcquireStop => 8
    case TestStopped => 7
    case AwaitStop => 6
    case RewakeStop => 8
    case ClearStopped => 5
    case ReleaseStop => 4
    case ReadReply => 3
    case SendReply => 2
    case DeleteReply => 1
  }

  /** How many steps the threads can still take before they need a new request or a wakeup. */
  function Potential(s: State): nat {
    SimRank(s.sim) + ServerRank(s.server) + if s.continueCommand && s.sim != ClearContinue then 13 else 0
  }

  /** What a run consists of. */
  datatype Tally = Tally(steps: nat, requests: nat, wakeups: nat)

  function Count(run: seq<Action>): Tally {
    if run == [] then Tally(0, 0, 0)
    else
      var rest := Count(run[1..]);
      match run[0]
      case SimStep => rest.(steps := rest.steps + 1)
      case ServerStep => rest.(steps := rest.steps + 1)
      case Examine => rest
      case Receive(_) => rest.(requests := rest.requests + 1)
      case SimWakes => rest.(wakeups := rest.wakeups + 1)
      case ServerWakes => rest.(wakeups := rest.wakeups + 1)
  }

  lemma SimPotential(s: State, t: State)
    requires SimNext(s) == Some(t)
    ensures Potential(t) <= Potential(s) - 1
  {
    if s.sim != NotifyStop {
      hide ServerRank;
    }
  }

  lemma ServerPotential(s: State, t: State)
    requires ServerNext(s) == Some(t)
    ensures Potential(t) <= Potential(s) - 1
  {
    if s.server != NotifyBkpt {
      hide SimRank;
    }
  }

  lemma StepPotential(s: State, a: Action, t: State)
    requires Next(s, a) == Some(t)
    ensures Potential(t) <= Potential(s) +
      match a
      case SimStep => -1
      case ServerStep => -1
      case Examine => 0
      case Receive(_) => 28
      case SimWakes => 2
      case ServerWakes => 2
  {
    hide SimNext, ServerNext;
    match a
    case SimStep => hide Potential; SimPotential(s, t);
    case ServerStep => hide Potential; ServerPotential(s, t);
    case Examine =>
    case Receive(_) => hide SimRank;
    case SimWakes => hide ServerRank;
    case ServerWakes => hide SimRank;
  }

  /**
   * No livelock: the threads take at most 28 steps for every request and 2 for every spurious
   * wakeup, and 13 more; only events that do not stop the simulation are unbounded.
   */
  lemma {:induction false} StepsBounded(s: State, run: seq<Action>, t: State)
    requires Execute(s, run) == Some(t)
    ensures Count(run).steps + Potential(t) <= Potential(s) + 28 * Count(run).requests + 2 * Count(run).wakeups
    ensures Potential(INITIAL) == 13
    decreases |run|
  {
    if run != [] {
      hide Next, Potential;
      var next := Next(s, run[0]).value;
      StepPotential(s, run[0], next);
      StepsBounded(next, run[1..], t);
    }
  }

  /** From every reachable state the threads alone bring the server back, with every request answered. */
  lemma {:induction false} Answerable(s: State) returns (run: seq<Action>, t: State)
    requires RunFirst(s.accepted) && Invariant(s)
    ensures (forall a | a in run :: a == SimStep || a == ServerStep)
    ensures Execute(s, run) == Some(t) && t.server == Idle
    ensures t.accepted == s.accepted && |t.sent| == ResumeCount(s.accepted)
    decreases Potential(s)
  {
    hide RunFirst, ResumeCount, Numbered, Potential;
    if s.server == Idle {
      return [], s;
    }
    ServerOrSimSteps(s);
    var a := if ServerNext(s).Some? then ServerStep else SimStep;
    var next := Next(s, a).value;
    ThreadKeeps(s, a, next);
    StepPotential(s, a, next);
    var rest, u := Answerable(next);
    run, t := [a] + rest, u;
    assert run[1..] == rest;
  }

  /**
   * Every run that cannot be continued without a new request or a spurious wakeup has ended well: the
   * server is idle and every request to resume is answered.
   */
  lemma MaximalRun(run: seq<Action>, s: State)
    requires Execute(INITIAL, run) == Some(s) && RunFirst(s.accepted)
    requires SimNext(s).None? && ServerNext(s).None?
    ensures s.server == Idle && |s.sent| == ResumeCount(s.accepted)
  {
    hide Execute, RunFirst, ResumeCount;
    Reachable(run, s);
    if s.server != Idle {
      hide Invariant;
      Progress(run, s);
    }
  }

  lemma ServerOrSimSteps(s: State)
    requires Invariant(s) && s.server != Idle
    ensures SimNext(s).Some? || ServerNext(s).Some?
  {
    hide ResumeCount, Numbered;
  }

  // ---- What the other thread leaves alone ---------------------------------------------------------

  /** What the simulation thread may rely on while the server thread runs. */
  predicate SimRely(s: State, t: State) {
    SimHolds(s, t) && SimStays(s, t) && SimLogs(s, t)
  }

  predicate SimHolds(s: State, t: State) {
    && (s.start == Simulation ==> t.start == Simulation)
    && (s.bkpt == Simulation ==> t.bkpt == Simulation)
    && (s.stop == Simulation ==> t.stop == Simulation)
  }

  predicate SimStays(s: State, t: State) {
    && (t.sim == s.sim || (s.sim == WaitContinue && t.sim == WakeContinue))
    && (s.continueCommand ==> t.continueCommand)
  }

  predicate SimLogs(s: State, t: State) {
    && t.message == s.message && t.made == s.made && t.slot == s.slot
    && t.raised == s.raised && t.consumed == s.consumed
  }

  /** A thread that holds a mutex is not at a place where it would release that of the other. */
  lemma Owners(s: State)
    requires Sound(s)
    ensures s.bkpt == Simulation ==> !s.server.SetContinue? && !s.server.ReleaseBkpt?
    ensures s.stop == Simulation ==> !s.server.TestStopped? && !s.server.ClearStopped? && !s.server.ReleaseStop?
    ensures s.bkpt == Server ==> !s.sim.CheckContinue? && !s.sim.ClearContinue? && !s.sim.UnlockBkpt?
    ensures s.stop == Server ==> !s.sim.SetStopped? && !s.sim.UnlockStop?
    ensures s.start == Server ==> !s.sim.HoldStart?
  {
    hide RunFirst, InPhase, PhaseOf, NoLostWakeup, InOrder, Answers, Balanced;
  }

  lemma ServerLeavesAlone(s: State, a: Action, t: State)
    requires Sound(s) && Next(s, a) == Some(t) && !a.SimStep? && !a.Examine?
    ensures SimRely(s, t)
  {
    Owners(s);
    hide Sound, SimNext;
    if a.ServerStep? {
      ServerStepKeepsLocks(s, t);
      ServerStepKeepsPlace(s, t);
      ServerStepKeepsLogs(s, t);
    } else {
      hide ServerNext;
    }
  }

  lemma ServerStepKeepsLocks(s: State, t: State)
    requires ServerNext(s) == Some(t)
    requires s.bkpt == Simulation ==> !s.server.SetContinue? && !s.server.ReleaseBkpt?
    requires s.stop == Simulation ==> !s.server.TestStopped? && !s.server.ClearStopped? && !s.server.ReleaseStop?
    ensures SimHolds(s, t)
  {
    match s.server
    case NotifyBkpt =>
    case SetContinue =>
    case ReleaseBkpt =>
    case TestStopped =>
    case ClearStopped =>
    case ReleaseStop =>
    case ReleaseStart | AcquireBkpt =>
    case AcquireStop | RewakeStop =>
    case ReadReply | SendReply | DeleteReply =>
    case Idle | Handle | PrepareRun | PrepareContinue | AwaitStop =>
  }

  lemma ServerStepKeepsPlace(s: State, t: State)
    requires ServerNext(s) == Some(t)
    ensures SimStays(s, t)
  {
  }

  lemma ServerStepKeepsLogs(s: State, t: State)
    requires ServerNext(s) == Some(t)
    ensures SimLogs(s, t)
  {
  }

  /** What the server thread may rely on while the simulation thread runs. */
  predicate ServerRely(s: State, t: State) {
    ServerHolds(s, t) && ServerStays(s, t) && ServerLogs(s, t)
  }

  predicate ServerHolds(s: State, t: State) {
    && (s.start == Server ==> t.start == Server)
    && (s.bkpt == Server ==> t.bkpt == Server)
    && (s.stop == Server ==> t.stop == Server)
  }

  predicate ServerStays(s: State, t: State) {
    && (t.server == s.server || (s.server == AwaitStop && t.server == RewakeStop))
    && (s.stopped ==> t.stopped)
  }

  predicate ServerLogs(s: State, t: State) {
    && t.runCalled == s.runCalled && t.reply == s.reply
    && t.sent == s.sent && t.freed == s.freed && t.accepted == s.accepted
    && t.taken == s.taken && t.granted == s.granted
  }

  lemma SimLeavesAlone(s: State, a: Action, t: State)
    requires Sound(s) && Next(s, a) == Some(t) && !a.ServerStep? && !a.Receive?
    ensures ServerRely(s, t)
  {
    Owners(s);
    hide Sound, ServerNext, Accept;
    if a.SimStep? {
      SimStepKeepsLocks(s, t);
      SimStepKeepsPlace(s, t);
      SimStepKeepsLogs(s, t);
    } else {
      hide SimNext;
    }
  }

  lemma SimStepKeepsLocks(s: State, t: State)
    requires SimNext(s) == Some(t)
    requires s.bkpt == Server ==> !s.sim.CheckContinue? && !s.sim.ClearContinue? && !s.sim.UnlockBkpt?
    requires s.stop == Server ==> !s.sim.SetStopped? && !s.sim.UnlockStop?
    requires s.start == Server ==> !s.sim.HoldStart?
    ensures ServerHolds(s, t)
  {
    match s.sim
    case WaitRun =>
    case HoldStart =>
    case Simulate =>
    case SetReply =>
    case Tidy =>
    case LockStop =>
    case SetStopped =>
    case UnlockStop =>
    case NotifyStop =>
    case LockBkpt =>
    case WakeContinue =>
    case CheckContinue =>
    case ClearContinue =>
    case UnlockBkpt =>
    case WaitContinue =>
  }

  lemma SimStepKeepsPlace(s: State, t: State)
    requires SimNext(s) == Some(t)
    ensures ServerStays(s, t)
  {
  }

  lemma SimStepKeepsLogs(s: State, t: State)
    requires SimNext(s) == Some(t)
    ensures ServerLogs(s, t)
  {
    match s.sim
    case WaitRun | HoldStart | Simulate | SetReply | Tidy =>
    case LockStop | SetStopped | UnlockStop | NotifyStop =>
    case LockBkpt | CheckContinue | WaitContinue | WakeContinue | ClearContinue | UnlockBkpt =>
  }

  // ---- When the client does not start with Run ---------------------------------------------------

  /** The least such run: one Continue, and nothing else. */
  lemma ContinueFirst()
    ensures
      var s := Execute(INITIAL, [Receive(ContinueRequest)]);
      s.Some? && !RunFirst(s.value.accepted) && s.value.server == PrepareContinue
  {
    var run := [Receive(ContinueRequest)];
    assert run[1..] == [];
    var s := Accept(INITIAL, ContinueRequest).value;
    assert s.accepted == [ContinueRequest] && s.accepted[..0] == [];
    assert Execute(INITIAL, run) == Execute(s, []);
    assert s.accepted[0] == ContinueRequest;
  }

  /**
   * After a Continue or Next that no Run precedes, the server answers nothing, and takes no
   * request, ever again; and only then.
   */
  lemma StuckForever(run: seq<Action>, s: State)
    requires Execute(INITIAL, run) == Some(s)
    ensures !RunFirst(s.accepted) <==>
      forall more, t :: Execute(s, more) == Some(t) ==> t.server != Idle
    ensures !RunFirst(s.accepted) ==>
      forall more, t :: Execute(s, more) == Some(t) ==> t.sent == [] && t.sim == WaitRun && t.accepted == s.accepted
  {
    hide Execute, RunFirst, Invariant;
    Reachable(run, s);
    if RunFirst(s.accepted) {
      var more, t := Answerable(s);
    } else {
      forall more, t | Execute(s, more) == Some(t) ensures Stuck(t) && t.accepted == s.accepted {
        StuckRun(s, more, t);
      }
    }
  }

  lemma {:induction false} StuckRun(s: State, run: seq<Action>, t: State)
    requires Stuck(s) && Execute(s, run) == Some(t)
    ensures Stuck(t) && t.accepted == s.accepted
    decreases |run|
  {
    hide Stuck, Next;
    if run != [] {
      var next := Next(s, run[0]).value;
      StuckKeeps(s, run[0], next);
      StuckRun(next, run[1..], t);
    }
  }
}
