/**
 The life cycle of the client's IPv4 task under every interleaving: API calls and timer
 callbacks that hold the client mutex, callbacks that stop the task without it, and the
 task itself. Every load and store of the atomic task state is a step of its own.
 */
module TaskLifecycle {
  import opened Wrappers

  datatype TaskState = Idle | Running | StopRequested

  /** What a thread does once `StopIpv4` returns. */
  datatype Resume = ThenRelease | ThenWait | ThenInit | ThenReturn

  /** Calls a thread can make: start, stop, T1 or T2, T3, the get-ip timeout, and the unlocked ARP callbacks. */
  datatype Call = StartCall | StopCall | RenewCall | ExpireCall | TimeoutCall | ArpCall

  /** Where a thread stands between two atomic actions. */
  datatype Pc =
    | Outside
    | Acquire(call: Call)
    | StartCheck
    | TimeoutCheck
    | StopLoad(after: Resume)
    | StopStore(after: Resume)
    | WaitExit
    | Configure
    | InitCheck
    | InitStore
    | Post
    | PostFailed
    | Release

  /** Where a posted task stands. */
  datatype TaskPc = Posted | Looping | TaskStopStore | Exiting

  datatype System = System(
    state: TaskState, lock: Option<nat>, pcs: map<nat, Pc>, tasks: map<nat, TaskPc>, posted: nat)

  /**
   One atomic action. `choice` settles what the environment decides: whether configuring or
   posting succeeds, whether opening the sockets succeeds, and whether a looping task tests
   its loop condition or a handler of it calls `StopIpv4`.
   */
  datatype Event =
    | Begin(thread: nat, call: Call)
    | Advance(thread: nat, choice: bool)
    | TaskAdvance(task: nat, choice: bool)

  function PcOf(s: System, t: nat): Pc {
    if t in s.pcs then s.pcs[t] else Outside
  }

  predicate Enabled(s: System, e: Event) {
    match e
    case Begin(t, _) => PcOf(s, t) == Outside
    case Advance(t, _) =>
      var pc := PcOf(s, t);
      pc != Outside && ((pc.Acquire? || pc == WaitExit) ==> s.lock == None)
    case TaskAdvance(k, _) => k in s.tasks
  }

  function Goto(s: System, t: nat, pc: Pc): System {
    s.(pcs := s.pcs[t := pc])
  }

  function Entry(call: Call): Pc {
    match call
    case StartCall => StartCheck
    case StopCall => StopLoad(ThenRelease)
    case RenewCall => StopLoad(ThenInit)
    case ExpireCall => StopLoad(ThenRelease)
    case TimeoutCall => TimeoutCheck
    case ArpCall => StopLoad(ThenReturn)
  }

  /** Leaving `StopIpv4`; waiting for the task to exit gives the mutex up. */
  function Leave(s: System, t: nat, after: Resume): System {
    match after
    case ThenRelease => Goto(s, t, Release)
    case ThenWait => Goto(s, t, WaitExit).(lock := None)
    case ThenInit => Goto(s, t, InitCheck)
    case ThenReturn => Goto(s, t, Outside)
  }

  function AdvanceThread(s: System, t: nat, choice: bool): System {
    match PcOf(s, t)
    case Outside => s
    case Acquire(call) => Goto(s, t, Entry(call)).(lock := Some(t))
    case StartCheck => Goto(s, t, if s.state != Idle then StopLoad(ThenWait) else Configure)
    case TimeoutCheck => Goto(s, t, if s.state == Running then StopLoad(ThenRelease) else Release)
    case StopLoad(after) => if s.state == Running then Goto(s, t, StopStore(after)) else Leave(s, t, after)
    case StopStore(after) => Leave(s, t, after).(state := StopRequested)
    case WaitExit => Goto(s, t, Configure).(lock := Some(t))
    case Configure => Goto(s, t, if choice then InitCheck else Release)
    case InitCheck => Goto(s, t, if s.state != Idle then Release else InitStore)
    case InitStore => Goto(s, t, Post).(state := Running)
    case Post =>
      if choice then Goto(s, t, Release).(tasks := s.tasks[s.posted := Posted], posted := s.posted + 1)
      else Goto(s, t, PostFailed)
    case PostFailed => Goto(s, t, Release).(state := Idle)
    case Release => Goto(s, t, Outside).(lock := None)
  }

  function AdvanceTask(s: System, k: nat, choice: bool): System
    requires k in s.tasks
  {
    match s.tasks[k]
    case Posted => s.(tasks := s.tasks[k := if choice then Looping else Exiting])
    case Looping =>
      if choice then (if s.state != Running then s.(tasks := s.tasks[k := Exiting]) else s)
      else (if s.state == Running then s.(tasks := s.tasks[k := TaskStopStore]) else s)
    case TaskStopStore => s.(tasks := s.tasks[k := Looping], state := StopRequested)
    case Exiting => s.(tasks := s.tasks - {k}, state := Idle)
  }

  function Apply(s: System, e: Event): System
    requires Enabled(s, e)
  {
    match e
    case Begin(t, call) => Goto(s, t, if call == ArpCall then Entry(call) else Acquire(call))
    case Advance(t, choice) => AdvanceThread(s, t, choice)
    case TaskAdvance(k, choice) => AdvanceTask(s, k, choice)
  }

  const INIT := System(Idle, None, map[], map[], 0)

  /** The states of a run; a step that is not enabled leaves the system alone. */
  function After(s: System, run: seq<Event>): System {
    if run == [] then s
    else
      var before := After(s, run[..|run| - 1]);
      var e := run[|run| - 1];
      if Enabled(before, e) then Apply(before, e) else before
  }

  // ----- The invariant -----

  /** Between acquiring and releasing the client mutex. */
  predicate HoldsLock(pc: Pc) {
    match pc
    case Outside => false
    case Acquire(_) => false
    case WaitExit => false
    case StopLoad(after) => after != ThenReturn
    case StopStore(after) => after != ThenReturn
    case _ => true
  }

  /** Past the test for an idle task state, with the task not yet posted. */
  predicate Starting(pc: Pc) {
    pc == InitStore || pc == Post || pc == PostFailed
  }

  predicate StartInProgress(s: System) {
    s.lock.Some? && Starting(PcOf(s, s.lock.value))
  }

  predicate AtMostOneTask(s: System) {
    forall k <- s.tasks, l <- s.tasks :: k == l
  }

  /** The mutex is held by exactly the thread that stands inside a locked call. */
  predicate LockInv(s: System) {
    && (forall t <- s.pcs :: HoldsLock(s.pcs[t]) <==> s.lock == Some(t))
    && (forall t <- s.pcs :: s.pcs[t] != Acquire(ArpCall))
    && (s.lock.Some? ==> s.lock.value in s.pcs)
  }

  predicate Inv(s: System) {
    && LockInv(s)
    && AtMostOneTask(s)
    && (s.state == Idle ==> s.tasks == map[])
    && (StartInProgress(s) ==> s.tasks == map[])
    && (StartInProgress(s) && PcOf(s, s.lock.value) != InitStore ==> s.state != Idle)
    && (s.state == Running && s.tasks == map[] ==> StartInProgress(s) && PcOf(s, s.lock.value) != InitStore)
  }

  /** A thread moves only itself, and passes the mutex only between itself and nobody. */
  lemma ThreadMoves(s: System, t: nat, choice: bool)
    requires LockInv(s) && Enabled(s, Advance(t, choice))
    ensures var s' := AdvanceThread(s, t, choice);
            && t in s.pcs && t in s'.pcs && s'.pcs == s.pcs[t := s'.pcs[t]]
            && (HoldsLock(s'.pcs[t]) <==> s'.lock == Some(t)) && s'.pcs[t] != Acquire(ArpCall)
            && (s'.lock == s.lock || (s.lock == None && s'.lock == Some(t)) || (s.lock == Some(t) && s'.lock == None))
  {
    HolderOrBystander(s, t);
  }

  lemma ThreadKeepsLockInv(s: System, t: nat, choice: bool)
    requires LockInv(s) && Enabled(s, Advance(t, choice))
    ensures LockInv(AdvanceThread(s, t, choice))
  {
    hide AdvanceThread, Enabled, HoldsLock;
    ThreadMoves(s, t, choice);
  }

  lemma ThreadKeepsInv(s: System, t: nat, choice: bool)
    requires Inv(s) && Enabled(s, Advance(t, choice))
    ensures Inv(AdvanceThread(s, t, choice))
  {
    hide LockInv;
    ThreadKeepsLockInv(s, t, choice);
    ThreadMoves(s, t, choice);
    HolderOrBystander(s, t);
    var s' := AdvanceThread(s, t, choice);
    assert s.lock.Some? && s.lock.value != t ==> PcOf(s', s.lock.value) == PcOf(s, s.lock.value);
    assert s.posted in s.tasks[s.posted := Posted];
  }

  /** A thread standing where the mutex is needed is the one that has it. */
  lemma HolderOrBystander(s: System, t: nat)
    requires LockInv(s)
    ensures HoldsLock(PcOf(s, t)) <==> s.lock == Some(t)
    ensures PcOf(s, t) != Acquire(ArpCall)
  {
  }

  lemma TaskKeepsInv(s: System, k: nat, choice: bool)
    requires Inv(s) && k in s.tasks
    ensures Inv(AdvanceTask(s, k, choice))
  {
    assert s.tasks.Keys == {k};
    assert s.tasks - {k} == map[];
  }

  lemma StepKeepsInv(s: System, e: Event)
    requires Inv(s) && Enabled(s, e)
    ensures Inv(Apply(s, e))
  {
    match e
    case Begin(t, call) =>
    case Advance(t, choice) => ThreadKeepsInv(s, t, choice);
    case TaskAdvance(k, choice) => TaskKeepsInv(s, k, choice);
  }

  /** Over every run: at most one task is posted or running, and an idle state means there is none. */
  lemma {:induction false} RunsKeepOneTask(run: seq<Event>)
    ensures var s := After(INIT, run);
            Inv(s) && AtMostOneTask(s) && (s.state == Idle ==> s.tasks == map[])
    decreases |run|
  {
    if run != [] {
      var e := run[|run| - 1];
      RunsKeepOneTask(run[..|run| - 1]);
      var before := After(INIT, run[..|run| - 1]);
      if Enabled(before, e) {
        StepKeepsInv(before, e);
      }
    }
  }

  // ----- The stale store -----

  /** Stop requested of a task that no longer exists, with nobody about to post one. */
  predicate Wedged(s: System) {
    s.state == StopRequested && s.tasks == map[] && !StartInProgress(s)
  }

  /** A thread about to store a stop it decided on earlier, after the task has gone idle. */
  predicate StaleStop(s: System, e: Event) {
    && e.Advance? && PcOf(s, e.thread).StopStore?
    && s.state == Idle && !StartInProgress(s)
  }

  /** The system becomes wedged exactly by a stale store in `StopIpv4`. */
  lemma WedgedExactlyByStaleStop(s: System, e: Event)
    requires Inv(s) && Enabled(s, e) && !Wedged(s)
    ensures Wedged(Apply(s, e)) <==> StaleStop(s, e)
  {
    var s' := Apply(s, e);
    match e
    case Begin(_, _) =>
    case Advance(t, _) =>
      assert PcOf(s, t) == Post && s'.posted > s.posted ==> s.posted in s'.tasks;
    case TaskAdvance(k, _) =>
      assert k in s'.tasks || s'.state == Idle;
  }

  lemma WedgedStays(s: System, e: Event)
    requires Inv(s) && Enabled(s, e) && Wedged(s)
    ensures Wedged(Apply(s, e)) && Apply(s, e).tasks == map[]
  {
  }

  /** Once wedged, no call ever gets a task started again. */
  lemma {:induction false} WedgedForever(s: System, run: seq<Event>)
    requires Inv(s) && Wedged(s)
    ensures Inv(After(s, run)) && Wedged(After(s, run)) && After(s, run).tasks == map[]
    decreases |run|
  {
    if run != [] {
      var e := run[|run| - 1];
      WedgedForever(s, run[..|run| - 1]);
      var before := After(s, run[..|run| - 1]);
      if Enabled(before, e) {
        StepKeepsInv(before, e);
        WedgedStays(before, e);
      }
    }
  }

  ghost predicate NoStaleStop(s: System, run: seq<Event>) {
    forall i :: 0 <= i < |run| ==> !StaleStop(After(s, run[..i]), run[i])
  }

  /**
   A run without a stale store never wedges: whenever no task is left and no start is under
   way, the state is idle and the next start will find it so.
   */
  lemma {:induction false} NeverWedgedWithoutStaleStop(run: seq<Event>)
    requires NoStaleStop(INIT, run)
    ensures var s := After(INIT, run);
            !Wedged(s) && (s.tasks == map[] && !StartInProgress(s) ==> s.state == Idle)
    decreases |run|
  {
    RunsKeepOneTask(run);
    if run != [] {
      var n := |run| - 1;
      var e := run[n];
      forall i | 0 <= i < n
        ensures !StaleStop(After(INIT, run[..n][..i]), run[..n][i])
      {
        assert run[..n][..i] == run[..i];
      }
      NeverWedgedWithoutStaleStop(run[..n]);
      RunsKeepOneTask(run[..n]);
      var before := After(INIT, run[..n]);
      if Enabled(before, e) {
        WedgedExactlyByStaleStop(before, e);
      }
    }
  }

  /** One more step of a run whose states so far are known. */
  lemma Extend(run: seq<Event>, s: System, e: Event) returns (longer: seq<Event>, next: System)
    requires After(INIT, run) == s && Enabled(s, e)
    ensures After(INIT, longer) == next == Apply(s, e)
  {
    longer, next := run + [e], Apply(s, e);
    assert longer[..|longer| - 1] == run;
  }

  /** A started task that loops, while an ARP callback has decided to stop it. */
  lemma StopDecided() returns (run: seq<Event>, s: System)
    ensures After(INIT, run) == s && s.state == Running && s.lock == None && s.tasks == map[0 := Looping]
    ensures PcOf(s, 1) == StopStore(ThenReturn)
  {
    hide After;
    run, s := [], INIT;
    assert After(INIT, run) == INIT by { NothingRun(); }
    run, s := Extend(run, s, Begin(0, StartCall));
    run, s := Extend(run, s, Advance(0, true));
    run, s := Extend(run, s, Advance(0, true));
    run, s := Extend(run, s, Advance(0, true));
    run, s := Extend(run, s, Advance(0, true));
    run, s := Extend(run, s, Advance(0, true));
    run, s := Extend(run, s, Advance(0, true));
    assert s.tasks == map[0 := Posted] && PcOf(s, 0) == Release && s.state == Running;
    run, s := LoopingStop(run, s);
  }

  lemma LoopingStop(run0: seq<Event>, s0: System) returns (run: seq<Event>, s: System)
    requires After(INIT, run0) == s0 && s0.state == Running && s0.tasks == map[0 := Posted]
    requires PcOf(s0, 0) == Release && PcOf(s0, 1) == Outside
    ensures After(INIT, run) == s && s.state == Running && s.lock == None && s.tasks == map[0 := Looping]
    ensures PcOf(s, 1) == StopStore(ThenReturn)
  {
    hide After;
    run, s := Extend(run0, s0, Advance(0, true));
    run, s := Extend(run, s, TaskAdvance(0, true));
    assert s.tasks == map[0 := Looping];
    run, s := Extend(run, s, Begin(1, ArpCall));
    run, s := Extend(run, s, Advance(1, true));
  }

  lemma NothingRun()
    ensures After(INIT, []) == INIT
  {
  }

  /** The wedge is reachable: the task stops itself and exits before the callback stores its stop. */
  lemma WedgeIsReachable() returns (run: seq<Event>)
    ensures Inv(After(INIT, run)) && Wedged(After(INIT, run))
  {
    hide After, Inv;
    var s: System;
    run, s := StopDecided();
    run, s := Extend(run, s, TaskAdvance(0, false));
    run, s := Extend(run, s, TaskAdvance(0, true));
    run, s := Extend(run, s, TaskAdvance(0, true));
    run, s := Extend(run, s, TaskAdvance(0, true));
    assert s.tasks == map[];
    run, s := Extend(run, s, Advance(1, true));
    RunsKeepOneTask(run);
  }
}
