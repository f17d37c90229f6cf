/**
 The vCPU worker threads of a VM and their controllers, as steps that interleave freely.

 One step is one access to shared state: an atomic load, store or exchange, a lock operation, the entry
 into or the return from KVM_RUN, the delivery of the kick signal. Requests (kick, stop, shutdown) are
 made under the big lock by a controller thread or by a worker inside its exit handler.
 */
module VcpuProtocol {

  datatype Exit = Interrupted | OtherExit

  /** What the worker carries from the top of its loop to the big lock. */
  datatype Outcome = StopSeen | Serve(exit: Exit) | RunFailed

  /** Where a worker thread is; in `Locked`, `Handling` and `Decide` it holds the big lock. */
  datatype Pc =
    | NotStarted
    | Booting                       // kick signal still blocked
    | BootFailed                    // unblocking the signal failed; wants the lock to record it
    | LoadStop
    | TakeKick
    | EnterRun                      // the kernel is about to test immediate_exit
    | InRun
    | ClearImmediate(outcome: Outcome)
    | ClearKick
    | WantLock(outcome: Outcome)
    | Locked(outcome: Outcome)      // about to load stop_requested
    | Handling(exit: Exit)
    | Decide(finish: bool)
    | Exited

  datatype ThreadState = Created | Running | Stopped

  /** `owed` is history: a kick was stored and no INTERRUPTED handler call was entered since. */
  datatype Vcpu = Vcpu(pc: Pc, state: ThreadState, kick: bool, stop: bool, immediate: bool, signal: bool, owed: bool)

  datatype Lock = Free | Controller | Worker(index: nat)

  /** The request that the lock holder is in the middle of. */
  datatype Request =
    | Idle
    | FlagStored(target: nat)       // the signal is still to be sent
    | Shutdown(cursor: nat)
    | ShutdownStored(cursor: nat)   // stop stored for this vCPU, the signal still to be sent

  datatype Vm = Vm(vcpus: seq<Vcpu>, lock: Lock, request: Request, shutdown: bool)

  /** Steps that touch nothing but the vCPU's own record. */
  datatype OwnStep =
    | Deliver                       // the kick signal's handler runs
    | Boot(ok: bool)
    | LoadsStop
    | TakesKick
    | EntersRun
    | RunReturns(result: Outcome)
    | ClearsImmediate
    | ClearsKick
    | ChecksStop
    | HandlerReturns(finish: bool)

  datatype Action =
    | ControllerLocks
    | ControllerUnlocks
    | Start(i: nat)
    | StoreKick(i: nat)
    | StoreStop(i: nat)
    | BeginShutdown
    | AdvanceShutdown
    | SendSignal
    | LocksAfterBootFailure(i: nat)
    | TakesLock(i: nat)
    | Releases(i: nat)
    | Own(i: nat, step: OwnStep)

  function Fresh(): Vcpu { Vcpu(NotStarted, Created, false, false, false, false, false) }

  predicate Initial(s: Vm) {
    s.lock == Free && s.request == Idle && !s.shutdown && forall i :: 0 <= i < |s.vcpus| ==> s.vcpus[i] == Fresh()
  }

  // ----- Steps -----

  /** The controller, or a worker inside its handler, may issue a request. */
  predicate MayRequest(s: Vm) {
    && s.request == Idle
    && match s.lock
       case Free => false
       case Controller => true
       case Worker(j) => j < |s.vcpus| && s.vcpus[j].pc.Handling?
  }

  predicate At(s: Vm, i: nat, pc: Pc) {
    i < |s.vcpus| && s.vcpus[i].pc == pc
  }

  /** The thread runs user code with the kick signal unblocked, so the handler can run. */
  predicate InUserCode(pc: Pc) {
    !pc.NotStarted? && !pc.Booting? && !pc.BootFailed? && !pc.InRun? && !pc.Exited?
  }

  predicate Enabled(s: Vm, a: Action) {
    match a
    case ControllerLocks => s.lock == Free
    case ControllerUnlocks => s.lock == Controller && s.request == Idle
    case Start(i) =>
      s.lock == Controller && s.request == Idle && !s.shutdown && i < |s.vcpus| && s.vcpus[i].state == Created
    case StoreKick(i) => MayRequest(s) && i < |s.vcpus| && s.vcpus[i].state == Running
    case StoreStop(i) => MayRequest(s) && i < |s.vcpus| && s.vcpus[i].state == Running
    case BeginShutdown => MayRequest(s)
    case AdvanceShutdown => s.request.Shutdown?
    case SendSignal =>
      (s.request.FlagStored? && s.request.target < |s.vcpus|) ||
      (s.request.ShutdownStored? && s.request.cursor < |s.vcpus|)
    case LocksAfterBootFailure(i) => At(s, i, BootFailed) && s.lock == Free
    case TakesLock(i) => i < |s.vcpus| && s.vcpus[i].pc.WantLock? && s.lock == Free
    case Releases(i) => i < |s.vcpus| && s.vcpus[i].pc.Decide?
    case Own(i, step) =>
      i < |s.vcpus| && OwnEnabled(s.vcpus[i], step) && (step.HandlerReturns? ==> s.request == Idle)
  }

  predicate OwnEnabled(v: Vcpu, step: OwnStep) {
    match step
    case Deliver => v.signal && InUserCode(v.pc)
    case Boot(_) => v.pc == Booting
    case LoadsStop => v.pc == LoadStop
    case TakesKick => v.pc == TakeKick
    case EntersRun => v.pc == EnterRun
    case RunReturns(result) => v.pc == InRun && result != StopSeen
    case ClearsImmediate => v.pc.ClearImmediate?
    case ClearsKick => v.pc == ClearKick
    case ChecksStop => v.pc.Locked?
    case HandlerReturns(_) => v.pc.Handling?
  }

  function Set(s: Vm, i: nat, v: Vcpu): Vm
    requires i < |s.vcpus|
  {
    s.(vcpus := s.vcpus[i := v])
  }

  function Apply(s: Vm, a: Action): Vm
    requires Enabled(s, a)
  {
    match a
    case ControllerLocks => s.(lock := Controller)
    case ControllerUnlocks => s.(lock := Free)
    case Start(i) => Set(s, i, s.vcpus[i].(state := Running, pc := Booting))
    case StoreKick(i) => Set(s, i, s.vcpus[i].(kick := true, owed := true)).(request := FlagStored(i))
    case StoreStop(i) => Set(s, i, s.vcpus[i].(stop := true)).(request := FlagStored(i))
    case BeginShutdown => s.(shutdown := true, request := Shutdown(0))
    case AdvanceShutdown =>
      var k := s.request.cursor;
      if k >= |s.vcpus| then s.(request := Idle)
      else if s.vcpus[k].state != Running then s.(request := Shutdown(k + 1))
      else Set(s, k, s.vcpus[k].(stop := true)).(request := ShutdownStored(k))
    case SendSignal =>
      if s.request.FlagStored? then
        Set(s, s.request.target, s.vcpus[s.request.target].(signal := true)).(request := Idle)
      else
        Set(s, s.request.cursor, s.vcpus[s.request.cursor].(signal := true)).(request := Shutdown(s.request.cursor + 1))
    case LocksAfterBootFailure(i) => Set(s, i, s.vcpus[i].(pc := Decide(true))).(lock := Worker(i))
    case TakesLock(i) => Set(s, i, s.vcpus[i].(pc := Locked(s.vcpus[i].pc.outcome))).(lock := Worker(i))
    case Releases(i) =>
      var v := s.vcpus[i];
      Set(s, i, if v.pc.finish then v.(state := Stopped, pc := Exited) else v.(pc := LoadStop)).(lock := Free)
    case Own(i, step) => Set(s, i, OwnApply(s.vcpus[i], step))
  }

  function OwnApply(v: Vcpu, step: OwnStep): Vcpu
    requires OwnEnabled(v, step)
  {
    match step
    case Deliver => v.(signal := false, immediate := true)
    case Boot(ok) => v.(pc := if ok then LoadStop else BootFailed)
    case LoadsStop => v.(pc := if v.stop then WantLock(StopSeen) else TakeKick)
    case TakesKick => if v.kick then v.(kick := false, pc := WantLock(Serve(Interrupted))) else v.(pc := EnterRun)
    case EntersRun => v.(pc := if v.immediate then ClearImmediate(Serve(Interrupted)) else InRun)
    case RunReturns(result) => v.(pc := ClearImmediate(result))
    case ClearsImmediate =>
      v.(immediate := false,
         pc := if v.pc.outcome == Serve(Interrupted) then ClearKick else WantLock(v.pc.outcome))
    case ClearsKick => v.(kick := false, pc := WantLock(Serve(Interrupted)))
    case ChecksStop =>
      if v.stop || !v.pc.outcome.Serve? then v.(pc := Decide(true))
      else v.(pc := Handling(v.pc.outcome.exit), owed := v.owed && v.pc.outcome.exit != Interrupted)
    case HandlerReturns(finish) => v.(pc := Decide(finish))
  }

  // ----- The invariant -----

  /** A request has stored a flag of this vCPU and not yet sent its signal. */
  predicate Announcing(s: Vm, i: nat) {
    s.request == FlagStored(i) || s.request == ShutdownStored(i)
  }

  predicate HoldsLock(pc: Pc) { pc.Locked? || pc.Handling? || pc.Decide? }

  /** The worker is on its way to an INTERRUPTED handler call. */
  predicate CarriesInterrupt(pc: Pc) {
    || pc == ClearImmediate(Serve(Interrupted))
    || pc == ClearKick
    || pc == WantLock(Serve(Interrupted))
    || pc == Locked(Serve(Interrupted))
  }

  predicate ShutdownReached(s: Vm, i: nat) {
    match s.request
    case Shutdown(k) => i < k
    case ShutdownStored(k) => i <= k
    case _ => true
  }

  /**
   What holds of one vCPU, given whether it owns the lock, whether a stored flag of it still awaits its
   signal, and whether a shutdown has passed it.
   */
  ghost predicate RecordInv(v: Vcpu, owner: bool, announcing: bool, shutdownPassed: bool) {
    && (v.state == Created <==> v.pc == NotStarted)
    && (v.state == Stopped <==> v.pc == Exited)
    && (v.state == Created ==> !v.kick && !v.stop && !v.owed)
    && (HoldsLock(v.pc) <==> owner)
    && (v.pc == InRun ==> !v.immediate)
    // A flag set since the worker last looked at it has its signal under way.
    && ((v.pc == EnterRun || v.pc == InRun) && (v.kick || v.stop) ==> v.immediate || v.signal || announcing)
    && (v.pc == TakeKick && v.stop ==> v.immediate || v.signal || announcing)
    && (v.pc == WantLock(StopSeen) || v.pc == Locked(StopSeen) ==> v.stop)
    && v.pc != ClearImmediate(StopSeen)
    // A kick is never lost.
    && (v.owed ==> v.kick || CarriesInterrupt(v.pc) || v.stop || v.pc == Exited || v.pc == Decide(true))
    && (shutdownPassed && v.state == Running ==> v.stop)
  }

  ghost predicate VcpuInv(s: Vm, i: nat)
    requires i < |s.vcpus|
  {
    RecordInv(s.vcpus[i], s.lock == Worker(i), Announcing(s, i), s.shutdown && ShutdownReached(s, i))
  }

  ghost predicate Inv(s: Vm) {
    && (s.request != Idle ==> s.lock != Free)
    && (s.lock.Worker? ==> s.lock.index < |s.vcpus|)
    && (s.request != Idle && s.lock.Worker? ==> s.vcpus[s.lock.index].pc.Handling?)
    && (s.request.FlagStored? ==> s.request.target < |s.vcpus| && s.vcpus[s.request.target].state == Running)
    && (s.request.ShutdownStored? ==> s.request.cursor < |s.vcpus| && s.vcpus[s.request.cursor].state == Running)
    && (s.request.Shutdown? || s.request.ShutdownStored? ==> s.shutdown)
    && forall i :: 0 <= i < |s.vcpus| ==> VcpuInv(s, i)
  }

  lemma InvAt(s: Vm, i: nat)
    requires Inv(s) && i < |s.vcpus|
    ensures VcpuInv(s, i)
  {
  }

  lemma DeliverKeepsRecordInv(v: Vcpu, owner: bool, announcing: bool, shutdownPassed: bool)
    requires RecordInv(v, owner, announcing, shutdownPassed) && OwnEnabled(v, Deliver)
    ensures RecordInv(OwnApply(v, Deliver), owner, announcing, shutdownPassed)
  {
  }

  lemma BootKeepsRecordInv(v: Vcpu, ok: bool, owner: bool, announcing: bool, shutdownPassed: bool)
    requires RecordInv(v, owner, announcing, shutdownPassed) && OwnEnabled(v, Boot(ok))
    ensures RecordInv(OwnApply(v, Boot(ok)), owner, announcing, shutdownPassed)
  {
  }

  lemma LoadsStopKeepsRecordInv(v: Vcpu, owner: bool, announcing: bool, shutdownPassed: bool)
    requires RecordInv(v, owner, announcing, shutdownPassed) && OwnEnabled(v, LoadsStop)
    ensures RecordInv(OwnApply(v, LoadsStop), owner, announcing, shutdownPassed)
  {
  }

  lemma TakesKickKeepsRecordInv(v: Vcpu, owner: bool, announcing: bool, shutdownPassed: bool)
    requires RecordInv(v, owner, announcing, shutdownPassed) && OwnEnabled(v, TakesKick)
    ensures RecordInv(OwnApply(v, TakesKick), owner, announcing, shutdownPassed)
  {
  }

  lemma EntersRunKeepsRecordInv(v: Vcpu, owner: bool, announcing: bool, shutdownPassed: bool)
    requires RecordInv(v, owner, announcing, shutdownPassed) && OwnEnabled(v, EntersRun)
    ensures RecordInv(OwnApply(v, EntersRun), owner, announcing, shutdownPassed)
  {
  }

  lemma RunReturnsKeepsRecordInv(v: Vcpu, result: Outcome, owner: bool, announcing: bool, shutdownPassed: bool)
    requires RecordInv(v, owner, announcing, shutdownPassed) && OwnEnabled(v, RunReturns(result))
    ensures RecordInv(OwnApply(v, RunReturns(result)), owner, announcing, shutdownPassed)
  {
  }

  lemma ClearsImmediateKeepsRecordInv(v: Vcpu, owner: bool, announcing: bool, shutdownPassed: bool)
    requires RecordInv(v, owner, announcing, shutdownPassed) && OwnEnabled(v, ClearsImmediate)
    ensures RecordInv(OwnApply(v, ClearsImmediate), owner, announcing, shutdownPassed)
  {
  }

  lemma ClearsKickKeepsRecordInv(v: Vcpu, owner: bool, announcing: bool, shutdownPassed: bool)
    requires RecordInv(v, owner, announcing, shutdownPassed) && OwnEnabled(v, ClearsKick)
    ensures RecordInv(OwnApply(v, ClearsKick), owner, announcing, shutdownPassed)
  {
  }

  lemma ChecksStopKeepsRecordInv(v: Vcpu, owner: bool, announcing: bool, shutdownPassed: bool)
    requires RecordInv(v, owner, announcing, shutdownPassed) && OwnEnabled(v, ChecksStop)
    ensures RecordInv(OwnApply(v, ChecksStop), owner, announcing, shutdownPassed)
  {
  }

  lemma HandlerReturnsKeepsRecordInv(v: Vcpu, finish: bool, owner: bool, announcing: bool, shutdownPassed: bool)
    requires RecordInv(v, owner, announcing, shutdownPassed) && OwnEnabled(v, HandlerReturns(finish))
    ensures RecordInv(OwnApply(v, HandlerReturns(finish)), owner, announcing, shutdownPassed)
  {
  }

  lemma OwnKeepsRecordInv(v: Vcpu, step: OwnStep, owner: bool, announcing: bool, shutdownPassed: bool)
    requires RecordInv(v, owner, announcing, shutdownPassed) && OwnEnabled(v, step)
    ensures RecordInv(OwnApply(v, step), owner, announcing, shutdownPassed)
  {
    hide RecordInv, OwnApply, OwnEnabled;
    match step
    case Deliver => DeliverKeepsRecordInv(v, owner, announcing, shutdownPassed);
    case Boot(ok) => BootKeepsRecordInv(v, ok, owner, announcing, shutdownPassed);
    case LoadsStop => LoadsStopKeepsRecordInv(v, owner, announcing, shutdownPassed);
    case TakesKick => TakesKickKeepsRecordInv(v, owner, announcing, shutdownPassed);
    case EntersRun => EntersRunKeepsRecordInv(v, owner, announcing, shutdownPassed);
    case RunReturns(result) => RunReturnsKeepsRecordInv(v, result, owner, announcing, shutdownPassed);
    case ClearsImmediate => ClearsImmediateKeepsRecordInv(v, owner, announcing, shutdownPassed);
    case ClearsKick => ClearsKickKeepsRecordInv(v, owner, announcing, shutdownPassed);
    case ChecksStop => ChecksStopKeepsRecordInv(v, owner, announcing, shutdownPassed);
    case HandlerReturns(finish) => HandlerReturnsKeepsRecordInv(v, finish, owner, announcing, shutdownPassed);
  }

  lemma OwnKeepsState(v: Vcpu, step: OwnStep)
    requires OwnEnabled(v, step)
    ensures OwnApply(v, step).state == v.state
    ensures v.pc.Handling? && !step.HandlerReturns? ==> OwnApply(v, step).pc == v.pc
  {
  }

  lemma OwnKeepsInv(s: Vm, i: nat, step: OwnStep)
    requires Inv(s) && Enabled(s, Own(i, step))
    ensures Inv(Apply(s, Own(i, step)))
  {
    hide RecordInv, OwnApply, OwnEnabled;
    var s' := Set(s, i, OwnApply(s.vcpus[i], step));
    InvAt(s, i);
    OwnKeepsRecordInv(s.vcpus[i], step, s.lock == Worker(i), Announcing(s, i), s.shutdown && ShutdownReached(s, i));
    OwnKeepsState(s.vcpus[i], step);
    forall j | 0 <= j < |s'.vcpus| && j != i
      ensures VcpuInv(s', j)
    {
      SameRecordKeepsVcpuInv(s, s', j);
    }
  }

  /** Only the record, the lock and the request matter to a vCPU. */
  lemma SameRecordKeepsVcpuInv(s: Vm, s': Vm, j: nat)
    requires j < |s.vcpus| && |s'.vcpus| == |s.vcpus| && s'.vcpus[j] == s.vcpus[j] && VcpuInv(s, j)
    requires s'.lock == Worker(j) <==> s.lock == Worker(j)
    requires Announcing(s, j) ==> Announcing(s', j)
    requires s'.shutdown && s.vcpus[j].state == Running && ShutdownReached(s', j) ==>
               (s.shutdown && ShutdownReached(s, j)) || s.vcpus[j].stop
    ensures VcpuInv(s', j)
  {
  }

  /** Taking and releasing the big lock, and starting a thread under it. */
  lemma LockStepKeepsInv(s: Vm, a: Action)
    requires Inv(s) && Enabled(s, a)
    requires a.ControllerLocks? || a.ControllerUnlocks? || a.Start? || a.LocksAfterBootFailure? || a.TakesLock? || a.Releases?
    ensures Inv(Apply(s, a))
  {
    hide VcpuInv;
    var s' := Apply(s, a);
    if !a.ControllerLocks? && !a.ControllerUnlocks? {
      LockStepKeepsVcpuInv(s, a);
    }
    forall j | 0 <= j < |s'.vcpus|
      ensures VcpuInv(s', j)
    {
      if a.ControllerLocks? || a.ControllerUnlocks? || j != a.i {
        LockOwner(s, j);
        SameRecordKeepsVcpuInv(s, s', j);
      }
    }
  }

  lemma LockOwner(s: Vm, i: nat)
    requires Inv(s) && i < |s.vcpus|
    ensures HoldsLock(s.vcpus[i].pc) <==> s.lock == Worker(i)
  {
    InvAt(s, i);
  }

  lemma LockStepKeepsVcpuInv(s: Vm, a: Action)
    requires Inv(s) && Enabled(s, a)
    requires a.Start? || a.LocksAfterBootFailure? || a.TakesLock? || a.Releases?
    ensures VcpuInv(Apply(s, a), a.i)
    ensures a.Releases? ==> s.request == Idle && s.lock == Worker(a.i)
  {
    InvAt(s, a.i);
  }

  /** Storing a flag, and sending the signal that announces it. */
  lemma RequestKeepsRecordInv(v: Vcpu, owner: bool, announcing: bool, shutdownPassed: bool, passes: bool)
    requires RecordInv(v, owner, announcing, shutdownPassed)
    ensures v.state == Running ==> RecordInv(v.(kick := true, owed := true), owner, true, shutdownPassed)
    ensures v.state == Running ==> RecordInv(v.(stop := true), owner, true, passes)
    ensures RecordInv(v.(signal := true), owner, false, shutdownPassed)
  {
  }

  lemma RequestStepKeepsInv(s: Vm, a: Action)
    requires Inv(s) && Enabled(s, a)
    requires a.StoreKick? || a.StoreStop? || a.BeginShutdown? || a.AdvanceShutdown? || a.SendSignal?
    ensures Inv(Apply(s, a))
  {
    hide RecordInv;
    var s' := Apply(s, a);
    forall j | 0 <= j < |s'.vcpus|
      ensures VcpuInv(s', j)
    {
      InvAt(s, j);
      RequestKeepsRecordInv(s.vcpus[j], s.lock == Worker(j), Announcing(s, j), s.shutdown && ShutdownReached(s, j),
                            s'.shutdown && ShutdownReached(s', j));
      if !(a.SendSignal? && Announcing(s, j)) && !Announcing(s', j) {
        SameRecordKeepsVcpuInv(s, s', j);
      }
    }
  }

  lemma StepKeepsInv(s: Vm, a: Action)
    requires Inv(s) && Enabled(s, a)
    ensures Inv(Apply(s, a))
  {
    hide Inv, Apply;
    if a.Own? {
      OwnKeepsInv(s, a.i, a.step);
    } else if a.StoreKick? || a.StoreStop? || a.BeginShutdown? || a.AdvanceShutdown? || a.SendSignal? {
      RequestStepKeepsInv(s, a);
    } else {
      LockStepKeepsInv(s, a);
    }
  }

  // ----- Runs -----

  predicate CanRun(s: Vm, run: seq<Action>)
    decreases |run|
  {
    run == [] || (Enabled(s, run[0]) && CanRun(Apply(s, run[0]), run[1..]))
  }

  function After(s: Vm, run: seq<Action>): Vm
    requires CanRun(s, run)
    decreases |run|
  {
    if run == [] then s else After(Apply(s, run[0]), run[1..])
  }

  lemma {:induction false} RunKeepsInv(s: Vm, run: seq<Action>)
    requires Inv(s) && CanRun(s, run)
    ensures Inv(After(s, run)) && |After(s, run).vcpus| == |s.vcpus|
    decreases |run|
  {
    if run != [] {
      StepKeepsInv(s, run[0]);
      RunKeepsInv(Apply(s, run[0]), run[1..]);
    }
  }

  /** The invariant holds in every state of every run from a VM whose threads were not started yet. */
  lemma ReachableInv(s: Vm, run: seq<Action>)
    requires Initial(s) && CanRun(s, run)
    ensures Inv(After(s, run)) && |After(s, run).vcpus| == |s.vcpus|
  {
    RunKeepsInv(s, run);
  }

  // ----- No lost wakeup -----

  /** Inside KVM_RUN with nothing that would make it return. */
  predicate Parked(v: Vcpu) { v.pc == InRun && !v.immediate && !v.signal }

  /**
   In every reachable state: a vCPU with an unserved kick or stop is not parked in KVM_RUN, except for the
   moment between a request's flag store and its signal, in which the requester still holds the lock.
   */
  lemma NoLostWakeup(s: Vm, i: nat)
    requires Inv(s) && i < |s.vcpus|
    requires s.vcpus[i].owed || s.vcpus[i].stop
    ensures Parked(s.vcpus[i]) ==> Announcing(s, i) && s.lock != Free
  {
    InvAt(s, i);
  }

  /** When a signal is sent, its target thread exists and has not exited, so sending cannot fail. */
  lemma SignalTargetsLiveThread(s: Vm)
    requires Inv(s) && Enabled(s, SendSignal)
    ensures var target := if s.request.FlagStored? then s.request.target else s.request.cursor;
            s.vcpus[target].pc != NotStarted && s.vcpus[target].pc != Exited
  {
    InvAt(s, if s.request.FlagStored? then s.request.target else s.request.cursor);
  }

  /** A step by which the vCPU's own thread moves on. */
  predicate Moves(a: Action, i: nat) {
    (a.Own? && a.i == i && a.step != Deliver) || a == TakesLock(i) || a == Releases(i) || a == LocksAfterBootFailure(i)
  }

  /**
   A vCPU with work to do is never stuck: some step of its thread is enabled, or the requester is about to
   send its signal, or it waits for the lock and the holder can go on.
   */
  lemma NeverStuck(s: Vm, i: nat) returns (a: Action)
    requires Inv(s) && i < |s.vcpus| && s.vcpus[i].state == Running && (s.vcpus[i].owed || s.vcpus[i].stop)
    ensures Enabled(s, a)
    ensures Moves(a, i) || (s.lock == Controller && (a == ControllerUnlocks || a == SendSignal || a == AdvanceShutdown)) ||
            (s.lock.Worker? && (Moves(a, s.lock.index) || a == SendSignal || a == AdvanceShutdown))
    ensures s.vcpus[i].pc == InRun ==> !Parked(s.vcpus[i]) || a == SendSignal
  {
    InvAt(s, i);
    if Parked(s.vcpus[i]) {
      return SendSignal;
    }
    match s.vcpus[i].pc
    case Booting => a := Own(i, Boot(true));
    case BootFailed => if s.lock == Free { a := LocksAfterBootFailure(i); } else { a := HolderStep(s); }
    case LoadStop => a := Own(i, LoadsStop);
    case TakeKick => a := Own(i, TakesKick);
    case EnterRun => a := Own(i, EntersRun);
    case InRun => a := Own(i, RunReturns(Serve(Interrupted)));
    case ClearImmediate(_) => a := Own(i, ClearsImmediate);
    case ClearKick => a := Own(i, ClearsKick);
    case WantLock(_) => if s.lock == Free { a := TakesLock(i); } else { a := HolderStep(s); }
    case Locked(_) => a := Own(i, ChecksStop);
    case Handling(_) => a := HolderStep(s);
    case Decide(_) => a := Releases(i);
  }

  /** The lock holder can always take a step. */
  lemma HolderStep(s: Vm) returns (a: Action)
    requires Inv(s) && s.lock != Free
    ensures Enabled(s, a)
    ensures a == SendSignal || a == AdvanceShutdown || (s.lock == Controller && a == ControllerUnlocks) ||
            (s.lock.Worker? && Moves(a, s.lock.index))
  {
    if s.request.FlagStored? || s.request.ShutdownStored? {
      return SendSignal;
    }
    if s.request.Shutdown? {
      return AdvanceShutdown;
    }
    if s.lock == Controller {
      return ControllerUnlocks;
    }
    var j := s.lock.index;
    InvAt(s, j);
    match s.vcpus[j].pc
    case Locked(_) => a := Own(j, ChecksStop);
    case Handling(_) => a := Own(j, HandlerReturns(false));
    case Decide(_) => a := Releases(j);
  }

  // ----- Bounded response -----

  /** An upper bound on the steps of its own thread before a kicked vCPU enters an INTERRUPTED handler call or exits. */
  function KickRank(pc: Pc): nat {
    match pc
    case NotStarted => 15
    case Booting => 14
    case EnterRun => 13
    case InRun => 12
    case ClearImmediate(o) => if o == Serve(Interrupted) then 5 else 11
    case WantLock(o) => if o == Serve(OtherExit) then 10 else 3
    case Locked(o) => if o == Serve(OtherExit) then 9 else 2
    case Handling(_) => 8
    case Decide(finish) => if finish then 1 else 7
    case LoadStop => 6
    case TakeKick => 5
    case ClearKick => 4
    case BootFailed => 2
    case Exited => 0
  }

  predicate KickResolved(v: Vcpu) { !v.owed || v.pc == Exited }

  /** An upper bound on the steps of its own thread before a stopped vCPU exits. */
  function StopRank(pc: Pc): nat {
    match pc
    case NotStarted => 13
    case Booting => 12
    case Handling(_) => 11
    case Decide(finish) => if finish then 1 else 10
    case LoadStop => 9
    case TakeKick => 8
    case EnterRun => 7
    case InRun => 6
    case ClearImmediate(_) => 5
    case ClearKick => 4
    case WantLock(_) => 3
    case Locked(_) => 2
    case BootFailed => 2
    case Exited => 0
  }

  /** A bound that also covers a stop arriving in between. */
  function Rank(v: Vcpu): nat {
    if v.stop then StopRank(v.pc) else 14 + KickRank(v.pc)
  }

  lemma OwnLowersStopRank(v: Vcpu, step: OwnStep)
    requires OwnEnabled(v, step) && v.stop && step != Deliver
    ensures OwnApply(v, step).stop && StopRank(OwnApply(v, step).pc) < StopRank(v.pc)
  {
    match step
    case Boot(_) =>
    case LoadsStop =>
    case TakesKick =>
    case EntersRun =>
    case RunReturns(_) =>
    case ClearsImmediate =>
    case ClearsKick =>
    case ChecksStop =>
    case HandlerReturns(_) =>
  }

  lemma OwnLowersKickRank(v: Vcpu, step: OwnStep)
    requires OwnEnabled(v, step) && v.owed && !v.stop && step != Deliver
    requires v.kick || CarriesInterrupt(v.pc) || v.pc == Decide(true)
    ensures var v' := OwnApply(v, step); !v'.stop && (KickResolved(v') || KickRank(v'.pc) < KickRank(v.pc))
  {
    match step
    case Boot(_) =>
    case LoadsStop =>
    case TakesKick =>
    case EntersRun =>
    case RunReturns(_) =>
    case ClearsImmediate =>
    case ClearsKick =>
    case ChecksStop =>
    case HandlerReturns(_) =>
  }

  /** What a step other than the vCPU's own record steps does to its record. */
  lemma OtherEffect(s: Vm, a: Action, i: nat)
    requires Enabled(s, a) && i < |s.vcpus| && !(a.Own? && a.i == i)
    ensures |Apply(s, a).vcpus| == |s.vcpus|
    ensures var v, v' := s.vcpus[i], Apply(s, a).vcpus[i];
            && (v.stop ==> v'.stop) && (v.owed ==> v'.owed)
            && v'.pc == (match a
                         case Start(j) => if j == i then Booting else v.pc
                         case LocksAfterBootFailure(j) => if j == i then Decide(true) else v.pc
                         case TakesLock(j) => if j == i then Locked(v.pc.outcome) else v.pc
                         case Releases(j) => if j == i then (if v.pc.finish then Exited else LoadStop) else v.pc
                         case _ => v.pc)
            && v'.state == (match a
                            case Start(j) => if j == i then Running else v.state
                            case Releases(j) => if j == i && v.pc.finish then Stopped else v.state
                            case _ => v.state)
  {
  }

  /** A step of the vCPU's own thread lowers the rank; no other thread can raise it. */
  lemma StepLowersRank(s: Vm, a: Action, i: nat)
    requires Inv(s) && Enabled(s, a) && i < |s.vcpus| && s.vcpus[i].state == Running
    requires s.vcpus[i].owed || s.vcpus[i].stop
    ensures |Apply(s, a).vcpus| == |s.vcpus|
    ensures var v, v' := s.vcpus[i], Apply(s, a).vcpus[i];
            && (v.stop ==> v'.stop)
            && ((!v'.stop && KickResolved(v')) || v'.pc == Exited ||
                (v'.state == Running && Rank(v') <= Rank(v) - (if Moves(a, i) then 1 else 0)))
  {
    hide Inv, OwnApply, OwnEnabled;
    InvAt(s, i);
    var v := s.vcpus[i];
    if a.Own? && a.i == i {
      OwnKeepsState(v, a.step);
      if a.step == Deliver {
        DeliverKeepsRank(v);
      } else if v.stop {
        OwnLowersStopRank(v, a.step);
      } else {
        OwnLowersKickRank(v, a.step);
      }
    } else {
      OtherEffect(s, a, i);
      hide Apply;
    }
  }

  lemma DeliverKeepsRank(v: Vcpu)
    requires OwnEnabled(v, Deliver)
    ensures var v' := OwnApply(v, Deliver); v'.pc == v.pc && v'.stop == v.stop && v'.owed == v.owed
  {
  }

  /** How often the vCPU's own thread moves in a run. */
  function MovesIn(run: seq<Action>, i: nat): nat {
    if run == [] then 0 else (if Moves(run[0], i) then 1 else 0) + MovesIn(run[1..], i)
  }

  /** The state after the first k steps of a run. */
  function Prefix(s: Vm, run: seq<Action>, k: nat): Vm
    requires CanRun(s, run) && k <= |run|
    decreases k
  {
    if k == 0 then s else Prefix(Apply(s, run[0]), run[1..], k - 1)
  }

  /**
   Every stored kick or stop is answered: in any run, by the time the vCPU's own thread has moved more often
   than its rank says, an INTERRUPTED handler call was entered since the kick, or the thread has exited.
   A stop is answered by exiting only.
   */
  lemma {:induction false} RequestAnswered(s: Vm, run: seq<Action>, i: nat) returns (k: nat)
    requires Inv(s) && CanRun(s, run) && i < |s.vcpus| && s.vcpus[i].state == Running
    requires s.vcpus[i].owed || s.vcpus[i].stop
    requires MovesIn(run, i) > Rank(s.vcpus[i])
    ensures k <= |run| && |Prefix(s, run, k).vcpus| == |s.vcpus|
    ensures var v := Prefix(s, run, k).vcpus[i];
            v.pc == Exited || (!s.vcpus[i].stop && !v.stop && !v.owed)
    decreases |run|
  {
    hide Inv, Enabled, Apply, Rank, Moves;
    StepKeepsInv(s, run[0]);
    StepLowersRank(s, run[0], i);
    var s' := Apply(s, run[0]);
    if s'.vcpus[i].pc == Exited || (!s'.vcpus[i].stop && !s'.vcpus[i].owed) {
      k := 1;
      assert Prefix(s, run, 1) == Prefix(s', run[1..], 0) == s';
    } else {
      var rest := RequestAnswered(s', run[1..], i);
      k := rest + 1;
    }
  }

  /** The rank is at most 28, and at most 12 once a stop is stored. */
  lemma RankBound(v: Vcpu)
    requires v.state == Running && (v.state == Created <==> v.pc == NotStarted)
    ensures Rank(v) <= 28 && (v.stop ==> Rank(v) <= 12)
  {
  }

  // ----- Stop and shutdown -----

  /** Entering the exit handler. */
  predicate EntersHandler(s: Vm, a: Action, i: nat)
    requires Enabled(s, a) && i < |s.vcpus| && |Apply(s, a).vcpus| == |s.vcpus|
  {
    !s.vcpus[i].pc.Handling? && Apply(s, a).vcpus[i].pc.Handling?
  }

  /** How far a thread state has come. */
  function Stage(state: ThreadState): nat {
    match state case Created => 0 case Running => 1 case Stopped => 2
  }

  /** Once stop is stored, no step enters the handler; stop, shutdown and thread states only move forward. */
  lemma StopIsFinal(s: Vm, a: Action, i: nat)
    requires Inv(s) && Enabled(s, a) && i < |s.vcpus|
    ensures |Apply(s, a).vcpus| == |s.vcpus|
    ensures s.vcpus[i].stop ==> Apply(s, a).vcpus[i].stop && !EntersHandler(s, a, i)
    ensures s.shutdown ==> Apply(s, a).shutdown && !a.Start?
    ensures Stage(s.vcpus[i].state) <= Stage(Apply(s, a).vcpus[i].state) <= Stage(s.vcpus[i].state) + 1
    ensures s.vcpus[i].state == Created && s.shutdown ==> Apply(s, a).vcpus[i].state == Created
  {
    hide Inv, OwnApply, OwnEnabled, RecordInv;
    InvAt(s, i);
    var v := s.vcpus[i];
    if a.Own? && a.i == i {
      OwnKeepsState(v, a.step);
      if v.stop {
        OwnNeverHandlesStopped(v, a.step);
      }
    } else {
      OtherEffect(s, a, i);
      if a.Releases? {
        ReleasedWasRunning(s, a);
      }
      hide Apply;
    }
  }

  lemma OwnNeverHandlesStopped(v: Vcpu, step: OwnStep)
    requires OwnEnabled(v, step) && v.stop
    ensures OwnApply(v, step).stop && (OwnApply(v, step).pc.Handling? ==> v.pc.Handling?)
  {
  }

  lemma ReleasedWasRunning(s: Vm, a: Action)
    requires Inv(s) && Enabled(s, a) && a.Releases?
    ensures s.vcpus[a.i].state == Running
  {
    InvAt(s, a.i);
  }

  /** Over whole runs: after a stop is stored, that vCPU's handler is never entered again. */
  lemma {:induction false} NoHandlerAfterStop(s: Vm, run: seq<Action>, i: nat, k: nat)
    requires Inv(s) && CanRun(s, run) && i < |s.vcpus| && s.vcpus[i].stop
    requires k < |run|
    ensures |Prefix(s, run, k).vcpus| == |s.vcpus| && Enabled(Prefix(s, run, k), run[k])
    ensures |Apply(Prefix(s, run, k), run[k]).vcpus| == |s.vcpus|
    ensures !EntersHandler(Prefix(s, run, k), run[k], i)
    decreases k
  {
    hide Inv, Enabled, Apply, EntersHandler;
    StopIsFinal(s, run[0], i);
    StepKeepsInv(s, run[0]);
    if k > 0 {
      NoHandlerAfterStop(Apply(s, run[0]), run[1..], i, k - 1);
    }
  }

  /** When a shutdown request has returned, every running vCPU has its stop stored, and stays that way. */
  lemma ShutdownStopsAll(s: Vm, run: seq<Action>, i: nat)
    requires Inv(s) && s.shutdown && s.request == Idle && i < |s.vcpus|
    requires CanRun(s, run)
    ensures s.vcpus[i].state == Running ==> s.vcpus[i].stop
    ensures |After(s, run).vcpus| == |s.vcpus|
    ensures s.vcpus[i].state == Created ==> After(s, run).vcpus[i].state == Created
    ensures s.vcpus[i].stop ==> After(s, run).vcpus[i].stop
  {
    InvAt(s, i);
    ShutdownFreezes(s, run, i);
  }

  lemma {:induction false} ShutdownFreezes(s: Vm, run: seq<Action>, i: nat)
    requires Inv(s) && s.shutdown && i < |s.vcpus| && CanRun(s, run)
    ensures |After(s, run).vcpus| == |s.vcpus|
    ensures s.vcpus[i].state == Created ==> After(s, run).vcpus[i].state == Created
    ensures s.vcpus[i].stop ==> After(s, run).vcpus[i].stop
    decreases |run|
  {
    if run != [] {
      StopIsFinal(s, run[0], i);
      StepKeepsInv(s, run[0]);
      hide Inv, Enabled, Apply;
      ShutdownFreezes(Apply(s, run[0]), run[1..], i);
    }
  }
}
