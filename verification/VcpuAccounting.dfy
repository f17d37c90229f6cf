/**
 Accounts kept along a run of the VM: what a worker has consumed does not come back, every INTERRUPTED handler call
 has a cause of its own, and every acquisition of the big lock is matched by its release.
 */
module VcpuAccounting {
  import opened VcpuProtocol
  import opened VcpuOutcomes

  lemma InitialInv(s: Vm)
    requires Initial(s)
    ensures Inv(s)
  {
  }

  // ----- Consumed requests -----

  /** A step of a run that commits a worker to an INTERRUPTED handler call. */
  ghost predicate Commits(s: Vm, run: seq<Action>, i: nat, j: nat)
    requires Inv(s) && CanRun(s, run) && i < |s.vcpus| && j < |run|
  {
    Thread(s, run, i, j).pc != WantLock(Serve(Interrupted)) && Thread(s, run, i, j + 1).pc == WantLock(Serve(Interrupted))
  }

  /** By then its kick flag is consumed, and only a new kick can set it again. */
  lemma {:induction false} KickIsConsumed(s: Vm, run: seq<Action>, i: nat, j: nat, k: nat)
    requires Inv(s) && CanRun(s, run) && i < |s.vcpus| && j < k <= |run| && Commits(s, run, i, j)
    requires forall m :: j < m < k ==> run[m] != StoreKick(i)
    ensures !Thread(s, run, i, k).kick
    decreases k
  {
    hide CanRun, Prefix, Inv, Thread;
    FlagStep(s, run, i, k - 1);
    if k > j + 1 {
      KickIsConsumed(s, run, i, j, k - 1);
    }
  }

  /** After a run of the guest its immediate-exit flag is consumed, and only a signal can set it again. */
  lemma {:induction false} ImmediateIsConsumed(s: Vm, run: seq<Action>, i: nat, j: nat, k: nat)
    requires Inv(s) && CanRun(s, run) && i < |s.vcpus| && j < k <= |run| && run[j] == Own(i, ClearsImmediate)
    requires forall m :: j < m < k ==> run[m] != Own(i, Deliver)
    ensures !Thread(s, run, i, k).immediate
    decreases k
  {
    hide CanRun, Prefix, Inv, Thread;
    FlagStep(s, run, i, k - 1);
    if k > j + 1 {
      ImmediateIsConsumed(s, run, i, j, k - 1);
    }
  }

  lemma FlagStep(s: Vm, run: seq<Action>, i: nat, k: nat)
    requires Inv(s) && CanRun(s, run) && i < |s.vcpus| && k < |run|
    ensures Commits(s, run, i, k) ==> !Thread(s, run, i, k + 1).kick
    ensures run[k] != StoreKick(i) && !Thread(s, run, i, k).kick ==> !Thread(s, run, i, k + 1).kick
    ensures run[k] == Own(i, ClearsImmediate) ==> !Thread(s, run, i, k + 1).immediate
    ensures run[k] != Own(i, Deliver) && !Thread(s, run, i, k).immediate ==> !Thread(s, run, i, k + 1).immediate
  {
    hide CanRun, Prefix, Inv, Enabled, Apply, OwnApply, OwnEnabled;
    PrefixStep(s, run, k);
    var t, a := Prefix(s, run, k), run[k];
    if a.Own? && a.i == i {
      OwnFlags(t, a, i);
    } else {
      OtherFlags(t, a, i);
    }
  }

  lemma OwnFlags(s: Vm, a: Action, i: nat)
    requires Enabled(s, a) && i < |s.vcpus| && a.Own? && a.i == i
    ensures |Apply(s, a).vcpus| == |s.vcpus|
    ensures var v, v' := s.vcpus[i], Apply(s, a).vcpus[i];
            && (v.pc != WantLock(Serve(Interrupted)) && v'.pc == WantLock(Serve(Interrupted)) ==> !v'.kick)
            && (!v.kick ==> !v'.kick) && (a.step == ClearsImmediate ==> !v'.immediate)
            && (a.step != Deliver && !v.immediate ==> !v'.immediate)
  {
    hide OwnApply, OwnEnabled;
    OwnFlagsOf(s.vcpus[i], a.step);
  }

  lemma OwnFlagsOf(v: Vcpu, step: OwnStep)
    requires OwnEnabled(v, step)
    ensures var v' := OwnApply(v, step);
            && (v.pc != WantLock(Serve(Interrupted)) && v'.pc == WantLock(Serve(Interrupted)) ==> !v'.kick)
            && (!v.kick ==> !v'.kick) && (step == ClearsImmediate ==> !v'.immediate)
            && (step != Deliver && !v.immediate ==> !v'.immediate)
  {
  }

  lemma OtherFlags(s: Vm, a: Action, i: nat)
    requires Enabled(s, a) && i < |s.vcpus| && !(a.Own? && a.i == i)
    ensures |Apply(s, a).vcpus| == |s.vcpus|
    ensures var v, v' := s.vcpus[i], Apply(s, a).vcpus[i];
            && v'.kick == (v.kick || a == StoreKick(i)) && v'.immediate == v.immediate
            && v'.signal == (v.signal || (a == SendSignal && Announcing(s, i)))
            && (v'.pc == WantLock(Serve(Interrupted)) ==> v.pc == WantLock(Serve(Interrupted)))
  {
    hide OwnApply, OwnEnabled, MayRequest;
    if !a.AdvanceShutdown? && !a.SendSignal? && !a.Own? {
    } else if a.Own? {
      assert Apply(s, a) == Set(s, a.i, OwnApply(s.vcpus[a.i], a.step));
    }
  }

  // ----- Every interrupt has a cause -----

  /** A step that gives a worker a reason for an INTERRUPTED handler call. */
  ghost predicate Causes(s: Vm, run: seq<Action>, i: nat, m: nat)
    requires CanRun(s, run) && m < |run|
  {
    || run[m] == StoreKick(i)
    || (run[m] == SendSignal && Announcing(Prefix(s, run, m), i))
    || run[m] == Own(i, RunReturns(Serve(Interrupted)))
  }

  ghost function CauseCount(s: Vm, run: seq<Action>, i: nat, k: nat): nat
    requires CanRun(s, run) && k <= |run|
    decreases k
  {
    if k == 0 then 0 else CauseCount(s, run, i, k - 1) + if Causes(s, run, i, k - 1) then 1 else 0
  }

  ghost predicate CallsInterrupted(s: Vm, run: seq<Action>, i: nat, m: nat)
    requires Inv(s) && CanRun(s, run) && i < |s.vcpus| && m < |run|
  {
    !Thread(s, run, i, m).pc.Handling? && Thread(s, run, i, m + 1).pc == Handling(Interrupted)
  }

  ghost function CallCount(s: Vm, run: seq<Action>, i: nat, k: nat): nat
    requires Inv(s) && CanRun(s, run) && i < |s.vcpus| && k <= |run|
    decreases k
  {
    if k == 0 then 0 else CallCount(s, run, i, k - 1) + if CallsInterrupted(s, run, i, k - 1) then 1 else 0
  }

  function One(b: bool): nat { if b then 1 else 0 }

  /** Causes not yet spent; an immediate exit that has just been taken is about to be cleared. */
  function Unspent(v: Vcpu): nat {
    One(v.kick) + One(v.signal) + One(v.immediate && !v.pc.ClearImmediate?) + One(CarriesInterrupt(v.pc))
  }

  /** In any run from the start, a vCPU gets no more INTERRUPTED calls than it had kicks, signals and interrupted runs. */
  lemma InterruptsAreCaused(s: Vm, run: seq<Action>, i: nat, k: nat)
    requires Initial(s) && CanRun(s, run) && i < |s.vcpus| && k <= |run|
    ensures Inv(s) && CallCount(s, run, i, k) <= CauseCount(s, run, i, k)
  {
    InitialInv(s);
    hide CanRun, Inv, CallCount, CauseCount;
    Accounted(s, run, i, k);
  }

  lemma {:induction false} Accounted(s: Vm, run: seq<Action>, i: nat, k: nat)
    requires Inv(s) && CanRun(s, run) && i < |s.vcpus| && k <= |run|
    ensures CallCount(s, run, i, k) + Unspent(Thread(s, run, i, k)) <= CauseCount(s, run, i, k) + Unspent(s.vcpus[i])
    decreases k
  {
    hide CanRun, Inv, Unspent, CallsInterrupted, Causes;
    if k > 0 {
      hide Thread, Prefix;
      Accounted(s, run, i, k - 1);
      Spends(s, run, i, k - 1);
    }
  }

  lemma Spends(s: Vm, run: seq<Action>, i: nat, k: nat)
    requires Inv(s) && CanRun(s, run) && i < |s.vcpus| && k < |run|
    ensures One(CallsInterrupted(s, run, i, k)) + Unspent(Thread(s, run, i, k + 1)) <=
            One(Causes(s, run, i, k)) + Unspent(Thread(s, run, i, k))
  {
    hide CanRun, Prefix, Unspent, OwnApply, OwnEnabled;
    PrefixStep(s, run, k);
    var t, a := Prefix(s, run, k), run[k];
    InvAt(t, i);
    hide Inv;
    if a.Own? && a.i == i {
      OwnSpends(t.vcpus[i], a.step, t.lock == Worker(i), Announcing(t, i), t.shutdown && ShutdownReached(t, i));
    } else {
      OtherSpends(t, a, i);
    }
  }

  lemma OwnSpends(v: Vcpu, step: OwnStep, owner: bool, announcing: bool, shutdownPassed: bool)
    requires RecordInv(v, owner, announcing, shutdownPassed) && OwnEnabled(v, step)
    ensures var v' := OwnApply(v, step);
            One(!v.pc.Handling? && v'.pc == Handling(Interrupted)) + Unspent(v') <=
            One(step == RunReturns(Serve(Interrupted))) + Unspent(v)
  {
  }

  lemma OtherSpends(s: Vm, a: Action, i: nat)
    requires Enabled(s, a) && i < |s.vcpus| && !(a.Own? && a.i == i)
    requires s.vcpus[i].state == Created ==> s.vcpus[i].pc == NotStarted
    ensures |Apply(s, a).vcpus| == |s.vcpus|
    ensures var v, v' := s.vcpus[i], Apply(s, a).vcpus[i];
            && !(!v.pc.Handling? && v'.pc == Handling(Interrupted))
            && Unspent(v') <= One(a == StoreKick(i) || (a == SendSignal && Announcing(s, i))) + Unspent(v)
  {
    OtherEffect(s, a, i);
    OtherFlags(s, a, i);
    OtherStarts(s, a, i);
    hide OwnApply, OwnEnabled, Apply, Enabled;
  }

  lemma OtherStarts(s: Vm, a: Action, i: nat)
    requires Enabled(s, a) && i < |s.vcpus|
    ensures a == Start(i) ==> s.vcpus[i].state == Created
    ensures a == LocksAfterBootFailure(i) ==> s.vcpus[i].pc == BootFailed
    ensures a == TakesLock(i) ==> s.vcpus[i].pc.WantLock?
    ensures a == Releases(i) ==> s.vcpus[i].pc.Decide?
  {
  }

  // ----- The big lock -----

  predicate Acquires(a: Action, holder: Lock) {
    match holder
    case Free => false
    case Controller => a == ControllerLocks
    case Worker(i) => a == TakesLock(i) || a == LocksAfterBootFailure(i)
  }

  predicate GivesUp(a: Action, holder: Lock) {
    match holder
    case Free => false
    case Controller => a == ControllerUnlocks
    case Worker(i) => a == Releases(i)
  }

  function AcquireCount(run: seq<Action>, holder: Lock, k: nat): nat
    requires k <= |run|
  {
    if k == 0 then 0 else AcquireCount(run, holder, k - 1) + One(Acquires(run[k - 1], holder))
  }

  function ReleaseCount(run: seq<Action>, holder: Lock, k: nat): nat
    requires k <= |run|
  {
    if k == 0 then 0 else ReleaseCount(run, holder, k - 1) + One(GivesUp(run[k - 1], holder))
  }

  /** The lock is with whoever has acquired it once more than released it, and free exactly when nobody has. */
  lemma {:induction false} LockIsBalanced(s: Vm, run: seq<Action>, holder: Lock, k: nat)
    requires Initial(s) && CanRun(s, run) && holder != Free && k <= |run|
    ensures AcquireCount(run, holder, k) == ReleaseCount(run, holder, k) + One(Prefix(s, run, k).lock == holder)
    decreases k
  {
    InitialInv(s);
    hide CanRun, Inv, Acquires, GivesUp;
    if k > 0 {
      hide Prefix, Initial;
      LockIsBalanced(s, run, holder, k - 1);
      PrefixStep(s, run, k - 1);
      LockStep(Prefix(s, run, k - 1), run[k - 1], holder);
    }
  }

  lemma LockStep(s: Vm, a: Action, holder: Lock)
    requires Inv(s) && Enabled(s, a) && holder != Free
    ensures One(Acquires(a, holder)) + One(s.lock == holder) == One(GivesUp(a, holder)) + One(Apply(s, a).lock == holder)
  {
    hide OwnApply, OwnEnabled;
    if a.Releases? {
      InvAt(s, a.i);
    }
  }
}
