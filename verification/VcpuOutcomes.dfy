/**
 What becomes of a vCPU thread after each exit: the handler gets the exit that KVM_RUN returned, its answer decides
 whether the thread goes on, and a failed run, a failed start or a stop ends it. All over arbitrary runs of the VM.
 */
module VcpuOutcomes {
  import opened VcpuProtocol

  // ----- Along a run -----

  lemma {:induction false} PrefixStep(s: Vm, run: seq<Action>, k: nat)
    requires Inv(s) && CanRun(s, run) && k < |run|
    ensures var before, after := Prefix(s, run, k), Prefix(s, run, k + 1);
            && Inv(before) && |before.vcpus| == |s.vcpus| && Enabled(before, run[k])
            && after == Apply(before, run[k]) && Inv(after) && |after.vcpus| == |s.vcpus|
    decreases k
  {
    hide Inv, Enabled, Apply;
    StepKeepsInv(s, run[0]);
    SameCount(s, run[0]);
    if k == 0 {
      assert Prefix(s, run, 1) == Prefix(Apply(s, run[0]), run[1..], 0);
    } else {
      PrefixStep(Apply(s, run[0]), run[1..], k - 1);
    }
  }

  lemma SameCount(s: Vm, a: Action)
    requires Enabled(s, a)
    ensures |Apply(s, a).vcpus| == |s.vcpus|
  {
    hide OwnApply, OwnEnabled;
  }

  /** A state along a run, as far as one vCPU is concerned. */
  ghost function Thread(s: Vm, run: seq<Action>, i: nat, k: nat): Vcpu
    requires Inv(s) && CanRun(s, run) && i < |s.vcpus| && k <= |run|
  {
    InPrefix(s, run, k);
    Prefix(s, run, k).vcpus[i]
  }

  lemma InPrefix(s: Vm, run: seq<Action>, k: nat)
    requires Inv(s) && CanRun(s, run) && k <= |run|
    ensures Inv(Prefix(s, run, k)) && |Prefix(s, run, k).vcpus| == |s.vcpus|
  {
    hide Inv, Enabled, Apply;
    if k > 0 {
      PrefixStep(s, run, k - 1);
    }
  }

  /** A thread that has started is moved only by its own steps. */
  lemma OthersKeep(s: Vm, a: Action, i: nat)
    requires Inv(s) && Enabled(s, a) && i < |s.vcpus| && s.vcpus[i].state != Created && !Moves(a, i)
    ensures |Apply(s, a).vcpus| == |s.vcpus|
    ensures var v, v' := s.vcpus[i], Apply(s, a).vcpus[i]; v'.pc == v.pc && v'.state == v.state
  {
    if a.Own? && a.i == i {
      DeliverKeepsRank(s.vcpus[i]);
    } else {
      hide Inv;
      OtherEffect(s, a, i);
    }
  }

  /** One step of a run, for one thread: its own move, or nothing it notices in place and state. */
  lemma ThreadStep(s: Vm, run: seq<Action>, i: nat, k: nat)
    requires Inv(s) && CanRun(s, run) && i < |s.vcpus| && k < |run| && Thread(s, run, i, k).state != Created
    ensures var v, v' := Thread(s, run, i, k), Thread(s, run, i, k + 1);
            && Enabled(Prefix(s, run, k), run[k]) && Thread(s, run, i, k + 1).state != Created
            && (!Moves(run[k], i) ==> v'.pc == v.pc && v'.state == v.state)
            && (run[k].Own? && run[k].i == i ==> OwnEnabled(v, run[k].step) && v' == OwnApply(v, run[k].step))
            && (run[k] == TakesLock(i) ==> v.pc.WantLock? && v' == v.(pc := Locked(v.pc.outcome)))
            && (run[k] == LocksAfterBootFailure(i) ==> v.pc == BootFailed && v' == v.(pc := Decide(true)))
            && (run[k] == Releases(i) ==>
                  v.pc.Decide? && v' == if v.pc.finish then v.(state := Stopped, pc := Exited) else v.(pc := LoadStop))
            && (v.state == Running <==> v.pc != Exited) && (v'.state == Running <==> v'.pc != Exited)
  {
    hide OwnApply, OwnEnabled, CanRun, Prefix;
    PrefixStep(s, run, k);
    InvAt(Prefix(s, run, k), i);
    InvAt(Prefix(s, run, k + 1), i);
    StopIsFinal(Prefix(s, run, k), run[k], i);
    if !Moves(run[k], i) {
      OthersKeep(Prefix(s, run, k), run[k], i);
    }
  }

  // ----- Threads that end -----

  /** The thread will end without another handler call. */
  predicate Doomed(pc: Pc) {
    || pc == BootFailed || pc == Decide(true) || pc == Exited
    || pc == ClearImmediate(RunFailed) || pc == WantLock(RunFailed) || pc == Locked(RunFailed)
    || pc == WantLock(StopSeen) || pc == Locked(StopSeen)
  }

  /** How many moves it has left. */
  function MovesLeft(pc: Pc): nat {
    match pc
    case ClearImmediate(_) => 4
    case WantLock(_) => 3
    case Locked(_) => 2
    case BootFailed => 2
    case Decide(_) => 1
    case _ => 0
  }

  function CountMoves(run: seq<Action>, i: nat, k: nat, m: nat): nat
    requires k <= m <= |run|
    decreases m
  {
    if m == k then 0 else CountMoves(run, i, k, m - 1) + if Moves(run[m - 1], i) then 1 else 0
  }

  /** Whether a step of a run calls the handler of a vCPU. */
  ghost predicate EntersAt(s: Vm, run: seq<Action>, i: nat, m: nat)
    requires Inv(s) && CanRun(s, run) && i < |s.vcpus| && m < |run|
  {
    !Thread(s, run, i, m).pc.Handling? && Thread(s, run, i, m + 1).pc.Handling?
  }

  lemma OwnStepOfDoomed(v: Vcpu, step: OwnStep)
    requires Doomed(v.pc) && OwnEnabled(v, step)
    ensures var v' := OwnApply(v, step);
            Doomed(v'.pc) && if step == Deliver then v'.pc == v.pc else MovesLeft(v'.pc) + 1 <= MovesLeft(v.pc)
  {
  }

  lemma DoomedStep(s: Vm, run: seq<Action>, i: nat, k: nat)
    requires Inv(s) && CanRun(s, run) && i < |s.vcpus| && k < |run| && Doomed(Thread(s, run, i, k).pc)
    ensures var v, v' := Thread(s, run, i, k), Thread(s, run, i, k + 1);
            && Doomed(v'.pc) && !EntersAt(s, run, i, k)
            && MovesLeft(v'.pc) + (if Moves(run[k], i) then 1 else 0) <= MovesLeft(v.pc)
  {
    hide Inv, CanRun, Enabled, Thread, OwnApply, OwnEnabled;
    NotCreated(s, run, i, k);
    ThreadStep(s, run, i, k);
    if run[k].Own? && run[k].i == i {
      OwnStepOfDoomed(Thread(s, run, i, k), run[k].step);
    }
  }

  lemma NotCreated(s: Vm, run: seq<Action>, i: nat, k: nat)
    requires Inv(s) && CanRun(s, run) && i < |s.vcpus| && k <= |run| && Thread(s, run, i, k).pc != NotStarted
    ensures Thread(s, run, i, k).state != Created
  {
    hide CanRun, Prefix, Inv;
    InPrefix(s, run, k);
    InvAt(Prefix(s, run, k), i);
  }

  lemma {:induction false} DoomedStays(s: Vm, run: seq<Action>, i: nat, k: nat, m: nat)
    requires Inv(s) && CanRun(s, run) && i < |s.vcpus| && k <= m <= |run| && Doomed(Thread(s, run, i, k).pc)
    ensures Doomed(Thread(s, run, i, m).pc)
    ensures MovesLeft(Thread(s, run, i, m).pc) + CountMoves(run, i, k, m) <= MovesLeft(Thread(s, run, i, k).pc)
    decreases m
  {
    hide Inv, CanRun, Moves, Doomed, MovesLeft;
    if m > k {
      DoomedStays(s, run, i, k, m - 1);
      DoomedStep(s, run, i, m - 1);
    }
  }

  /** A doomed thread never calls its handler again, and has ended after four moves at most. */
  lemma DoomedEnds(s: Vm, run: seq<Action>, i: nat, k: nat, m: nat)
    requires Inv(s) && CanRun(s, run) && i < |s.vcpus| && k <= m <= |run| && Doomed(Thread(s, run, i, k).pc)
    ensures m < |run| ==> !EntersAt(s, run, i, m)
    ensures CountMoves(run, i, k, m) >= MovesLeft(Thread(s, run, i, k).pc) ==>
              Thread(s, run, i, m).pc == Exited && Thread(s, run, i, m).state == Stopped
    ensures MovesLeft(Thread(s, run, i, k).pc) <= 4
  {
    DoomedStays(s, run, i, k, m);
    if m < |run| {
      DoomedStep(s, run, i, m);
    }
    ExitedIsStopped(s, run, i, m);
    hide Inv, CanRun, Thread, Moves;
  }

  lemma ExitedIsStopped(s: Vm, run: seq<Action>, i: nat, k: nat)
    requires Inv(s) && CanRun(s, run) && i < |s.vcpus| && k <= |run|
    ensures Thread(s, run, i, k).pc == Exited <==> Thread(s, run, i, k).state == Stopped
  {
    hide CanRun, Prefix, Inv;
    InPrefix(s, run, k);
    InvAt(Prefix(s, run, k), i);
  }

  /** The moves that doom a thread: a failed start, a failed run, a handler that asks to stop, a stop that is seen. */
  lemma WhatDooms(s: Vm, run: seq<Action>, i: nat, k: nat)
    requires Inv(s) && CanRun(s, run) && i < |s.vcpus| && k < |run|
    requires || run[k] in {Own(i, Boot(false)), Own(i, RunReturns(RunFailed)), Own(i, HandlerReturns(true))}
             || (run[k] in {Own(i, LoadsStop), Own(i, ChecksStop)} && Thread(s, run, i, k).stop)
    ensures Doomed(Thread(s, run, i, k + 1).pc) && Thread(s, run, i, k + 1).state == Running
  {
    hide Inv, CanRun, Enabled;
    OwnHasStarted(s, run, i, k);
    ThreadStep(s, run, i, k);
  }

  lemma OwnHasStarted(s: Vm, run: seq<Action>, i: nat, k: nat)
    requires Inv(s) && CanRun(s, run) && i < |s.vcpus| && k < |run| && run[k].Own? && run[k].i == i
    ensures Thread(s, run, i, k).state == Running
  {
    hide CanRun, Prefix;
    PrefixStep(s, run, k);
    InvAt(Prefix(s, run, k), i);
  }

  // ----- The handler's answer -----

  ghost predicate NoMoves(run: seq<Action>, i: nat, k: nat, m: nat)
    requires k <= m <= |run|
  {
    forall x :: k <= x < m ==> !Moves(run[x], i)
  }

  lemma {:induction false} StaysPut(s: Vm, run: seq<Action>, i: nat, k: nat, m: nat)
    requires Inv(s) && CanRun(s, run) && i < |s.vcpus| && k <= m <= |run| && NoMoves(run, i, k, m)
    requires Thread(s, run, i, k).state == Running
    ensures Thread(s, run, i, m).pc == Thread(s, run, i, k).pc && Thread(s, run, i, m).state == Running
    decreases m
  {
    hide Inv, CanRun, Enabled, Thread, OwnApply, OwnEnabled;
    if m > k {
      StaysPut(s, run, i, k, m - 1);
      ThreadStep(s, run, i, m - 1);
    }
  }

  lemma AnswerDecides(s: Vm, run: seq<Action>, i: nat, k: nat, finish: bool)
    requires Inv(s) && CanRun(s, run) && i < |s.vcpus| && k < |run| && run[k] == Own(i, HandlerReturns(finish))
    ensures Thread(s, run, i, k + 1).pc == Decide(finish) && Thread(s, run, i, k + 1).state == Running
  {
    hide Inv, CanRun, Enabled, Thread;
    OwnHasStarted(s, run, i, k);
    ThreadStep(s, run, i, k);
  }

  /** From a place where only one move is possible, that is the next move. */
  lemma NextMove(s: Vm, run: seq<Action>, i: nat, k: nat, j: nat)
    requires Inv(s) && CanRun(s, run) && i < |s.vcpus| && k <= j < |run| && NoMoves(run, i, k, j) && Moves(run[j], i)
    requires Thread(s, run, i, k).state == Running
    ensures var v, v' := Thread(s, run, i, k), Thread(s, run, i, j + 1);
            && (v.pc == Decide(true) ==> v'.pc == Exited && v'.state == Stopped)
            && (v.pc == Decide(false) ==> v'.pc == LoadStop && v'.state == Running)
            && (v.pc == LoadStop ==>
                  && run[j] == Own(i, LoadsStop) && v'.state == Running
                  && v'.pc == if Thread(s, run, i, j).stop then WantLock(StopSeen) else TakeKick)
  {
    hide Inv, CanRun, Enabled, Thread;
    StaysPut(s, run, i, k, j);
    ThreadStep(s, run, i, j);
  }

  /**
   A handler that asks to stop: the thread's next move ends it, and no later step of the run calls its handler.
   */
  lemma FinishEndsThread(s: Vm, run: seq<Action>, i: nat, k: nat, j: nat, m: nat)
    requires Inv(s) && CanRun(s, run) && i < |s.vcpus| && k < j < |run| && k < m <= |run|
    requires run[k] == Own(i, HandlerReturns(true)) && NoMoves(run, i, k + 1, j) && Moves(run[j], i)
    ensures Thread(s, run, i, j + 1).pc == Exited && Thread(s, run, i, j + 1).state == Stopped
    ensures m < |run| ==> !EntersAt(s, run, i, m)
    ensures m > j ==> Thread(s, run, i, m).state == Stopped
  {
    hide Inv, CanRun, Thread, Moves, NoMoves;
    AnswerDecides(s, run, i, k, true);
    NextMove(s, run, i, k + 1, j);
    DoomedEnds(s, run, i, k + 1, m);
    if m > j {
      DoomedEnds(s, run, i, j + 1, m);
    }
  }

  /** A handler that asks to go on: the next move brings the thread back to the top, the one after tests for a stop. */
  lemma ContinueGoesOn(s: Vm, run: seq<Action>, i: nat, k: nat, j: nat, l: nat)
    requires Inv(s) && CanRun(s, run) && i < |s.vcpus| && k < j < l < |run|
    requires run[k] == Own(i, HandlerReturns(false)) && NoMoves(run, i, k + 1, j) && Moves(run[j], i)
    requires NoMoves(run, i, j + 1, l) && Moves(run[l], i)
    ensures Thread(s, run, i, j + 1).pc == LoadStop && Thread(s, run, i, j + 1).state == Running
    ensures run[l] == Own(i, LoadsStop) && Thread(s, run, i, l + 1).state == Running
    ensures Thread(s, run, i, l + 1).pc == if Thread(s, run, i, l).stop then WantLock(StopSeen) else TakeKick
  {
    hide Inv, CanRun, Thread, Moves, NoMoves;
    AnswerDecides(s, run, i, k, false);
    NextMove(s, run, i, k + 1, j);
    NextMove(s, run, i, j + 1, l);
  }

  // ----- The handler's exit -----

  /** What the thread carries to the handler. */
  function Carried(pc: Pc): (o: Outcome)
    requires pc.ClearImmediate? || pc.ClearKick? || pc.WantLock? || pc.Locked?
  {
    match pc
    case ClearImmediate(o) => o
    case ClearKick => Serve(Interrupted)
    case WantLock(o) => o
    case Locked(o) => o
  }

  predicate Carries(pc: Pc, e: Exit) {
    (pc.ClearImmediate? || pc.ClearKick? || pc.WantLock? || pc.Locked?) && Carried(pc) == Serve(e)
  }

  /** The thread has handed over: its handler runs with the exit, or a stop was seen first. */
  ghost predicate HandsOver(s: Vm, run: seq<Action>, i: nat, e: Exit, x: nat)
    requires Inv(s) && CanRun(s, run) && i < |s.vcpus| && x < |run|
  {
    && Carries(Thread(s, run, i, x).pc, e)
    && if Thread(s, run, i, x).stop then Thread(s, run, i, x + 1).pc == Decide(true)
       else Thread(s, run, i, x + 1).pc == Handling(e)
  }

  /** The moves that start a hand-over: a kick taken, a run not entered because of one, a run that returned. */
  lemma WhatIsCarried(s: Vm, run: seq<Action>, i: nat, k: nat)
    requires Inv(s) && CanRun(s, run) && i < |s.vcpus| && k < |run|
    ensures var v := Thread(s, run, i, k);
            && (run[k] == Own(i, TakesKick) && v.kick ==> Carries(Thread(s, run, i, k + 1).pc, Interrupted))
            && (run[k] == Own(i, TakesKick) && !v.kick ==> Thread(s, run, i, k + 1).pc == EnterRun)
            && (run[k] == Own(i, EntersRun) ==>
                  if v.immediate then Carries(Thread(s, run, i, k + 1).pc, Interrupted) else Thread(s, run, i, k + 1).pc == InRun)
            && (run[k].Own? && run[k].i == i && run[k].step.RunReturns? && run[k].step.result.Serve? ==>
                  Carries(Thread(s, run, i, k + 1).pc, run[k].step.result.exit))
  {
    hide Inv, CanRun, Enabled;
    if run[k].Own? && run[k].i == i {
      OwnHasStarted(s, run, i, k);
      ThreadStep(s, run, i, k);
    }
  }

  lemma CarriedStep(s: Vm, run: seq<Action>, i: nat, e: Exit, k: nat)
    requires Inv(s) && CanRun(s, run) && i < |s.vcpus| && k < |run| && Carries(Thread(s, run, i, k).pc, e)
    ensures Carries(Thread(s, run, i, k + 1).pc, e) || HandsOver(s, run, i, e, k)
  {
    hide Inv, CanRun, Enabled, Thread;
    NotCreated(s, run, i, k);
    ThreadStep(s, run, i, k);
  }

  /** What a thread carries reaches its handler unchanged, unless a stop is seen first. */
  lemma {:induction false} ExitReachesHandler(s: Vm, run: seq<Action>, i: nat, e: Exit, k: nat, m: nat) returns (x: nat)
    requires Inv(s) && CanRun(s, run) && i < |s.vcpus| && k <= m <= |run| && Carries(Thread(s, run, i, k).pc, e)
    requires !Carries(Thread(s, run, i, m).pc, e)
    ensures k <= x < m && HandsOver(s, run, i, e, x)
    decreases m
  {
    hide Inv, CanRun, Thread, Carries, HandsOver;
    if Carries(Thread(s, run, i, m - 1).pc, e) {
      x := m - 1;
      CarriedStep(s, run, i, e, x);
    } else {
      x := ExitReachesHandler(s, run, i, e, k, m - 1);
    }
  }

  // ----- Requests -----

  /**
   What the steps of a request leave behind: a start runs the thread, a kick or stop is stored, the signal is made
   pending for the thread it is for, and its delivery makes the next run return at once.
   */
  lemma RequestEffects(s: Vm, run: seq<Action>, i: nat, k: nat)
    requires Inv(s) && CanRun(s, run) && i < |s.vcpus| && k < |run|
    ensures var v, v' := Thread(s, run, i, k), Thread(s, run, i, k + 1);
            && (run[k] == Start(i) ==> v.state == Created && v'.state == Running && v'.pc == Booting)
            && (run[k] == StoreKick(i) ==> v'.kick && v'.owed) && (run[k] == StoreStop(i) ==> v'.stop)
            && (run[k] == Own(i, Deliver) ==> v.signal && !v'.signal && v'.immediate)
            && (run[k] == Own(i, Boot(true)) ==> v'.pc == LoadStop)
    ensures run[k] == StoreKick(i) || run[k] == StoreStop(i) ==> Prefix(s, run, k + 1).request == FlagStored(i)
    ensures run[k] == BeginShutdown ==>
              Prefix(s, run, k + 1).shutdown && Prefix(s, run, k + 1).request == Shutdown(0)
    ensures run[k] == SendSignal && (Prefix(s, run, k).request == FlagStored(i) || Prefix(s, run, k).request == ShutdownStored(i)) ==>
              Thread(s, run, i, k + 1).signal
  {
    hide CanRun, Prefix, Inv;
    PrefixStep(s, run, k);
  }
}
