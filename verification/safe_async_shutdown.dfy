/** Orderly shutdown: once nobody holds the object the loop brings it to rest, and `CleanUp` hands back the queue. */
module SafeAsyncShutdown {
  import opened SafeAsyncProtocol
  import opened SafeAsyncProofs

  /** No thread can extend the object's life any more and the loop has been told. */
  predicate WindingDown(s: State) {
    && (s.status == Inte ==> s.threadCount == 0)
    && NoLostWork(s)
    && (s.phase == AsyncClosing ==> !s.idleActive)
  }

  function Remaining(s: State): nat {
    match s.phase
    case Open => |s.queue| + 3 + (if s.asyncPending then 1 else 0)
    case AsyncClosing => 2
    case IdleClosing => 1
    case _ => 0
  }

  lemma WindingDownStep(s: State, a: Action, threads: nat)
    requires Inv(s, threads) && WindingDown(s) && LoopAction(a) && Enabled(s, a)
    ensures Inv(Step(s, a), threads) && WindingDown(Step(s, a)) && Remaining(Step(s, a)) < Remaining(s)
  {
    StepKeepsInv(s, a, threads);
    StepKeepsWork(s, a);
    if a.IdleTick? {
      WindingDownTick(s, a.pick);
    }
  }

  lemma WindingDownTick(s: State, pick: ThreadId)
    requires CloseOnce(s) && WindingDown(s) && s.phase == Open
    ensures WindingDown(ProcessStep(s, pick, true)) || !s.idleActive
    ensures Remaining(ProcessStep(s, pick, true)) < Remaining(s)
  {
  }

  /** Finalized: nothing queued, closed and finalized once, every item accounted for. */
  predicate AtRest(s: State) {
    && s.phase == Finalized && s.status == Closed && s.queue == []
    && s.log.finalizers == 1 && s.log.closes == 1
    && s.log.delivered + s.log.drained == s.log.pushed
  }

  /** Until it is finalized, a winding-down object has a loop step waiting to happen. */
  lemma WindingDownNotStuck(s: State, threads: nat) returns (a: Action)
    requires Inv(s, threads) && WindingDown(s) && s.phase != Finalized
    ensures LoopAction(a) && Enabled(s, a)
  {
    if s.phase == AsyncClosing {
      a := AsyncHandleClosed;
    } else if s.phase == IdleClosing {
      a := IdleHandleClosed;
    } else if s.asyncPending {
      a := AsyncFire(true);
    } else if s.waiting == map[] {
      a := IdleTick(0, true);
    } else {
      var t :| t in s.waiting;
      a := IdleTick(t, true);
    }
  }

  lemma {:induction false} WindingDownPath(states: seq<State>, acts: seq<Action>, threads: nat, n: nat, i: nat)
    requires IsPath(states, acts) && n <= i <= |acts|
    requires Inv(states[n], threads) && WindingDown(states[n])
    requires forall k :: n <= k < |acts| ==> LoopAction(acts[k])
    ensures Inv(states[i], threads) && WindingDown(states[i])
    ensures i - n + Remaining(states[i]) <= Remaining(states[n])
  {
    hide Inv, WindingDown, LoopAction, Enabled, Step, Remaining;
    if i > n {
      WindingDownPath(states, acts, threads, n, i - 1);
      WindingDownStep(states[i - 1], acts[i - 1], threads);
    }
  }

  lemma FinalizedIsAtRest(s: State, threads: nat)
    requires Inv(s, threads) && s.phase == Finalized
    ensures AtRest(s)
  {
    assert s.log.delivered + s.log.drained + [] == s.log.delivered + s.log.drained;
  }

  /** The loop has nothing to do for this object. */
  ghost predicate LoopIsDone(s: State) {
    forall a :: LoopAction(a) ==> !Enabled(s, a)
  }

  /** Neither the loop nor a notified sender has anything to do. */
  ghost predicate IsSettled(s: State) {
    forall a :: Settles(s, a) ==> !Enabled(s, a)
  }

  lemma DoneIsAtRest(s: State, threads: nat)
    requires Inv(s, threads) && WindingDown(s) && LoopIsDone(s)
    ensures AtRest(s)
  {
    hide WindingDown, Fifo, Ledger, BackPressure;
    if s.phase != Finalized {
      var a := WindingDownNotStuck(s, threads);
    } else {
      FinalizedIsAtRest(s, threads);
    }
  }

  /**
    Theorem. From state `n` on, left to the loop alone, a winding-down object takes at most |queue| + 4 steps,
    and the only place it can come to rest is finalized: queue empty, finalizer run once, every item accounted
    for.
   */
  lemma ShutdownTerminates(states: seq<State>, acts: seq<Action>, threads: nat, n: nat)
    requires IsPath(states, acts) && n <= |acts|
    requires Inv(states[n], threads) && WindingDown(states[n])
    requires forall k :: n <= k < |acts| ==> LoopAction(acts[k])
    ensures |acts| - n <= |states[n].queue| + 4
    ensures LoopIsDone(states[|acts|]) ==> AtRest(states[|acts|])
  {
    hide Inv, WindingDown, LoopAction, Enabled, Step, LoopIsDone, AtRest;
    WindingDownPath(states, acts, threads, n, |acts|);
    if LoopIsDone(states[|acts|]) {
      DoneIsAtRest(states[|acts|], threads);
    }
  }

  /** A run whose libuv calls succeed is winding down as soon as the threads are gone or an abort came. */
  lemma {:induction false} RunWindsDown(max: nat, threads: nat, states: seq<State>, acts: seq<Action>, i: nat)
    requires IsRun(max, threads, states, acts) && threads > 0 && i <= |acts|
    requires forall k :: 0 <= k < i ==> !LosesWakeup(states[k], acts[k])
    requires forall k :: 0 <= k < i && acts[k].IdleTick? ==> acts[k].ok
    ensures states[i].phase == AsyncClosing ==> !states[i].idleActive
    ensures states[i].threadCount == 0 || IsClosing(states[i]) ==> WindingDown(states[i])
  {
    RunKeepsWork(max, threads, states, acts, i);
    RunKeepsInv(max, threads, states, acts, i);
    if i > 0 {
      RunWindsDown(max, threads, states, acts, i - 1);
      RunKeepsInv(max, threads, states, acts, i - 1);
      var s, a := states[i - 1], acts[i - 1];
      if a.IdleTick? {
        TickStopsIdle(s, a.pick);
      } else {
        OtherStepsKeepHandles(s, a);
      }
    }
  }

  lemma TickStopsIdle(s: State, pick: ThreadId)
    requires CloseOnce(s) && (s.phase == AsyncClosing ==> !s.idleActive)
    ensures var s' := ProcessStep(s, pick, true); s'.phase == AsyncClosing ==> !s'.idleActive
  {
  }

  lemma OtherStepsKeepHandles(s: State, a: Action)
    requires Enabled(s, a) && !a.IdleTick? && (s.phase == AsyncClosing ==> !s.idleActive)
    ensures var s' := Step(s, a); s'.phase == AsyncClosing ==> !s'.idleActive
  {
    match a
    case SendCall(_, _, _, _) =>
    case Wake(_, _) =>
    case AcquireCall =>
    case ReleaseCall(_, _, _) =>
    case AsyncFire(_) =>
    case AsyncHandleClosed =>
    case IdleHandleClosed =>
  }

  // ----- With senders still parked -----

  /** Pushing costs a parked thread, being notified a place in the wait set. */
  function Parked(s: State): nat {
    3 * (|s.waiting| + |s.notified|) + |s.notified|
  }

  function LoopWork(s: State): nat {
    match s.phase
    case Open => 2 * |s.queue| + 3 + (if s.asyncPending then 1 else 0)
    case AsyncClosing => 2
    case IdleClosing => 1
    case _ => 0
  }

  function RemainingWithSenders(s: State): nat {
    Parked(s) + LoopWork(s)
  }

  lemma NotifyKeepsThreads(s: State, pick: ThreadId)
    requires s.waiting.Keys !! s.notified.Keys
    ensures var n := NotifyOne(s, pick);
            && |n.waiting| + |n.notified| == |s.waiting| + |s.notified| && |n.notified| <= |s.notified| + 1
  {
    if pick in s.waiting {
      RemoveOne(s.waiting, pick);
      AddOne(s.notified, pick, s.waiting[pick]);
    }
  }

  lemma DeliverUsesUp(s: State, pick: ThreadId)
    requires s.phase == Open && s.waiting.Keys !! s.notified.Keys && s.queue != []
    ensures RemainingWithSenders(Deliver(s, pick)) < RemainingWithSenders(s)
  {
    NotifyKeepsThreads(s, pick);
  }

  lemma FinishUsesUp(d: State, ok: bool)
    requires d.phase == Open && d.status != Closed
    ensures RemainingWithSenders(FinishTick(d, ok)) <= RemainingWithSenders(d)
    ensures d.queue == [] && d.threadCount == 0 ==>
              RemainingWithSenders(FinishTick(d, ok)) < RemainingWithSenders(d)
  {
  }

  lemma CloseUsesUp(s: State)
    requires s.phase == Open && s.status != Closed
    ensures RemainingWithSenders(CloseHandlesStep(s).0) < RemainingWithSenders(s)
  {
  }

  lemma TickUsesUp(s: State, pick: ThreadId)
    requires s.phase == Open && s.status != Closed && s.waiting.Keys !! s.notified.Keys
    requires s.status == Inte ==> s.threadCount == 0
    requires s.status != Unknow
    ensures RemainingWithSenders(ProcessStep(s, pick, true)) < RemainingWithSenders(s)
  {
    if s.status == Closing {
      CloseUsesUp(s.(idleActive := false));
    } else {
      if s.queue != [] {
        DeliverUsesUp(s, pick);
        DeliverTells(s, pick);
      }
      FinishUsesUp(if s.queue != [] then Deliver(s, pick) else s, true);
    }
    hide Deliver, FinishTick, CloseHandlesStep, Parked;
  }

  lemma ThreadsAreNoWork(s: State, waiting: map<ThreadId, Data>, notified: map<ThreadId, Data>)
    ensures LoopWork(s.(waiting := waiting, notified := notified)) == LoopWork(s)
  {
  }

  lemma PushAddsWork(s: State, data: Data)
    ensures var s' := SendTail(s, data, true).0;
            && LoopWork(s') <= LoopWork(s) + 3
            && s'.waiting == s.waiting && s'.notified == s.notified
  {
  }

  lemma ParkedAfterResuming(s: State, t: ThreadId)
    requires s.waiting.Keys !! s.notified.Keys && t in s.notified
    ensures var awake := s.(waiting := s.waiting - {t}, notified := s.notified - {t});
            && Parked(awake) + 4 == Parked(s)
            && Parked(awake.(waiting := awake.waiting[t := s.notified[t]])) + 1 == Parked(s)
  {
    RemoveOne(s.notified, t);
    assert s.waiting - {t} == s.waiting;
    AddOne(s.waiting, t, s.notified[t]);
  }

  lemma ResumeUsesUp(s: State, t: ThreadId)
    requires s.waiting.Keys !! s.notified.Keys && t in s.notified
    ensures RemainingWithSenders(WakeStep(s, t, true).0) < RemainingWithSenders(s)
  {
    var waiting, notified := s.waiting - {t}, s.notified - {t};
    ParkedAfterResuming(s, t);
    ThreadsAreNoWork(s, waiting, notified);
    ThreadsAreNoWork(s, waiting[t := s.notified[t]], notified);
    PushAddsWork(s.(waiting := waiting, notified := notified), s.notified[t]);
    hide SendTail, LoopWork, IsMaxQueueSize;
  }

  lemma ResumeKeepsWindingDown(s: State, t: ThreadId)
    requires CloseOnce(s) && WindingDown(s) && t in s.notified
    ensures WindingDown(WakeStep(s, t, true).0)
  {
  }

  lemma SettlingStep(s: State, a: Action, threads: nat)
    requires Inv(s, threads) && WindingDown(s) && Settles(s, a) && Enabled(s, a)
    ensures Inv(Step(s, a), threads) && WindingDown(Step(s, a))
    ensures RemainingWithSenders(Step(s, a)) < RemainingWithSenders(s)
  {
    hide Fifo, Ledger, WindingDown, Remaining;
    if a.Wake? {
      StepKeepsInv(s, a, threads);
      ResumeKeepsWindingDown(s, a.t);
      ResumeUsesUp(s, a.t);
    } else {
      WindingDownStep(s, a, threads);
      if a.IdleTick? {
        IdleTickOpen(s, threads, a);
        TickUsesUp(s, a.pick);
      }
    }
  }

  lemma IdleTickOpen(s: State, threads: nat, a: Action)
    requires Inv(s, threads) && WindingDown(s) && a.IdleTick? && Enabled(s, a)
    ensures s.phase == Open && s.status != Closed && s.status != Unknow
    ensures s.status == Inte ==> s.threadCount == 0
  {
  }

  lemma {:induction false} SettlingPath(states: seq<State>, acts: seq<Action>, threads: nat, n: nat, i: nat)
    requires IsPath(states, acts) && n <= i <= |acts|
    requires Inv(states[n], threads) && WindingDown(states[n])
    requires forall k :: n <= k < |acts| ==> Settles(states[k], acts[k])
    ensures Inv(states[i], threads) && WindingDown(states[i])
    ensures i - n + RemainingWithSenders(states[i]) <= RemainingWithSenders(states[n])
  {
    hide Inv, WindingDown, Settles, Enabled, Step, RemainingWithSenders;
    if i > n {
      SettlingPath(states, acts, threads, n, i - 1);
      SettlingStep(states[i - 1], acts[i - 1], threads);
    }
  }

  lemma NotifiedCanResume(s: State)
    ensures s.notified == map[] || exists a :: Settles(s, a) && Enabled(s, a)
  {
    if t :| t in s.notified {
      assert Settles(s, Wake(t, true)) && Enabled(s, Wake(t, true));
    }
  }

  lemma SettledIsAtRest(s: State, threads: nat)
    requires Inv(s, threads) && WindingDown(s) && IsSettled(s)
    ensures AtRest(s) && s.notified == map[]
  {
    hide WindingDown, Fifo, Ledger, BackPressure, AtRest;
    NotifiedCanResume(s);
    assert forall a :: LoopAction(a) ==> Settles(s, a);
    DoneIsAtRest(s, threads);
  }

  /**
    Theorem. With senders still parked, a winding-down object settles in a number of steps linear in the queue
    and the parked senders, in whatever order the loop and the notified senders go on; and it can only come to
    rest finalized, with every notified sender answered.
   */
  lemma ShutdownWithSenders(states: seq<State>, acts: seq<Action>, threads: nat, n: nat)
    requires IsPath(states, acts) && n <= |acts|
    requires Inv(states[n], threads) && WindingDown(states[n])
    requires forall k :: n <= k < |acts| ==> Settles(states[k], acts[k])
    ensures |acts| - n <= 2 * |states[n].queue| + 3 * |states[n].waiting| + 4 * |states[n].notified| + 4
    ensures IsSettled(states[|acts|]) ==> AtRest(states[|acts|]) && states[|acts|].notified == map[]
  {
    hide Inv, WindingDown, Settles, Enabled, Step, IsSettled, AtRest;
    SettlingPath(states, acts, threads, n, |acts|);
    if IsSettled(states[|acts|]) {
      SettledIsAtRest(states[|acts|], threads);
    }
  }

  /**
    Theorem. In any run whose libuv calls succeed: once no thread holds the object, or an abort came, the
    loop and the senders it has notified bring it to rest finalized; the loop alone within |queue| + 4 steps.
   */
  lemma OrderlyShutdown(max: nat, threads: nat, states: seq<State>, acts: seq<Action>, n: nat)
    requires IsRun(max, threads, states, acts) && threads > 0 && n <= |acts|
    requires forall k :: 0 <= k < n ==> !LosesWakeup(states[k], acts[k])
    requires forall k :: 0 <= k < n && acts[k].IdleTick? ==> acts[k].ok
    requires states[n].threadCount == 0 || IsClosing(states[n])
    requires forall k :: n <= k < |acts| ==> Settles(states[k], acts[k])
    ensures |acts| - n <= 2 * |states[n].queue| + 3 * |states[n].waiting| + 4 * |states[n].notified| + 4
    ensures IsSettled(states[|acts|]) ==> AtRest(states[|acts|]) && states[|acts|].notified == map[]
    ensures (forall k :: n <= k < |acts| ==> LoopAction(acts[k])) ==>
              |acts| - n <= |states[n].queue| + 4
              && (LoopIsDone(states[|acts|]) ==> AtRest(states[|acts|]))
  {
    hide Inv, WindingDown, LoopAction, Settles, Enabled, Step, LosesWakeup, IsSettled, LoopIsDone, AtRest;
    RunWindsDown(max, threads, states, acts, n);
    RunKeepsInv(max, threads, states, acts, n);
    ShutdownWithSenders(states, acts, threads, n);
    if forall k :: n <= k < |acts| ==> LoopAction(acts[k]) {
      ShutdownTerminates(states, acts, threads, n);
    }
  }

  // ----- CleanUp against concurrent callers -----

  /** One turn of the loop in `CleanUp`: the front item is handed back. */
  function DrainOne(s: State): State {
    if s.queue == [] then s
    else s.(queue := s.queue[1..], log := s.log.(drained := s.log.drained + [s.queue[0]]))
  }

  function DrainAll(s: State): State
    decreases |s.queue|
  {
    if s.queue == [] then s else DrainAll(DrainOne(s))
  }

  function Finalize(s: State): State {
    s.(phase := Finalized, log := s.log.(finalizers := s.log.finalizers + 1))
  }

  /** `CleanUp` is the finalizer and then one item after the other. */
  lemma {:induction false} DrainAllDrains(s: State)
    ensures DrainAll(s) == s.(queue := [], log := s.log.(drained := s.log.drained + s.queue))
    decreases |s.queue|
  {
    if s.queue == [] {
      assert s.log.drained + [] == s.log.drained;
    } else {
      DrainAllDrains(DrainOne(s));
      assert s.log.drained + [s.queue[0]] + s.queue[1..] == s.log.drained + s.queue;
    }
  }

  lemma CleanUpIsDraining(s: State)
    ensures CleanUpStep(s) == DrainAll(Finalize(s))
  {
    DrainAllDrains(Finalize(s));
  }

  /** What another thread can do while `CleanUp` runs. */
  predicate OtherThread(a: Action) {
    a.SendCall? || a.Wake? || a.AcquireCall? || a.ReleaseCall?
  }

  /** A closed object's queue and what becomes of its items are out of reach of other threads. */
  lemma CallOnClosed(s: State, a: Action, q: seq<Data>, drained: seq<Data>, phase: Phase, finalizers: nat)
    requires s.status == Closed && Enabled(s, a) && OtherThread(a)
    ensures var t := s.(queue := q, phase := phase, log := s.log.(drained := drained, finalizers := finalizers));
            var r := Step(s, a);
            && Enabled(t, a) && r.status == Closed && r.queue == s.queue && r.log.drained == s.log.drained
            && r.phase == s.phase && r.log.finalizers == s.log.finalizers
            && Step(t, a) == r.(queue := q, phase := phase, log := r.log.(drained := drained, finalizers := finalizers))
  {
    hide SendTail;
    match a
    case SendCall(_, data, _, ok) => SendOnClosed(s, data, ok, q, drained, phase, finalizers);
    case Wake(t, ok) =>
      var data := if t in s.notified then s.notified[t] else s.waiting[t];
      SendOnClosed(s.(waiting := s.waiting - {t}, notified := s.notified - {t}), data, ok, q, drained, phase,
                   finalizers);
    case AcquireCall =>
    case ReleaseCall(_, _, _) =>
  }

  lemma SendOnClosed(s: State, data: Data, ok: bool, q: seq<Data>, drained: seq<Data>, phase: Phase,
                     finalizers: nat)
    requires s.status == Closed
    ensures var t := s.(queue := q, phase := phase, log := s.log.(drained := drained, finalizers := finalizers));
            var r := SendTail(s, data, ok).0;
            && r.status == Closed && r.queue == s.queue && r.log.drained == s.log.drained
            && r.phase == s.phase && r.log.finalizers == s.log.finalizers
            && SendTail(t, data, ok).0
               == r.(queue := q, phase := phase, log := r.log.(drained := drained, finalizers := finalizers))
  {
  }

  /**
    `CleanUp` runs without the mutex. Any call another thread makes meanwhile, before the finalizer, between
    two items or after the last, commutes with what is left of it, so treating it as one step loses no
    behaviour.
   */
  lemma CleanUpCommutes(s: State, a: Action)
    requires s.status == Closed && Enabled(s, a) && OtherThread(a)
    ensures Enabled(CleanUpStep(s), a) && Step(CleanUpStep(s), a) == CleanUpStep(Step(s, a))
    ensures Enabled(DrainOne(s), a) && Step(DrainOne(s), a) == DrainOne(Step(s, a))
    ensures Enabled(DrainAll(s), a) && Step(DrainAll(s), a) == DrainAll(Step(s, a))
  {
    hide Step, Enabled;
    var all := s.log.drained + s.queue;
    CallOnClosed(s, a, [], all, Finalized, s.log.finalizers + 1);
    CallOnClosed(s, a, [], all, s.phase, s.log.finalizers);
    if s.queue != [] {
      CallOnClosed(s, a, s.queue[1..], s.log.drained + [s.queue[0]], s.phase, s.log.finalizers);
    }
    DrainAllDrains(s);
    DrainAllDrains(Step(s, a));
  }
}
