/** Whether a blocked sender is woken: when its notification is ahead, how soon it comes, and when it is lost. */
module SafeAsyncWakeUp {
  import opened SafeAsyncProtocol
  import opened SafeAsyncProofs

  /** A sender that is blocked and not yet notified has its notification still ahead. */
  predicate WakeUpAhead(s: State) {
    s.waiting != map[] ==> s.maxQueueSize > 0 && s.status == Inte && |s.queue| >= s.maxQueueSize
  }

  /** The step calls `notify_one`: a delivery at exactly the limit, or an accepted abort. */
  predicate Notifies(s: State, a: Action) {
    match a
    case IdleTick(_, _) => s.status == Inte && |s.queue| == s.maxQueueSize > 0
    case ReleaseCall(mode, _, _) => mode.Abort? && !IsClosing(s) && s.threadCount > 0 && s.maxQueueSize > 0
    case _ => false
  }

  /** A step keeps `WakeUpAhead` exactly when it does not notify one of several waiting senders. */
  lemma StepKeepsWakeUp(s: State, a: Action)
    requires WakeUpAhead(s) && CloseOnce(s) && Enabled(s, a)
    ensures WakeUpAhead(Step(s, a)) <==> !(Notifies(s, a) && |s.waiting| > 1)
  {
    match a
    case SendCall(t, data, mode, ok) =>
    case Wake(t, ok) => WakeKeepsWakeUp(s, t, ok);
    case AcquireCall =>
    case ReleaseCall(mode, pick, ok) => ReleaseKeepsWakeUp(s, mode, pick, ok);
    case AsyncFire(_) =>
    case IdleTick(pick, ok) => ProcessKeepsWakeUp(s, pick, ok);
    case AsyncHandleClosed =>
    case IdleHandleClosed =>
  }

  lemma WakeKeepsWakeUp(s: State, t: ThreadId, ok: bool)
    requires WakeUpAhead(s) && s.status != Unknow && (t in s.waiting || t in s.notified)
    ensures WakeUpAhead(WakeStep(s, t, ok).0)
  {
  }

  lemma ReleaseKeepsWakeUp(s: State, mode: ReleaseMode, pick: ThreadId, ok: bool)
    requires WakeUpAhead(s) && s.status != Unknow && NotifyAllowed(s, pick)
    ensures WakeUpAhead(ReleaseStep(s, mode, pick, ok).0)
            <==> !(Notifies(s, ReleaseCall(mode, pick, ok)) && |s.waiting| > 1)
  {
    if pick in s.waiting {
      RemoveOne(s.waiting, pick);
    }
  }

  lemma FinishKeepsWakeUp(d: State, ok: bool)
    requires d.status == Inte
    ensures WakeUpAhead(FinishTick(d, ok)) <==> WakeUpAhead(d)
  {
  }

  lemma DeliverKeepsWakeUp(s: State, pick: ThreadId)
    requires WakeUpAhead(s) && s.status == Inte && s.queue != [] && NotifyAllowed(s, pick)
    ensures Deliver(s, pick).status == Inte
    ensures WakeUpAhead(Deliver(s, pick)) <==> !(|s.queue| == s.maxQueueSize && |s.waiting| > 1)
  {
    if pick in s.waiting {
      RemoveOne(s.waiting, pick);
    }
  }

  lemma ProcessKeepsWakeUp(s: State, pick: ThreadId, ok: bool)
    requires WakeUpAhead(s) && s.status != Unknow && NotifyAllowed(s, pick)
    ensures WakeUpAhead(ProcessStep(s, pick, ok))
            <==> !(Notifies(s, IdleTick(pick, ok)) && |s.waiting| > 1)
  {
    if s.status == Inte {
      if s.queue != [] {
        DeliverKeepsWakeUp(s, pick);
      }
      FinishKeepsWakeUp(if s.queue != [] then Deliver(s, pick) else s, ok);
    }
    hide Deliver, FinishTick, NotifyAllowed;
  }

  /** Theorem. With at most one un-notified sender at any time, its notification is always ahead. */
  lemma {:induction false} RunKeepsWakeUp(max: nat, threads: nat, states: seq<State>, acts: seq<Action>, i: nat)
    requires IsRun(max, threads, states, acts) && i <= |acts|
    requires forall k :: 0 <= k < i ==> |states[k].waiting| <= 1
    ensures WakeUpAhead(states[i])
  {
    if i > 0 {
      PathStep(states, acts, i - 1);
      hide IsPath, Step, Enabled, WakeUpAhead, Notifies, Inv, CloseOnce;
      RunKeepsWakeUp(max, threads, states, acts, i - 1);
      RunKeepsInv(max, threads, states, acts, i - 1);
      InvCloses(states[i - 1], threads);
      StepKeepsWakeUp(states[i - 1], acts[i - 1]);
    }
  }

  lemma InvCloses(s: State, threads: nat)
    requires Inv(s, threads)
    ensures CloseOnce(s)
  {
  }

  /** An accepted abort frees one blocked sender, so all of them exactly when at most one is blocked. */
  lemma AbortFreesOne(s: State, pick: ThreadId, ok: bool)
    requires BackPressure(s) && s.status == Inte && s.threadCount > 0 && NotifyAllowed(s, pick)
    ensures |ReleaseStep(s, Abort, pick, ok).0.waiting| == if s.waiting == map[] then 0 else |s.waiting| - 1
  {
    if pick in s.waiting {
      RemoveOne(s.waiting, pick);
    }
  }

  lemma StrandedStep(s: State, a: Action, t: ThreadId)
    requires IsClosing(s) && t in s.waiting && Enabled(s, a) && !(a.Wake? && a.t == t)
    ensures IsClosing(Step(s, a)) && t in Step(s, a).waiting
  {
    match a
    case SendCall(_, _, _, _) =>
    case Wake(_, _) =>
    case AcquireCall =>
    case ReleaseCall(_, _, _) =>
    case AsyncFire(_) =>
    case IdleTick(_, _) =>
    case AsyncHandleClosed =>
    case IdleHandleClosed =>
  }

  /** Theorem. A sender left un-notified by the abort stays blocked for ever, spurious wake-ups aside. */
  lemma {:induction false} StrandedForever(states: seq<State>, acts: seq<Action>, t: ThreadId, i: nat)
    requires IsPath(states, acts) && i <= |acts|
    requires IsClosing(states[0]) && t in states[0].waiting
    requires forall k :: 0 <= k < i ==> !(acts[k].Wake? && acts[k].t == t)
    ensures IsClosing(states[i]) && t in states[i].waiting
  {
    if i > 0 {
      StrandedForever(states, acts, t, i - 1);
      StrandedStep(states[i - 1], acts[i - 1], t);
    }
  }

  // ----- A notification that is ahead comes soon -----

  /** How many steps can come before the notifying tick. */
  function ToNotify(s: State): int {
    |s.queue| - s.maxQueueSize + (if s.asyncPending then 1 else 0) + 3 * |s.notified|
  }

  /** A sender waits, its notification is ahead, and the loop will look at the object. */
  ghost predicate Expecting(s: State, threads: nat) {
    Inv(s, threads) && NoLostWork(s) && WakeUpAhead(s) && s.waiting != map[]
  }

  lemma ResumeApproaches(s: State, t: ThreadId)
    requires WakeUpAhead(s) && s.waiting != map[] && t in s.notified && s.waiting.Keys !! s.notified.Keys
    ensures var s' := WakeStep(s, t, true).0;
            s'.waiting != map[] && ToNotify(s') < ToNotify(s)
  {
    var s' := WakeStep(s, t, true).0;
    RemoveOne(s.notified, t);
    assert s'.notified == s.notified - {t};
    var u :| u in s.waiting;
    assert u in s'.waiting;
  }

  lemma TickApproaches(s: State, pick: ThreadId)
    requires WakeUpAhead(s) && s.waiting != map[] && |s.queue| != s.maxQueueSize
    ensures var s' := ProcessStep(s, pick, true);
            s'.waiting == s.waiting && ToNotify(s') < ToNotify(s)
  {
  }

  lemma StepApproaches(s: State, a: Action, threads: nat)
    requires Expecting(s, threads) && Settles(s, a) && Enabled(s, a) && !Notifies(s, a)
    ensures Expecting(Step(s, a), threads) && ToNotify(Step(s, a)) < ToNotify(s)
  {
    hide Fifo, Ledger;
    StepKeepsInv(s, a, threads);
    StepKeepsWork(s, a);
    StepKeepsWakeUp(s, a);
    match a
    case Wake(t, _) => ResumeApproaches(s, t);
    case IdleTick(pick, _) => TickApproaches(s, pick);
    case _ =>
  }

  /** As long as a notification is ahead the loop has a step to take. */
  lemma LoopCanStep(s: State) returns (a: Action)
    requires CloseOnce(s) && NoLostWork(s) && s.status == Inte && s.queue != []
    ensures LoopAction(a) && Enabled(s, a)
    ensures if s.idleActive then a.IdleTick? else a == AsyncFire(true)
  {
    if !s.idleActive {
      a := AsyncFire(true);
    } else if s.waiting == map[] {
      a := IdleTick(0, true);
    } else {
      var t :| t in s.waiting;
      a := IdleTick(t, true);
    }
  }

  lemma {:induction false} ExpectingPath(states: seq<State>, acts: seq<Action>, threads: nat, n: nat, i: nat)
    requires IsPath(states, acts) && n <= i <= |acts| && Expecting(states[n], threads)
    requires forall k :: n <= k < |acts| ==> Settles(states[k], acts[k]) && !Notifies(states[k], acts[k])
    ensures Expecting(states[i], threads) && i - n + ToNotify(states[i]) <= ToNotify(states[n])
  {
    hide Expecting, Step, Enabled, Settles, Notifies, ToNotify;
    if i > n {
      ExpectingPath(states, acts, threads, n, i - 1);
      assert states[i] == Step(states[i - 1], acts[i - 1]);
      StepApproaches(states[i - 1], acts[i - 1], threads);
    }
  }

  /** While a notification is ahead, no step is left over and the loop has one to take. */
  lemma ExpectingGoesOn(s: State, threads: nat) returns (a: Action)
    requires Expecting(s, threads)
    ensures ToNotify(s) >= 0 && LoopAction(a) && Enabled(s, a)
  {
    hide Enabled, LoopAction, Fifo, Ledger;
    a := LoopCanStep(s);
  }

  /**
    Theorem. A notification that is ahead comes: with no new calls from state `n` on, and in whatever order the
    loop and the notified senders go on, at most |queue| - max + 1 + 3 |notified| steps pass before the
    notifying tick, and until then the loop always has a step to take.
   */
  lemma NotifiedSoon(states: seq<State>, acts: seq<Action>, threads: nat, n: nat) returns (a: Action)
    requires IsPath(states, acts) && n <= |acts| && Expecting(states[n], threads)
    requires forall k :: n <= k < |acts| ==> Settles(states[k], acts[k]) && !Notifies(states[k], acts[k])
    ensures |acts| - n <= |states[n].queue| - states[n].maxQueueSize + 1 + 3 * |states[n].notified|
    ensures LoopAction(a) && Enabled(states[|acts|], a)
  {
    hide Expecting, Step, Enabled, Settles, Notifies, LoopAction;
    ExpectingPath(states, acts, threads, n, |acts|);
    a := ExpectingGoesOn(states[|acts|], threads);
  }

  /**
    Theorem. In any run whose waking calls succeed and in which no two senders ever wait un-notified at once,
    a waiting sender's notification comes within |queue| - max + 1 + 3 |notified| further steps.
   */
  lemma RunNotifiesSoon(max: nat, threads: nat, states: seq<State>, acts: seq<Action>, n: nat) returns (a: Action)
    requires IsRun(max, threads, states, acts) && threads > 0 && n <= |acts|
    requires forall k :: 0 <= k < n ==> !LosesWakeup(states[k], acts[k])
    requires forall k :: 0 <= k < n ==> |states[k].waiting| <= 1
    requires states[n].waiting != map[]
    requires forall k :: n <= k < |acts| ==> Settles(states[k], acts[k]) && !Notifies(states[k], acts[k])
    ensures |acts| - n <= |states[n].queue| - max + 1 + 3 * |states[n].notified|
    ensures LoopAction(a) && Enabled(states[|acts|], a)
  {
    hide Step, Enabled, Settles, Notifies, Inv, NoLostWork, WakeUpAhead, LosesWakeup, LoopAction;
    RunKeepsWork(max, threads, states, acts, n);
    RunKeepsInv(max, threads, states, acts, n);
    RunKeepsWakeUp(max, threads, states, acts, n);
    a := NotifiedSoon(states, acts, threads, n);
  }

  // ----- When nothing more is coming -----

  /** Any step but a new call or a spurious wake-up, its libuv call succeeding or not. */
  predicate NoNewCall(s: State, a: Action) {
    a.AsyncFire? || a.IdleTick? || a.AsyncHandleClosed? || a.IdleHandleClosed? || (a.Wake? && a.t in s.notified)
  }

  /** Even all notified senders together cannot fill the queue up to the size at which the loop notifies. */
  predicate TooFew(s: State) {
    IsClosing(s) || |s.queue| + |s.notified| < s.maxQueueSize
  }

  predicate Usable(s: State) {
    s.status != Unknow && s.waiting.Keys !! s.notified.Keys
  }

  lemma WakeStaysTooFew(s: State, t: ThreadId, ok: bool)
    requires TooFew(s) && Usable(s) && t in s.notified
    ensures var s' := WakeStep(s, t, ok).0; TooFew(s') && Usable(s') && s'.waiting == s.waiting
  {
    RemoveOne(s.notified, t);
    assert s.waiting - {t} == s.waiting;
  }

  lemma TickStaysTooFew(s: State, pick: ThreadId, ok: bool)
    requires TooFew(s) && Usable(s)
    ensures var s' := ProcessStep(s, pick, ok);
            TooFew(s') && Usable(s') && s'.waiting == s.waiting && !Notifies(s, IdleTick(pick, ok))
  {
    hide NotifyOne;
  }

  lemma StepStaysTooFew(s: State, a: Action)
    requires TooFew(s) && Usable(s) && NoNewCall(s, a) && Enabled(s, a)
    ensures TooFew(Step(s, a)) && Usable(Step(s, a))
    ensures Step(s, a).waiting == s.waiting && !Notifies(s, a)
  {
    hide WakeStep, ProcessStep;
    match a
    case Wake(t, ok) => WakeStaysTooFew(s, t, ok);
    case AsyncFire(_) =>
    case IdleTick(pick, ok) => TickStaysTooFew(s, pick, ok);
    case AsyncHandleClosed =>
    case IdleHandleClosed =>
  }

  /**
    Theorem. Once they are too few, or the object is closing, every waiting sender stays blocked, whatever the
    loop and the notified senders do.
   */
  lemma {:induction false} LeftBehind(states: seq<State>, acts: seq<Action>, i: nat)
    requires IsPath(states, acts) && i <= |acts| && TooFew(states[0]) && Usable(states[0])
    requires forall k :: 0 <= k < |acts| ==> NoNewCall(states[k], acts[k])
    ensures TooFew(states[i]) && Usable(states[i]) && states[i].waiting == states[0].waiting
  {
    hide TooFew, Usable, Step, Enabled, NoNewCall;
    if i > 0 {
      LeftBehind(states, acts, i - 1);
      StepStaysTooFew(states[i - 1], acts[i - 1]);
    }
  }

  /** With no new calls, this path ends with a notification. */
  ghost predicate LeadsToNotify(s: State, states: seq<State>, acts: seq<Action>) {
    && IsPath(states, acts) && states[0] == s && acts != []
    && (forall k :: 0 <= k < |acts| ==> Settles(states[k], acts[k]))
    && Notifies(states[|acts| - 1], acts[|acts| - 1])
  }

  lemma NotifyingTick(s: State, a: Action)
    requires Enabled(s, a) && LoopAction(a) && Notifies(s, a)
    ensures LeadsToNotify(s, [s, Step(s, a)], [a])
  {
  }

  lemma StepBefore(s: State, a: Action, states: seq<State>, acts: seq<Action>)
    requires Enabled(s, a) && Settles(s, a) && LeadsToNotify(Step(s, a), states, acts)
    ensures LeadsToNotify(s, [s] + states, [a] + acts)
  {
    hide Enabled, Step, Settles, Notifies;
    PathPrepend(s, a, states, acts);
    var states', acts' := [s] + states, [a] + acts;
    forall k | 0 <= k < |acts'|
      ensures Settles(states'[k], acts'[k])
    {
      if k > 0 {
        assert acts'[k] == acts[k - 1] && states'[k] == states[k - 1];
      }
    }
  }

  /** How far the queue is from the notifying size. */
  function Distance(s: State): nat {
    if |s.queue| < s.maxQueueSize then s.maxQueueSize - |s.queue| else |s.queue| - s.maxQueueSize
  }

  /** An open object with a waiting sender that can still be notified. */
  ghost predicate Hopeful(s: State, threads: nat) {
    Inv(s, threads) && NoLostWork(s) && s.status == Inte && s.waiting != map[] && !TooFew(s)
  }

  lemma ResumeGetsCloser(s: State, t: ThreadId, threads: nat)
    requires Hopeful(s, threads) && |s.queue| < s.maxQueueSize && t in s.notified
    ensures Hopeful(Step(s, Wake(t, true)), threads) && Distance(Step(s, Wake(t, true))) < Distance(s)
  {
    hide Fifo, Ledger;
    StepKeepsInv(s, Wake(t, true), threads);
    StepKeepsWork(s, Wake(t, true));
    RemoveOne(s.notified, t);
  }

  lemma LoopGetsCloser(s: State, a: Action, threads: nat)
    requires Hopeful(s, threads) && |s.queue| >= s.maxQueueSize && LoopAction(a) && Enabled(s, a) && !Notifies(s, a)
    requires a.IdleTick? || (a.AsyncFire? && !s.idleActive)
    ensures Hopeful(Step(s, a), threads)
    ensures if a.IdleTick? then Distance(Step(s, a)) < Distance(s)
            else Distance(Step(s, a)) == Distance(s) && Step(s, a).idleActive
  {
    hide Fifo, Ledger;
    StepKeepsInv(s, a, threads);
    StepKeepsWork(s, a);
  }

  lemma {:induction false} HopefulIsNotified(s: State, threads: nat) returns (states: seq<State>, acts: seq<Action>)
    requires Hopeful(s, threads)
    ensures LeadsToNotify(s, states, acts)
    decreases Distance(s), !s.idleActive
  {
    var a: Action;
    if |s.queue| < s.maxQueueSize {
      var t :| t in s.notified;
      a := Wake(t, true);
      ResumeGetsCloser(s, t, threads);
    } else {
      a := LoopCanStep(s);
      if Notifies(s, a) {
        NotifyingTick(s, a);
        return [s, Step(s, a)], [a];
      }
      LoopGetsCloser(s, a, threads);
    }
    hide Hopeful, Notifies, LeadsToNotify, Step;
    var states', acts' := HopefulIsNotified(Step(s, a), threads);
    StepBefore(s, a, states', acts');
    return [s] + states', [a] + acts';
  }

  /**
    Theorem. A sender that waits on an open object can be notified without any new call if and only if the
    queue and the notified senders together reach the limit.
   */
  lemma LeftBehindExactly(s: State, threads: nat)
    requires Inv(s, threads) && NoLostWork(s) && s.status == Inte && s.waiting != map[]
    ensures |s.queue| + |s.notified| >= s.maxQueueSize <==> exists states, acts :: LeadsToNotify(s, states, acts)
  {
    if |s.queue| + |s.notified| >= s.maxQueueSize {
      var states, acts := HopefulIsNotified(s, threads);
    } else {
      hide Inv, NoLostWork, IsPath, Step, LeadsToNotify;
      forall states, acts | LeadsToNotify(s, states, acts)
        ensures false
      {
        NeverNotified(s, states, acts);
      }
    }
  }

  lemma NeverNotified(s: State, states: seq<State>, acts: seq<Action>)
    requires TooFew(s) && Usable(s)
    ensures !LeadsToNotify(s, states, acts)
  {
    if LeadsToNotify(s, states, acts) {
      hide TooFew, Usable, Step;
      var last := |acts| - 1;
      LeftBehind(states, acts, last);
      StepStaysTooFew(states[last], acts[last]);
      assert false;
    }
  }

  // ----- A run that leaves a sender behind -----

  /** No step is one of the failing calls that lose work. */
  ghost predicate Unfailing(states: seq<State>, acts: seq<Action>) {
    |states| > |acts| && forall k {:trigger acts[k]} :: 0 <= k < |acts| ==> !LosesWakeup(states[k], acts[k])
  }

  lemma UnfailingConcat(states1: seq<State>, acts1: seq<Action>, states2: seq<State>, acts2: seq<Action>)
    requires Unfailing(states1, acts1) && |states1| == |acts1| + 1
    requires Unfailing(states2, acts2) && states1[|acts1|] == states2[0]
    ensures Unfailing(states1 + states2[1..], acts1 + acts2)
  {
    hide LosesWakeup;
    var states, acts := states1 + states2[1..], acts1 + acts2;
    forall k | 0 <= k < |acts|
      ensures !LosesWakeup(states[k], acts[k])
    {
      if k < |acts1| {
        assert acts[k] == acts1[k] && states[k] == states1[k];
      } else {
        assert acts[k] == acts2[k - |acts1|] && states[k] == states2[k - |acts1|];
      }
    }
  }

  lemma Join(states1: seq<State>, acts1: seq<Action>, states2: seq<State>, acts2: seq<Action>)
    returns (states: seq<State>, acts: seq<Action>)
    requires IsPath(states1, acts1) && Unfailing(states1, acts1) && |states1| == |acts1| + 1
    requires IsPath(states2, acts2) && Unfailing(states2, acts2) && |states2| == |acts2| + 1
    requires states1[|acts1|] == states2[0]
    ensures IsPath(states, acts) && Unfailing(states, acts) && |states| == |acts| + 1
    ensures states[0] == states1[0] && states[|acts|] == states2[|acts2|]
  {
    hide IsPath, Unfailing;
    states, acts := states1 + states2[1..], acts1 + acts2;
    PathConcat(states1, acts1, states2, acts2);
    UnfailingConcat(states1, acts1, states2, acts2);
  }

  /** Three items are queued on an object with limit two, and two more senders block. */
  lemma FillTheQueue() returns (states: seq<State>, acts: seq<Action>)
    ensures IsPath(states, acts) && |states| == 6 && |acts| == 5 && states[0] == Initial(2, 3) && states[5] == Filled()
    ensures Unfailing(states, acts)
  {
    acts := [SendCall(0, 10, NonBlocking, true), SendCall(0, 11, NonBlocking, true),
             SendCall(0, 12, NonBlocking, true), SendCall(1, 13, Blocking, true), SendCall(2, 14, Blocking, true)];
    var s0 := Initial(2, 3);
    var s1 := Step(s0, acts[0]);
    var s2 := Step(s1, acts[1]);
    var s3 := Step(s2, acts[2]);
    assert s3.queue == [10, 11, 12];
    var s4 := Step(s3, acts[3]);
    states := [s0, s1, s2, s3, s4, Filled()];
  }

  function Filled(): State {
    State(2, 3, Inte, [10, 11, 12], map[1 := 13, 2 := 14], map[], true, false, Open,
          EMPTY_LOG.(pushed := [10, 11, 12]))
  }

  function Drained(): State {
    State(2, 3, Inte, [], map[2 := 14], map[1 := 13], false, false, Open,
          EMPTY_LOG.(pushed := [10, 11, 12], delivered := [10, 11, 12]))
  }

  function Firing(): State {
    Filled().(asyncPending := false, idleActive := true)
  }

  function OneDelivered(): State {
    Firing().(queue := [11, 12], log := Filled().log.(delivered := [10]))
  }

  function TwoDelivered(): State {
    Firing().(queue := [12], waiting := map[2 := 14], notified := map[1 := 13],
              log := Filled().log.(delivered := [10, 11]))
  }

  lemma SecondDelivery()
    ensures Enabled(OneDelivered(), IdleTick(1, true)) && Step(OneDelivered(), IdleTick(1, true)) == TwoDelivered()
  {
    assert map[1 := 13, 2 := 14] - {1} == map[2 := 14];
  }

  lemma OtherDeliveries()
    ensures Enabled(Filled(), AsyncFire(true)) && Step(Filled(), AsyncFire(true)) == Firing()
    ensures Enabled(Firing(), IdleTick(1, true)) && Step(Firing(), IdleTick(1, true)) == OneDelivered()
    ensures Enabled(TwoDelivered(), IdleTick(2, true)) && Step(TwoDelivered(), IdleTick(2, true)) == Drained()
  {
  }

  /** The loop delivers all three, notifying the first sender on the way. */
  lemma DrainTheQueue() returns (states: seq<State>, acts: seq<Action>)
    ensures IsPath(states, acts) && |states| == 5 && |acts| == 4 && states[0] == Filled() && states[4] == Drained()
    ensures Unfailing(states, acts)
  {
    SecondDelivery();
    OtherDeliveries();
    hide Step, Enabled, Filled, Firing, OneDelivered, TwoDelivered, Drained;
    acts := [AsyncFire(true), IdleTick(1, true), IdleTick(1, true), IdleTick(2, true)];
    states := [Filled(), Firing(), OneDelivered(), TwoDelivered(), Drained()];
  }

  /** The first sender pushes its item and the loop delivers it. */
  lemma ResumeTheFirst() returns (states: seq<State>, acts: seq<Action>)
    ensures IsPath(states, acts) && |states| == 4 && |acts| == 3 && states[0] == Drained()
    ensures Unfailing(states, acts)
    ensures var s := states[3];
            && s.status == Inte && s.queue == [] && !s.asyncPending && !s.idleActive
            && s.waiting == map[2 := 14] && s.notified == map[]
  {
    acts := [Wake(1, true), AsyncFire(true), IdleTick(2, true)];
    var s0 := Drained();
    var s1 := Step(s0, acts[0]);
    assert s1 == s0.(queue := [13], asyncPending := true, notified := map[], log := s1.log);
    var s2 := Step(s1, acts[1]);
    states := [s0, s1, s2, Step(s2, acts[2])];
  }

  /**
    Two senders block on an open queue of limit two. The one notification frees the first; by the time it has
    pushed, the queue is too short for another, and the second is left behind with nothing coming.
   */
  lemma OpenObjectStrands() returns (states: seq<State>, acts: seq<Action>)
    ensures |states| == |acts| + 1 && IsRun(2, 3, states, acts) && Unfailing(states, acts)
    ensures var s := states[|acts|];
            && s.status == Inte && s.queue == [] && !s.asyncPending && !s.idleActive
            && s.waiting == map[2 := 14] && s.notified == map[]
  {
    hide IsPath, Unfailing;
    var states1, acts1 := FillTheQueue();
    var states2, acts2 := DrainTheQueue();
    var states3, acts3 := ResumeTheFirst();
    var states4, acts4 := Join(states2, acts2, states3, acts3);
    states, acts := Join(states1, acts1, states4, acts4);
  }

  // ----- A run that strands a sender by an abort -----

  function BothBlocked(): State {
    State(1, 3, Inte, [10, 11], map[1 := 12, 2 := 13], map[], true, false, Open, EMPTY_LOG.(pushed := [10, 11]))
  }

  lemma BlockBoth() returns (states: seq<State>, acts: seq<Action>)
    ensures IsPath(states, acts) && |states| == 5 && |acts| == 4 && states[0] == Initial(1, 3)
    ensures states[4] == BothBlocked() && Unfailing(states, acts)
  {
    acts := [SendCall(0, 10, NonBlocking, true), SendCall(0, 11, NonBlocking, true),
             SendCall(1, 12, Blocking, true), SendCall(2, 13, Blocking, true)];
    var s0 := Initial(1, 3);
    var s1 := Step(s0, acts[0]);
    var s2 := Step(s1, acts[1]);
    assert s2.queue == [10, 11];
    var s3 := Step(s2, acts[2]);
    states := [s0, s1, s2, s3, BothBlocked()];
  }

  lemma AbortWhileBlocked() returns (states: seq<State>, acts: seq<Action>)
    ensures IsPath(states, acts) && |states| == 2 && |acts| == 1 && states[0] == BothBlocked()
    ensures Unfailing(states, acts)
    ensures IsClosing(states[1]) && 2 in states[1].waiting && 2 !in states[1].notified
  {
    acts := [ReleaseCall(Abort, 1, true)];
    states := [BothBlocked(), Step(BothBlocked(), acts[0])];
  }

  /** Two senders block on a queue of limit one, the owner aborts: the second sender is stranded. */
  lemma TwoBlockedSenders() returns (states: seq<State>, acts: seq<Action>)
    ensures |states| == |acts| + 1 && IsRun(1, 3, states, acts) && Unfailing(states, acts)
    ensures IsClosing(states[|acts|]) && 2 in states[|acts|].waiting && 2 !in states[|acts|].notified
  {
    hide IsPath, Unfailing, IsClosing;
    var states1, acts1 := BlockBoth();
    var states2, acts2 := AbortWhileBlocked();
    states, acts := Join(states1, acts1, states2, acts2);
  }
}
