/** What every run of the thread-safe function protocol keeps. */
module SafeAsyncProofs {
  import opened SafeAsyncProtocol

  // ----- Safety: contents, status, ledger, back-pressure -----

  /** First in, first out, exactly once: every pushed item is delivered, drained or still queued, in order. */
  predicate Fifo(s: State) {
    && s.log.pushed == s.log.delivered + s.log.drained + s.queue
    && (s.phase != Finalized ==> s.log.drained == [])
    && (s.phase == Finalized ==> s.queue == [])
  }

  /** The handles are closed once, on the way to `Closed`; the finalizer runs once, after that. */
  predicate CloseOnce(s: State) {
    && s.status != Unknow && !s.phase.Unopened? && !s.phase.GivenUp?
    && (s.phase == Open <==> s.status != Closed)
    && s.log.closes == (if s.status == Closed then 1 else 0)
    && s.log.finalizers == (if s.phase == Finalized then 1 else 0)
    && (s.status == Closing ==> s.log.aborted)
    && (s.log.aborted ==> s.status != Inte)
    && (s.status == Closed && !s.log.aborted ==> s.queue == [] && s.threadCount == 0 && s.log.drained == [])
  }

  predicate Ledger(s: State, threads: nat) {
    s.threadCount + s.log.released + s.log.closedSends == threads + s.log.acquired
  }

  predicate BackPressure(s: State) {
    && (s.maxQueueSize > 0 ==> |s.queue| <= s.maxQueueSize + 1)
    && (s.maxQueueSize == 0 ==> s.waiting == map[])
    && s.waiting.Keys !! s.notified.Keys
  }

  /** Everything that holds in every reachable state, whether or not libuv calls fail. */
  predicate Inv(s: State, threads: nat) {
    Fifo(s) && CloseOnce(s) && Ledger(s, threads) && BackPressure(s)
  }

  lemma SendTailKeepsInv(s: State, data: Data, ok: bool, threads: nat)
    requires Inv(s, threads) && !IsMaxQueueSize(s)
    ensures Inv(SendTail(s, data, ok).0, threads)
  {
  }

  lemma WakeKeepsInv(s: State, t: ThreadId, ok: bool, threads: nat)
    requires Inv(s, threads) && (t in s.waiting || t in s.notified)
    ensures Inv(WakeStep(s, t, ok).0, threads)
  {
    var data := if t in s.notified then s.notified[t] else s.waiting[t];
    var awake := s.(waiting := s.waiting - {t}, notified := s.notified - {t});
    if !IsMaxQueueSize(awake) {
      SendTailKeepsInv(awake, data, ok, threads);
    }
  }

  lemma ReleaseKeepsInv(s: State, mode: ReleaseMode, pick: ThreadId, ok: bool, threads: nat)
    requires Inv(s, threads)
    ensures Inv(ReleaseStep(s, mode, pick, ok).0, threads)
  {
  }

  lemma CloseHandlesKeepsInv(s: State, threads: nat)
    requires Inv(s, threads)
    requires s.status == Inte ==> s.queue == [] && s.threadCount == 0
    ensures Inv(CloseHandlesStep(s).0, threads)
  {
  }

  lemma DeliverKeepsInv(s: State, pick: ThreadId, threads: nat)
    requires Inv(s, threads) && s.queue != [] && s.status == Inte
    ensures Inv(Deliver(s, pick), threads)
  {
    assert s.queue == [s.queue[0]] + s.queue[1..];
  }

  lemma FinishKeepsInv(d: State, ok: bool, threads: nat)
    requires Inv(d, threads)
    ensures Inv(FinishTick(d, ok), threads)
  {
    hide Inv, CloseHandlesStep;
    StoppingKeepsInv(d, d.idleActive && !ok, threads);
    if d.queue == [] && d.threadCount == 0 {
      CloseHandlesKeepsInv(d.(idleActive := d.idleActive && !ok), threads);
    }
  }

  lemma StoppingKeepsInv(s: State, active: bool, threads: nat)
    requires Inv(s, threads)
    ensures Inv(s.(idleActive := active), threads)
  {
  }

  lemma ProcessKeepsInv(s: State, pick: ThreadId, ok: bool, threads: nat)
    requires Inv(s, threads)
    ensures Inv(ProcessStep(s, pick, ok), threads)
  {
    assert s.status != Unknow;
    hide FinishTick, Deliver, CloseHandlesStep, Inv;
    if s.status == Closing {
      StoppingKeepsInv(s, s.idleActive && !ok, threads);
      CloseHandlesKeepsInv(s.(idleActive := s.idleActive && !ok), threads);
    } else if s.status != Closed {
      if s.queue != [] {
        DeliverKeepsInv(s, pick, threads);
      }
      FinishKeepsInv(if s.queue != [] then Deliver(s, pick) else s, ok, threads);
    }
  }

  lemma StepKeepsInv(s: State, a: Action, threads: nat)
    requires Inv(s, threads) && Enabled(s, a)
    ensures Inv(Step(s, a), threads)
  {
    match a
    case SendCall(t, data, mode, ok) =>
      if !IsMaxQueueSize(s) {
        SendTailKeepsInv(s, data, ok, threads);
      }
    case Wake(t, ok) => WakeKeepsInv(s, t, ok, threads);
    case AcquireCall =>
    case ReleaseCall(mode, pick, ok) => ReleaseKeepsInv(s, mode, pick, ok, threads);
    case AsyncFire(_) =>
    case IdleTick(pick, ok) => ProcessKeepsInv(s, pick, ok, threads);
    case AsyncHandleClosed =>
    case IdleHandleClosed =>
  }

  lemma PathStep(states: seq<State>, acts: seq<Action>, k: nat)
    requires IsPath(states, acts) && k <= |acts|
    ensures |states| == |acts| + 1
    ensures k < |acts| ==> Enabled(states[k], acts[k]) && states[k + 1] == Step(states[k], acts[k])
  {
  }

  /**
    Theorem. In every state of every run: first-in first-out exactly-once, one close and one
    finalizer, the thread ledger, and the back-pressure bound.
   */
  lemma {:induction false} RunKeepsInv(max: nat, threads: nat, states: seq<State>, acts: seq<Action>, i: nat)
    requires IsRun(max, threads, states, acts) && i <= |acts|
    ensures Inv(states[i], threads) && states[i].maxQueueSize == max
  {
    if i > 0 {
      RunKeepsInv(max, threads, states, acts, i - 1);
      assert states[i] == Step(states[i - 1], acts[i - 1]);
      StepKeepsInv(states[i - 1], acts[i - 1], threads);
      LimitIsFixed(states[i - 1], acts[i - 1]);
    }
  }

  /**
    Theorem. Once `CleanUp` has run, every item ever pushed was delivered or handed back, in push order
    and once; without an abort all of them were delivered.
   */
  lemma RunOutcome(max: nat, threads: nat, states: seq<State>, acts: seq<Action>, i: nat)
    requires IsRun(max, threads, states, acts) && i <= |acts|
    ensures var s := states[i];
            && (s.phase == Finalized ==> s.log.pushed == s.log.delivered + s.log.drained)
            && (s.status == Closed && !s.log.aborted ==> s.log.pushed == s.log.delivered)
            && s.log.released + s.log.closedSends <= threads + s.log.acquired
            && s.log.closes <= 1 && s.log.finalizers <= 1
  {
    RunKeepsInv(max, threads, states, acts, i);
    var log := states[i].log;
    assert log.delivered + log.drained + [] == log.delivered + log.drained;
    assert log.delivered + [] == log.delivered;
  }

  // ----- What the return codes mean -----

  /** Whether the call's item was pushed, its reference given up, or neither, can be read off its result. */
  lemma SendResultTells(s: State, t: ThreadId, data: Data, mode: CallMode, ok: bool)
    ensures var (s', r) := SendStep(s, t, data, mode, ok);
            && (r == Returned(Ok) || r == Returned(Failed) <==> s'.log.pushed == s.log.pushed + [data])
            && (r == Returned(ClosedCode) <==> s'.threadCount == s.threadCount - 1)
            && (r == Returned(QueueFull) || r == Returned(InvalidArgs) ==> s' == s)
            && (r == Parked ==> t in s'.waiting && s'.log == s.log)
            && (r == Parked || r == Returned(QueueFull) <==>
                  s.maxQueueSize > 0 && |s.queue| > s.maxQueueSize && !IsClosing(s))
            && (r == Returned(InvalidArgs) <==> IsClosing(s) && s.threadCount == 0)
            && (r == Returned(Failed) ==> !ok)
            && (r == Returned(Ok) ==> s'.asyncPending)
  {
  }

  lemma ReleaseResultTells(s: State, mode: ReleaseMode, pick: ThreadId, ok: bool)
    ensures var (s', code) := ReleaseStep(s, mode, pick, ok);
            && (code == Ok || code == Failed <==> s'.threadCount == s.threadCount - 1)
            && (code == Ok || code == Failed <==> !IsClosing(s) && s.threadCount > 0)
            && (code == ClosedCode || code == InvalidArgs ==> s' == s)
            && (code == Failed ==> !ok && (mode.Abort? || s.threadCount == 1))
            && (code == Ok && mode.Abort? ==> s'.status == Closing && s'.asyncPending)
            && (code == Ok && s'.threadCount == 0 ==> s'.asyncPending)
  {
  }

  lemma DeliverTells(s: State, pick: ThreadId)
    requires s.queue != []
    ensures var d := Deliver(s, pick);
            && d == s.(waiting := d.waiting, notified := d.notified, queue := s.queue[1..], log := d.log)
            && d.log == s.log.(delivered := s.log.delivered + [s.queue[0]])
  {
  }

  // ----- Monotonicity -----

  function Rank(st: Status): nat {
    match st
    case Unknow => 0
    case Inte => 1
    case Closing => 2
    case Closed => 3
  }

  /** `later` extends `earlier`: status only advances, logs only grow, nothing is pushed once closing. */
  predicate Extends(earlier: State, later: State) {
    && Rank(earlier.status) <= Rank(later.status)
    && earlier.log.pushed <= later.log.pushed
    && earlier.log.delivered <= later.log.delivered
    && earlier.log.drained <= later.log.drained
    && (IsClosing(earlier) ==>
          later.log.pushed == earlier.log.pushed && later.log.delivered == earlier.log.delivered
          && later.log.acquired == earlier.log.acquired && later.log.released == earlier.log.released)
    && later.maxQueueSize == earlier.maxQueueSize
  }

  lemma ExtendsTransitive(a: State, b: State, c: State)
    requires Extends(a, b) && Extends(b, c)
    ensures Extends(a, c)
  {
  }

  lemma DeliverIsMonotone(s: State, pick: ThreadId)
    requires s.status == Inte && s.queue != []
    ensures Extends(s, Deliver(s, pick)) && Deliver(s, pick).status == Inte
  {
  }

  lemma CloseHandlesIsMonotone(s: State)
    ensures Extends(s, CloseHandlesStep(s).0)
  {
  }

  lemma FinishIsMonotone(d: State, ok: bool)
    ensures Extends(d, FinishTick(d, ok))
  {
    var stopped := d.(idleActive := d.idleActive && !ok);
    if d.queue == [] && stopped.threadCount == 0 {
      CloseHandlesIsMonotone(stopped);
      ExtendsTransitive(d, stopped, CloseHandlesStep(stopped).0);
    }
  }

  lemma ProcessIsMonotone(s: State, pick: ThreadId, ok: bool)
    requires s.status != Unknow
    ensures Extends(s, ProcessStep(s, pick, ok))
  {
    if s.status == Closing {
      CloseHandlesIsMonotone(s.(idleActive := s.idleActive && !ok));
    } else if s.status == Inte {
      var d := if s.queue != [] then Deliver(s, pick) else s;
      if s.queue != [] {
        DeliverIsMonotone(s, pick);
      }
      FinishIsMonotone(d, ok);
      ExtendsTransitive(s, d, FinishTick(d, ok));
    }
    hide Deliver, FinishTick, CloseHandlesStep;
  }

  lemma WakeIsMonotone(s: State, t: ThreadId, ok: bool)
    requires s.status != Unknow && (t in s.waiting || t in s.notified)
    ensures Extends(s, WakeStep(s, t, ok).0)
  {
  }

  lemma ReleaseIsMonotone(s: State, mode: ReleaseMode, pick: ThreadId, ok: bool)
    requires s.status != Unknow
    ensures Extends(s, ReleaseStep(s, mode, pick, ok).0)
  {
  }

  lemma StepIsMonotone(s: State, a: Action)
    requires s.status != Unknow && Enabled(s, a)
    ensures Extends(s, Step(s, a))
  {
    match a
    case SendCall(t, data, mode, ok) =>
    case Wake(t, ok) => WakeIsMonotone(s, t, ok);
    case AcquireCall =>
    case ReleaseCall(mode, pick, ok) => ReleaseIsMonotone(s, mode, pick, ok);
    case AsyncFire(_) =>
    case IdleTick(pick, ok) => ProcessIsMonotone(s, pick, ok);
    case AsyncHandleClosed =>
    case IdleHandleClosed =>
  }

  lemma LimitIsFixed(s: State, a: Action)
    requires s.status != Unknow && Enabled(s, a)
    ensures Step(s, a).maxQueueSize == s.maxQueueSize
  {
    StepIsMonotone(s, a);
  }

  lemma StepExtends(earlier: State, s: State, a: Action)
    requires Extends(earlier, s) && earlier.status != Unknow && Enabled(s, a)
    ensures Extends(earlier, Step(s, a))
  {
    StepIsMonotone(s, a);
    ExtendsTransitive(earlier, s, Step(s, a));
  }

  /** Theorem. Along any path, each later state extends each earlier one. */
  lemma {:induction false} PathIsMonotone(states: seq<State>, acts: seq<Action>, i: nat, j: nat)
    requires IsPath(states, acts) && i <= j <= |acts| && states[i].status != Unknow
    ensures Extends(states[i], states[j])
  {
    if i < j {
      PathIsMonotone(states, acts, i, j - 1);
      assert states[j] == Step(states[j - 1], acts[j - 1]);
      StepExtends(states[i], states[j - 1], acts[j - 1]);
    }
  }

  // ----- No lost work -----

  /** The loop still has something to do for this object. */
  predicate WorkOwed(s: State) {
    s.status != Closed && (s.queue != [] || s.status == Closing || s.threadCount == 0)
  }

  predicate NoLostWork(s: State) {
    WorkOwed(s) ==> s.asyncPending || s.idleActive
  }

  /** The loop is not going to look at this object on its own. */
  predicate Asleep(s: State) {
    !s.asyncPending && !s.idleActive
  }

  /** The guard of the failing branch: a libuv call that was to wake a sleeping loop did not succeed. */
  predicate LosesWakeup(s: State, a: Action) {
    match a
    case SendCall(_, _, _, ok) => !ok && Asleep(s) && !IsClosing(s) && !IsMaxQueueSize(s)
    case Wake(_, ok) => !ok && Asleep(s) && !IsClosing(s) && !IsMaxQueueSize(s)
    case ReleaseCall(mode, _, ok) =>
      !ok && Asleep(s) && !IsClosing(s) && s.threadCount > 0 && (s.threadCount == 1 || mode.Abort?)
    case AsyncFire(ok) => !ok && !s.idleActive && WorkOwed(s)
    case _ => false
  }

  /** A step keeps `NoLostWork` exactly when it is not one of the failing calls. */
  lemma StepKeepsWork(s: State, a: Action)
    requires NoLostWork(s) && CloseOnce(s) && Enabled(s, a)
    ensures NoLostWork(Step(s, a)) <==> !LosesWakeup(s, a)
  {
    match a
    case SendCall(t, data, mode, ok) =>
    case Wake(t, ok) => WakeKeepsWork(s, t, ok);
    case AcquireCall =>
    case ReleaseCall(mode, pick, ok) => ReleaseKeepsWork(s, mode, pick, ok);
    case AsyncFire(_) =>
    case IdleTick(pick, ok) => ProcessKeepsWork(s, pick, ok);
    case AsyncHandleClosed =>
    case IdleHandleClosed =>
  }

  lemma WakeKeepsWork(s: State, t: ThreadId, ok: bool)
    requires NoLostWork(s) && s.status != Unknow && (t in s.waiting || t in s.notified)
    ensures NoLostWork(WakeStep(s, t, ok).0) <==> !LosesWakeup(s, Wake(t, ok))
  {
  }

  lemma ReleaseKeepsWork(s: State, mode: ReleaseMode, pick: ThreadId, ok: bool)
    requires NoLostWork(s) && s.status != Unknow
    ensures NoLostWork(ReleaseStep(s, mode, pick, ok).0) <==> !LosesWakeup(s, ReleaseCall(mode, pick, ok))
  {
  }

  lemma ProcessKeepsWork(s: State, pick: ThreadId, ok: bool)
    requires s.status != Unknow && s.idleActive
    ensures NoLostWork(ProcessStep(s, pick, ok))
  {
  }

  /** Theorem. In a run where no waking call fails, outstanding work always has an event coming. */
  lemma {:induction false} RunKeepsWork(max: nat, threads: nat, states: seq<State>, acts: seq<Action>, i: nat)
    requires IsRun(max, threads, states, acts) && threads > 0 && i <= |acts|
    requires forall k :: 0 <= k < i ==> !LosesWakeup(states[k], acts[k])
    ensures NoLostWork(states[i])
  {
    if i > 0 {
      RunKeepsWork(max, threads, states, acts, i - 1);
      RunKeepsInv(max, threads, states, acts, i - 1);
      StepKeepsWork(states[i - 1], acts[i - 1]);
    }
  }

  /** One failing `uv_async_send` is enough to lose an item: it is queued and nobody will come for it. */
  lemma FailedSendLosesWork() returns (states: seq<State>, acts: seq<Action>)
    ensures IsRun(0, 1, states, acts) && |acts| == 1
    ensures states[1].queue == [7] && !NoLostWork(states[1])
  {
    acts := [SendCall(0, 7, NonBlocking, false)];
    states := [Initial(0, 1), Step(Initial(0, 1), acts[0])];
  }

  // ----- Paths -----

  lemma PathPrepend(s: State, a: Action, states: seq<State>, acts: seq<Action>)
    requires Enabled(s, a) && IsPath(states, acts) && states[0] == Step(s, a)
    ensures IsPath([s] + states, [a] + acts)
  {
    hide Enabled, Step;
    var states', acts' := [s] + states, [a] + acts;
    forall i | 0 <= i < |acts'|
      ensures Enabled(states'[i], acts'[i]) && states'[i + 1] == Step(states'[i], acts'[i])
    {
      if i > 0 {
        assert acts'[i] == acts[i - 1] && states'[i] == states[i - 1] && states'[i + 1] == states[i];
      }
    }
  }

  lemma PathConcat(states1: seq<State>, acts1: seq<Action>, states2: seq<State>, acts2: seq<Action>)
    requires IsPath(states1, acts1) && IsPath(states2, acts2) && states1[|acts1|] == states2[0]
    ensures IsPath(states1 + states2[1..], acts1 + acts2)
  {
    hide Enabled, Step;
    var states, acts := states1 + states2[1..], acts1 + acts2;
    forall i | 0 <= i < |acts|
      ensures Enabled(states[i], acts[i]) && states[i + 1] == Step(states[i], acts[i])
    {
      if i < |acts1| {
        assert acts[i] == acts1[i] && states[i] == states1[i] && states[i + 1] == states1[i + 1];
      } else {
        assert acts[i] == acts2[i - |acts1|] && states[i + 1] == states2[i - |acts1| + 1];
        assert states[i] == states2[i - |acts1|];
      }
    }
  }

  // ----- Parked threads -----

  lemma RemoveOne(m: map<ThreadId, Data>, t: ThreadId)
    requires t in m
    ensures |m - {t}| == |m| - 1
    ensures m - {t} == map[] <==> |m| == 1
  {
    assert (m - {t}).Keys == m.Keys - {t};
    assert |m.Keys| == |m|;
    if |m| == 1 {
      assert |(m - {t}).Keys| == 0;
    }
  }

  lemma AddOne(m: map<ThreadId, Data>, t: ThreadId, data: Data)
    requires t !in m
    ensures |m[t := data]| == |m| + 1
  {
    assert m[t := data].Keys == m.Keys + {t};
    assert |m.Keys| == |m| && |m[t := data].Keys| == |m[t := data]|;
  }
}
