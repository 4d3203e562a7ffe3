/**
  What each step of the thread-safe function does, case by case and for every state; and what whole runs do,
  read off the calls that were made.
 */
module SafeAsyncLaws {
  import opened SafeAsyncProtocol
  import opened SafeAsyncProofs

  predicate IsOpen(s: State) {
    s.status != Closing && s.status != Closed
  }

  /** The queue takes another item: it has no limit, or holds no more than its limit. */
  predicate Room(s: State) {
    IsOpen(s) && (s.maxQueueSize == 0 || |s.queue| <= s.maxQueueSize)
  }

  // ----- One step, for every state -----

  /** The item goes in, the caller is parked or told, or a closing object takes a reference back. */
  lemma SendTells(s: State, t: ThreadId, data: Data, mode: CallMode, ok: bool)
    ensures var (s', r) := SendStep(s, t, data, mode, ok);
            && (Room(s) ==>
                  && r == Returned(if ok then Ok else Failed)
                  && s'.queue == s.queue + [data] && (s'.asyncPending <==> s.asyncPending || ok)
                  && s' == s.(queue := s'.queue, asyncPending := s'.asyncPending,
                              log := s.log.(pushed := s.log.pushed + [data])))
            && (IsOpen(s) && !Room(s) && mode == Blocking ==>
                  r == Parked && s' == s.(waiting := s.waiting[t := data]))
            && (IsOpen(s) && !Room(s) && mode == NonBlocking ==> r == Returned(QueueFull) && s' == s)
            && (!IsOpen(s) && s.threadCount == 0 ==> r == Returned(InvalidArgs) && s' == s)
            && (!IsOpen(s) && s.threadCount > 0 ==>
                  && r == Returned(ClosedCode)
                  && s' == s.(threadCount := s.threadCount - 1,
                              log := s.log.(closedSends := s.log.closedSends + 1)))
  {
  }

  function ParkedData(s: State, t: ThreadId): Data
    requires t in s.waiting || t in s.notified
  {
    if t in s.notified then s.notified[t] else s.waiting[t]
  }

  /** A resumed sender goes on with the data it was parked with, or parks again with it. */
  lemma WakeResultTells(s: State, t: ThreadId, ok: bool)
    requires t in s.waiting || t in s.notified
    ensures var (s', r) := WakeStep(s, t, ok);
            var data, waiting, notified := ParkedData(s, t), s.waiting - {t}, s.notified - {t};
            && (Room(s) ==>
                  && r == Returned(if ok then Ok else Failed)
                  && s'.queue == s.queue + [data] && (s'.asyncPending <==> s.asyncPending || ok)
                  && s' == s.(queue := s'.queue, asyncPending := s'.asyncPending, waiting := waiting,
                              notified := notified, log := s.log.(pushed := s.log.pushed + [data])))
            && (IsOpen(s) && !Room(s) ==>
                  r == Parked && s' == s.(waiting := waiting[t := data], notified := notified))
            && (!IsOpen(s) && s.threadCount == 0 ==>
                  r == Returned(InvalidArgs) && s' == s.(waiting := waiting, notified := notified))
            && (!IsOpen(s) && s.threadCount > 0 ==>
                  && r == Returned(ClosedCode)
                  && s' == s.(threadCount := s.threadCount - 1, waiting := waiting, notified := notified,
                              log := s.log.(closedSends := s.log.closedSends + 1)))
  {
  }

  lemma AcquireTells(s: State)
    ensures var (s', code) := AcquireStep(s);
            && (IsOpen(s) ==>
                  && code == Ok
                  && s' == s.(threadCount := s.threadCount + 1, log := s.log.(acquired := s.log.acquired + 1)))
            && (!IsOpen(s) ==> code == ClosedCode && s' == s)
  {
  }

  /** `notify_one`: the chosen thread, if it waits, is notified with its data; nothing else happens. */
  lemma NotifyTells(s: State, pick: ThreadId)
    ensures var s' := NotifyOne(s, pick);
            && s' == s.(waiting := s'.waiting, notified := s'.notified)
            && (pick !in s.waiting ==> s' == s)
            && (pick in s.waiting ==>
                  s'.waiting == s.waiting - {pick} && s'.notified == s.notified[pick := s.waiting[pick]])
  {
  }

  /** An ordinary release gives up a reference and, if it was the last, wakes the loop; nothing else. */
  lemma OrdinaryReleaseTells(s: State, pick: ThreadId, ok: bool)
    ensures var (s', code) := ReleaseStep(s, Release, pick, ok);
            && s'.status == s.status && s'.queue == s.queue && s'.waiting == s.waiting && s'.notified == s.notified
            && s'.idleActive == s.idleActive && s'.phase == s.phase
            && s'.log == s.log.(released := s'.log.released)
            && (!IsOpen(s) ==> code == ClosedCode && s' == s)
            && (IsOpen(s) && s.threadCount == 0 ==> code == InvalidArgs && s' == s)
            && (IsOpen(s) && s.threadCount > 0 ==> s'.threadCount == s.threadCount - 1)
            && (IsOpen(s) && s.threadCount > 1 ==> code == Ok && s'.asyncPending == s.asyncPending)
            && (IsOpen(s) && s.threadCount == 1 ==>
                  code == (if ok then Ok else Failed) && (s'.asyncPending <==> s.asyncPending || ok))
  {
  }

  /** An abort also starts closing and, where the queue is limited, notifies one sender. */
  lemma AbortTells(s: State, pick: ThreadId, ok: bool)
    ensures var (s', code) := ReleaseStep(s, Abort, pick, ok);
            && (!IsOpen(s) ==> code == ClosedCode && s' == s)
            && (IsOpen(s) && s.threadCount == 0 ==> code == InvalidArgs && s' == s)
            && (IsOpen(s) && s.threadCount > 0 ==>
                  && code == (if ok then Ok else Failed) && (s'.asyncPending <==> s.asyncPending || ok)
                  && s'.status == Closing && s'.threadCount == s.threadCount - 1
                  && s'.log == s.log.(released := s.log.released + 1, aborted := true)
                  && s'.queue == s.queue && s'.idleActive == s.idleActive && s'.phase == s.phase
                  && s'.waiting == (if s.maxQueueSize > 0 then s.waiting - {pick} else s.waiting)
                  && s'.notified == (if s.maxQueueSize > 0 && pick in s.waiting
                                     then s.notified[pick := s.waiting[pick]] else s.notified))
  {
    if pick !in s.waiting {
      assert s.waiting - {pick} == s.waiting;
    }
  }

  lemma FireTells(s: State, ok: bool)
    ensures var s' := AsyncFireStep(s, ok);
            && !s'.asyncPending && (s'.idleActive <==> s.idleActive || ok)
            && s' == s.(asyncPending := false, idleActive := s'.idleActive)
  {
  }

  /**
    A tick of an open object with items queued delivers the first, whatever the threads and the wait set are.
    At exactly the limit it notifies one sender; behind the last item it stops and, with no thread left, closes.
   */
  lemma TickDelivers(s: State, pick: ThreadId, ok: bool)
    requires IsOpen(s) && s.queue != []
    ensures var s' := ProcessStep(s, pick, ok);
            var notifies := s.maxQueueSize > 0 && |s.queue| == s.maxQueueSize && pick in s.waiting;
            && s'.log.delivered == s.log.delivered + [s.queue[0]] && s'.queue == s.queue[1..]
            && s'.log == s.log.(delivered := s'.log.delivered, closes := s'.log.closes)
            && s'.waiting == (if notifies then s.waiting - {pick} else s.waiting)
            && s'.notified == (if notifies then s.notified[pick := s.waiting[pick]] else s.notified)
            && s'.threadCount == s.threadCount && s'.asyncPending == s.asyncPending
            && (s'.idleActive <==> s.idleActive && (|s.queue| > 1 || !ok))
            && s'.status == (if |s.queue| == 1 && s.threadCount == 0 then Closed else s.status)
            && s'.phase == (if |s.queue| == 1 && s.threadCount == 0 then AsyncClosing else s.phase)
  {
    DeliveryTells(s, pick);
    var d := Deliver(s, pick);
    FinishTells(d, ok);
    hide Deliver, FinishTick;
  }

  lemma DeliveryTells(s: State, pick: ThreadId)
    requires s.queue != []
    ensures var notifies := s.maxQueueSize > 0 && |s.queue| == s.maxQueueSize && pick in s.waiting;
            Deliver(s, pick)
            == s.(queue := s.queue[1..], log := s.log.(delivered := s.log.delivered + [s.queue[0]]),
                  waiting := if notifies then s.waiting - {pick} else s.waiting,
                  notified := if notifies then s.notified[pick := s.waiting[pick]] else s.notified)
  {
    NotifyTells(s, pick);
    hide NotifyOne;
  }

  lemma FinishTells(d: State, ok: bool)
    requires IsOpen(d)
    ensures var s' := FinishTick(d, ok);
            && (d.queue != [] ==> s' == d)
            && (d.queue == [] && d.threadCount > 0 ==> s' == d.(idleActive := d.idleActive && !ok))
            && (d.queue == [] && d.threadCount == 0 ==>
                  s' == d.(idleActive := d.idleActive && !ok, status := Closed, phase := AsyncClosing,
                           log := d.log.(closes := d.log.closes + 1)))
  {
  }

  /** Any other tick delivers nothing: it stops the idle handle, and closes unless threads are left. */
  lemma TickWithoutDelivery(s: State, pick: ThreadId, ok: bool)
    requires !IsOpen(s) || s.queue == []
    ensures var s' := ProcessStep(s, pick, ok);
            && s'.queue == s.queue && s'.waiting == s.waiting && s'.notified == s.notified
            && s'.threadCount == s.threadCount && s'.asyncPending == s.asyncPending
            && s'.log == s.log.(closes := s'.log.closes)
            && (s.status == Closed ==> s' == s)
            && (s.status == Closing ==>
                  s'.status == Closed && s'.phase == AsyncClosing && (s'.idleActive <==> s.idleActive && !ok))
            && (IsOpen(s) && s.threadCount == 0 ==>
                  s'.status == Closed && s'.phase == AsyncClosing && (s'.idleActive <==> s.idleActive && !ok))
            && (IsOpen(s) && s.threadCount > 0 ==> s' == s.(idleActive := s.idleActive && !ok))
  {
  }

  /** Who can do what: threads that are not parked call, parked ones resume, the loop follows its handles. */
  lemma EnabledTells(s: State, t: ThreadId, data: Data, mode: CallMode, rmode: ReleaseMode, ok: bool)
    ensures Enabled(s, SendCall(t, data, mode, ok)) <==> t !in s.waiting && t !in s.notified
    ensures Enabled(s, Wake(t, ok)) <==> t in s.waiting || t in s.notified
    ensures Enabled(s, AcquireCall)
    ensures Enabled(s, ReleaseCall(rmode, t, ok)) <==> t in s.waiting || s.waiting == map[]
    ensures Enabled(s, AsyncFire(ok)) <==> s.asyncPending && s.phase == Open
    ensures Enabled(s, IdleTick(t, ok)) <==>
              s.idleActive && (s.phase == Open || s.phase == AsyncClosing) && (t in s.waiting || s.waiting == map[])
    ensures Enabled(s, AsyncHandleClosed) <==> s.phase == AsyncClosing
    ensures Enabled(s, IdleHandleClosed) <==> s.phase == IdleClosing
  {
  }

  // ----- Whole runs, read off the calls -----

  /** The argument of the last `Send` that `t` has called. */
  ghost function LastSend(acts: seq<Action>, t: ThreadId, i: nat): Data
    requires i <= |acts|
  {
    if i == 0 then 0
    else if acts[i - 1].SendCall? && acts[i - 1].t == t then acts[i - 1].data
    else LastSend(acts, t, i - 1)
  }

  /** What step `k` puts into the queue: the argument of the call that goes through. */
  ghost function PushedAt(states: seq<State>, acts: seq<Action>, k: nat): seq<Data>
    requires k < |acts| && k < |states|
  {
    match acts[k]
    case SendCall(_, data, _, _) => if Room(states[k]) then [data] else []
    case Wake(t, _) => if Room(states[k]) then [LastSend(acts, t, k)] else []
    case _ => []
  }

  /** What step `k` hands to the script side. */
  ghost function DeliveredAt(states: seq<State>, acts: seq<Action>, k: nat): seq<Data>
    requires k < |acts| && k < |states|
  {
    DeliveredBy(states[k], acts[k])
  }

  /** What step `k` hands back without an engine. */
  ghost function DrainedAt(states: seq<State>, acts: seq<Action>, k: nat): seq<Data>
    requires k < |acts| && k < |states|
  {
    DrainedBy(states[k], acts[k])
  }

  ghost function Pushes(states: seq<State>, acts: seq<Action>, i: nat): seq<Data>
    requires i <= |acts| && i < |states|
  {
    if i == 0 then [] else Pushes(states, acts, i - 1) + PushedAt(states, acts, i - 1)
  }

  ghost function Deliveries(states: seq<State>, acts: seq<Action>, i: nat): seq<Data>
    requires i <= |acts| && i < |states|
  {
    if i == 0 then [] else Deliveries(states, acts, i - 1) + DeliveredAt(states, acts, i - 1)
  }

  ghost function Drains(states: seq<State>, acts: seq<Action>, i: nat): seq<Data>
    requires i <= |acts| && i < |states|
  {
    if i == 0 then [] else Drains(states, acts, i - 1) + DrainedAt(states, acts, i - 1)
  }

  /** Every parked thread is parked with the argument of its last call. */
  ghost predicate ParkedWithArguments(s: State, acts: seq<Action>, i: nat)
    requires i <= |acts|
  {
    && (forall t :: t in s.waiting ==> s.waiting[t] == LastSend(acts, t, i))
    && (forall t :: t in s.notified ==> s.notified[t] == LastSend(acts, t, i))
  }

  lemma StepKeepsArguments(s: State, acts: seq<Action>, i: nat)
    requires i < |acts| && ParkedWithArguments(s, acts, i) && Enabled(s, acts[i])
    ensures ParkedWithArguments(Step(s, acts[i]), acts, i + 1)
  {
    var a := acts[i];
    ParkedBefore(s, a);
    hide Step, Enabled;
    assert forall t :: !(a.SendCall? && a.t == t) ==> LastSend(acts, t, i + 1) == LastSend(acts, t, i);
    assert a.SendCall? ==> LastSend(acts, a.t, i + 1) == a.data;
  }

  /** Whoever is parked after a step was parked before with the same data, or has just called with it. */
  lemma ParkedBefore(s: State, a: Action)
    requires Enabled(s, a)
    ensures CameFrom(s, Step(s, a), a)
  {
    hide SendStep, WakeStep, AcquireStep, ReleaseStep, AsyncFireStep, ProcessStep, CameFrom;
    match a
    case SendCall(t, data, mode, ok) => ParkedBeforeSend(s, t, data, mode, ok);
    case Wake(t, ok) => ParkedBeforeWake(s, t, ok);
    case AcquireCall =>
      AcquireTells(s);
      SameParked(s, AcquireStep(s).0, a);
    case ReleaseCall(mode, pick, ok) => ParkedBeforeRelease(s, mode, pick, ok);
    case AsyncFire(ok) =>
      FireTells(s, ok);
      SameParked(s, AsyncFireStep(s, ok), a);
    case IdleTick(pick, ok) => ParkedBeforeTick(s, pick, ok);
    case AsyncHandleClosed => SameParked(s, Step(s, a), a);
    case IdleHandleClosed => SameParked(s, Step(s, a), a);
  }

  lemma SameParked(s: State, s': State, a: Action)
    requires !a.SendCall? && s'.waiting == s.waiting && s'.notified == s.notified
    ensures CameFrom(s, s', a)
  {
  }

  lemma NotifiedOne(s: State, s': State, a: Action, pick: ThreadId)
    requires !a.SendCall? && pick in s.waiting
    requires s'.waiting == s.waiting - {pick} && s'.notified == s.notified[pick := s.waiting[pick]]
    ensures CameFrom(s, s', a)
  {
  }

  lemma ParkedBeforeSend(s: State, t: ThreadId, data: Data, mode: CallMode, ok: bool)
    requires t !in s.waiting && t !in s.notified
    ensures CameFrom(s, SendStep(s, t, data, mode, ok).0, SendCall(t, data, mode, ok))
  {
    SendTells(s, t, data, mode, ok);
    hide SendStep;
  }

  lemma ParkedBeforeWake(s: State, t: ThreadId, ok: bool)
    requires t in s.waiting || t in s.notified
    ensures CameFrom(s, WakeStep(s, t, ok).0, Wake(t, ok))
  {
    WakeResultTells(s, t, ok);
    hide WakeStep;
  }

  lemma ParkedBeforeRelease(s: State, mode: ReleaseMode, pick: ThreadId, ok: bool)
    ensures CameFrom(s, ReleaseStep(s, mode, pick, ok).0, ReleaseCall(mode, pick, ok))
  {
    var s', a := ReleaseStep(s, mode, pick, ok).0, ReleaseCall(mode, pick, ok);
    OrdinaryReleaseTells(s, pick, ok);
    AbortTells(s, pick, ok);
    hide ReleaseStep, CameFrom;
    if mode == Abort && IsOpen(s) && s.threadCount > 0 && s.maxQueueSize > 0 && pick in s.waiting {
      NotifiedOne(s, s', a, pick);
    } else {
      assert pick !in s.waiting ==> s.waiting - {pick} == s.waiting;
      SameParked(s, s', a);
    }
  }

  lemma ParkedBeforeTick(s: State, pick: ThreadId, ok: bool)
    ensures CameFrom(s, ProcessStep(s, pick, ok), IdleTick(pick, ok))
  {
    var s', a := ProcessStep(s, pick, ok), IdleTick(pick, ok);
    if IsOpen(s) && s.queue != [] {
      TickDelivers(s, pick, ok);
    } else {
      TickWithoutDelivery(s, pick, ok);
    }
    hide ProcessStep, CameFrom;
    if s'.notified != s.notified {
      NotifiedOne(s, s', a, pick);
    } else if s'.waiting == s.waiting {
      SameParked(s, s', a);
    } else {
      NotifiedOne(s, s', a, pick);
    }
  }

  ghost predicate CameFrom(s: State, s': State, a: Action) {
    && (forall t :: t in s'.waiting ==>
          if a.SendCall? && a.t == t then s'.waiting[t] == a.data else WasParked(s, t, s'.waiting[t]))
    && (forall t :: t in s'.notified ==> !(a.SendCall? && a.t == t) && WasParked(s, t, s'.notified[t]))
  }

  predicate WasParked(s: State, t: ThreadId, data: Data) {
    (t in s.waiting && s.waiting[t] == data) || (t in s.notified && s.notified[t] == data)
  }

  function PushedBy(s: State, a: Action): seq<Data>
    requires a.Wake? ==> a.t in s.waiting || a.t in s.notified
  {
    match a
    case SendCall(_, data, _, _) => if Room(s) then [data] else []
    case Wake(t, _) => if Room(s) then [ParkedData(s, t)] else []
    case _ => []
  }

  function DeliveredBy(s: State, a: Action): seq<Data> {
    if a.IdleTick? && IsOpen(s) && s.queue != [] then [s.queue[0]] else []
  }

  function DrainedBy(s: State, a: Action): seq<Data> {
    if a.IdleHandleClosed? then s.queue else []
  }

  /** What a step does to the items, in terms of the state before it. */
  ghost predicate MovesItems(s: State, s': State, a: Action)
    requires Enabled(s, a)
  {
    && s'.log.pushed == s.log.pushed + PushedBy(s, a)
    && s'.log.delivered == s.log.delivered + DeliveredBy(s, a)
    && s'.log.drained == s.log.drained + DrainedBy(s, a)
  }

  lemma StepMovesItems(s: State, a: Action)
    requires Enabled(s, a)
    ensures MovesItems(s, Step(s, a), a)
  {
    hide MovesItems, SendStep, WakeStep, AcquireStep, ReleaseStep, AsyncFireStep, ProcessStep;
    match a
    case SendCall(t, data, mode, ok) => SendMovesItems(s, t, data, mode, ok);
    case Wake(t, ok) => WakeMovesItems(s, t, ok);
    case AcquireCall =>
      AcquireTells(s);
      NothingMoves(s, AcquireStep(s).0, a);
    case ReleaseCall(mode, pick, ok) => ReleaseMovesItems(s, mode, pick, ok);
    case AsyncFire(ok) =>
      FireTells(s, ok);
      NothingMoves(s, AsyncFireStep(s, ok), a);
    case IdleTick(pick, ok) => TickMovesItems(s, pick, ok);
    case AsyncHandleClosed => NothingMoves(s, Step(s, a), a);
    case IdleHandleClosed => CleanUpMovesItems(s);
  }

  lemma NothingMoves(s: State, s': State, a: Action)
    requires a.AcquireCall? || a.ReleaseCall? || a.AsyncFire? || a.AsyncHandleClosed?
    requires s'.log.pushed == s.log.pushed && s'.log.delivered == s.log.delivered && s'.log.drained == s.log.drained
    requires Enabled(s, a)
    ensures MovesItems(s, s', a)
  {
    hide Enabled;
  }

  lemma SendMovesItems(s: State, t: ThreadId, data: Data, mode: CallMode, ok: bool)
    requires Enabled(s, SendCall(t, data, mode, ok))
    ensures MovesItems(s, SendStep(s, t, data, mode, ok).0, SendCall(t, data, mode, ok))
  {
    SendTells(s, t, data, mode, ok);
    hide SendStep, Enabled;
    assert s.log.pushed + [] == s.log.pushed;
  }

  lemma WakeMovesItems(s: State, t: ThreadId, ok: bool)
    requires Enabled(s, Wake(t, ok))
    ensures MovesItems(s, WakeStep(s, t, ok).0, Wake(t, ok))
  {
    WakeResultTells(s, t, ok);
    hide WakeStep, ParkedData, Room;
    assert s.log.pushed + [] == s.log.pushed;
  }

  lemma ReleaseMovesItems(s: State, mode: ReleaseMode, pick: ThreadId, ok: bool)
    requires Enabled(s, ReleaseCall(mode, pick, ok))
    ensures MovesItems(s, ReleaseStep(s, mode, pick, ok).0, ReleaseCall(mode, pick, ok))
  {
    OrdinaryReleaseTells(s, pick, ok);
    AbortTells(s, pick, ok);
    hide ReleaseStep, MovesItems;
    NothingMoves(s, ReleaseStep(s, mode, pick, ok).0, ReleaseCall(mode, pick, ok));
  }

  lemma TickMovesItems(s: State, pick: ThreadId, ok: bool)
    requires Enabled(s, IdleTick(pick, ok))
    ensures MovesItems(s, ProcessStep(s, pick, ok), IdleTick(pick, ok))
  {
    if IsOpen(s) && s.queue != [] {
      TickDelivers(s, pick, ok);
    } else {
      TickWithoutDelivery(s, pick, ok);
    }
    hide ProcessStep, IsOpen;
    assert s.log.delivered + [] == s.log.delivered;
  }

  lemma CleanUpMovesItems(s: State)
    requires Enabled(s, IdleHandleClosed)
    ensures MovesItems(s, CleanUpStep(s), IdleHandleClosed)
  {
  }

  lemma StepMoves(states: seq<State>, acts: seq<Action>, k: nat)
    requires IsPath(states, acts) && k < |acts| && ParkedWithArguments(states[k], acts, k)
    ensures |states| == |acts| + 1 && ParkedWithArguments(states[k + 1], acts, k + 1)
    ensures states[k + 1].log.pushed == states[k].log.pushed + PushedAt(states, acts, k)
    ensures states[k + 1].log.delivered == states[k].log.delivered + DeliveredAt(states, acts, k)
    ensures states[k + 1].log.drained == states[k].log.drained + DrainedAt(states, acts, k)
  {
    hide IsPath, Step, LastSend, Enabled;
    PathStep(states, acts, k);
    StepKeepsArguments(states[k], acts, k);
    StepMovesItems(states[k], acts[k]);
    PushedIsArgument(states, acts, k);
  }

  lemma PushedIsArgument(states: seq<State>, acts: seq<Action>, k: nat)
    requires k < |acts| && k < |states| && ParkedWithArguments(states[k], acts, k) && Enabled(states[k], acts[k])
    ensures PushedAt(states, acts, k) == PushedBy(states[k], acts[k])
  {
    hide LastSend;
  }

  lemma SumsStep(states: seq<State>, acts: seq<Action>, i: nat)
    requires 0 < i <= |acts| && |states| == |acts| + 1
    ensures Pushes(states, acts, i) == Pushes(states, acts, i - 1) + PushedAt(states, acts, i - 1)
    ensures Deliveries(states, acts, i) == Deliveries(states, acts, i - 1) + DeliveredAt(states, acts, i - 1)
    ensures Drains(states, acts, i) == Drains(states, acts, i - 1) + DrainedAt(states, acts, i - 1)
  {
  }

  lemma NothingMovedYet(max: nat, threads: nat, states: seq<State>, acts: seq<Action>)
    requires IsRun(max, threads, states, acts)
    ensures |states| == |acts| + 1 && ParkedWithArguments(states[0], acts, 0) && states[0].log == EMPTY_LOG
    ensures Pushes(states, acts, 0) == Deliveries(states, acts, 0) == Drains(states, acts, 0) == []
  {
  }

  lemma {:induction false} RunMovesItems(max: nat, threads: nat, states: seq<State>, acts: seq<Action>, i: nat)
    requires IsRun(max, threads, states, acts) && i <= |acts|
    ensures |states| == |acts| + 1 && ParkedWithArguments(states[i], acts, i)
    ensures states[i].log.pushed == Pushes(states, acts, i)
    ensures states[i].log.delivered == Deliveries(states, acts, i)
    ensures states[i].log.drained == Drains(states, acts, i)
  {
    hide IsPath, ParkedWithArguments, PushedAt, DeliveredAt, DrainedAt, Pushes, Deliveries, Drains;
    NothingMovedYet(max, threads, states, acts);
    if i > 0 {
      RunMovesItems(max, threads, states, acts, i - 1);
      StepMoves(states, acts, i - 1);
      SumsStep(states, acts, i);
    }
  }

  /**
    Theorem. In every run, the arguments of the `Send` calls that went through, in the order in which they did,
    parked ones included, are the items delivered, then those drained, then those still queued.
   */
  lemma RunIsFifo(max: nat, threads: nat, states: seq<State>, acts: seq<Action>, i: nat)
    requires IsRun(max, threads, states, acts) && i <= |acts|
    ensures Pushes(states, acts, i)
            == Deliveries(states, acts, i) + Drains(states, acts, i) + states[i].queue
    ensures states[i].log.pushed == Pushes(states, acts, i)
    ensures states[i].log.delivered == Deliveries(states, acts, i)
    ensures states[i].log.drained == Drains(states, acts, i)
  {
    RunMovesItems(max, threads, states, acts, i);
    RunKeepsInv(max, threads, states, acts, i);
  }

  // ----- Aborts -----

  /** An abort that is accepted: the object is open and a thread holds it. */
  predicate AcceptedAbort(s: State, a: Action) {
    a.ReleaseCall? && a.rmode == Abort && IsOpen(s) && s.threadCount > 0
  }

  lemma StepAborts(s: State, a: Action)
    requires Enabled(s, a)
    ensures Step(s, a).log.aborted <==> s.log.aborted || AcceptedAbort(s, a)
  {
    hide SendStep, WakeStep, AcquireStep, ReleaseStep, AsyncFireStep, ProcessStep;
    match a
    case SendCall(t, data, mode, ok) => SendTells(s, t, data, mode, ok);
    case Wake(t, ok) => WakeResultTells(s, t, ok);
    case AcquireCall => AcquireTells(s);
    case ReleaseCall(mode, pick, ok) =>
      if mode == Abort {
        AbortTells(s, pick, ok);
      } else {
        OrdinaryReleaseTells(s, pick, ok);
      }
    case AsyncFire(ok) => FireTells(s, ok);
    case IdleTick(pick, ok) =>
      if IsOpen(s) && s.queue != [] {
        TickDelivers(s, pick, ok);
      } else {
        TickWithoutDelivery(s, pick, ok);
      }
    case AsyncHandleClosed =>
    case IdleHandleClosed =>
  }

  /** Theorem. An object has been aborted exactly if an abort among the calls was accepted. */
  lemma {:induction false} RunAborts(max: nat, threads: nat, states: seq<State>, acts: seq<Action>, i: nat)
    requires IsRun(max, threads, states, acts) && i <= |acts|
    ensures states[i].log.aborted <==> exists k :: 0 <= k < i && AcceptedAbort(states[k], acts[k])
  {
    hide IsPath, Step, Enabled, AcceptedAbort;
    PathStep(states, acts, i);
    if i > 0 {
      RunAborts(max, threads, states, acts, i - 1);
      PathStep(states, acts, i - 1);
      StepAborts(states[i - 1], acts[i - 1]);
      assert AcceptedAbort(states[i - 1], acts[i - 1]) ==>
               exists k :: 0 <= k < i && AcceptedAbort(states[k], acts[k]);
    }
  }

  /** Theorem. Without an accepted abort among the calls, a closed object has delivered everything that went in. */
  lemma WithoutAbortAllDelivered(max: nat, threads: nat, states: seq<State>, acts: seq<Action>, i: nat)
    requires IsRun(max, threads, states, acts) && i <= |acts| && !IsOpen(states[i])
    requires !exists k :: 0 <= k < i && AcceptedAbort(states[k], acts[k])
    ensures states[i].status == Closed && Deliveries(states, acts, i) == Pushes(states, acts, i)
    ensures states[i].threadCount == 0 && states[i].queue == []
  {
    hide Step, Enabled, AcceptedAbort, Pushes, Deliveries, Drains;
    RunAborts(max, threads, states, acts, i);
    RunKeepsInv(max, threads, states, acts, i);
    RunIsFifo(max, threads, states, acts, i);
    var log := states[i].log;
    assert log.delivered + [] + [] == log.delivered;
  }

  // ----- Threads -----

  /** What step `k` adds to the number of threads that hold the object. */
  function HeldAt(s: State, a: Action): int {
    match a
    case AcquireCall => if IsOpen(s) then 1 else 0
    case ReleaseCall(_, _, _) => if IsOpen(s) && s.threadCount > 0 then -1 else 0
    case SendCall(_, _, _, _) => if !IsOpen(s) && s.threadCount > 0 then -1 else 0
    case Wake(_, _) => if !IsOpen(s) && s.threadCount > 0 then -1 else 0
    case _ => 0
  }

  ghost function Held(threads: nat, states: seq<State>, acts: seq<Action>, i: nat): int
    requires i <= |acts| && i < |states|
  {
    if i == 0 then threads else Held(threads, states, acts, i - 1) + HeldAt(states[i - 1], acts[i - 1])
  }

  lemma StepCountsThreads(s: State, a: Action)
    requires Enabled(s, a)
    ensures Step(s, a).threadCount == s.threadCount + HeldAt(s, a)
  {
    hide SendStep, WakeStep, AcquireStep, ReleaseStep, AsyncFireStep, ProcessStep;
    match a
    case SendCall(t, data, mode, ok) => SendTells(s, t, data, mode, ok);
    case Wake(t, ok) => WakeResultTells(s, t, ok);
    case AcquireCall => AcquireTells(s);
    case ReleaseCall(mode, pick, ok) =>
      if mode == Abort {
        AbortTells(s, pick, ok);
      } else {
        OrdinaryReleaseTells(s, pick, ok);
      }
    case AsyncFire(ok) => FireTells(s, ok);
    case IdleTick(pick, ok) =>
      if IsOpen(s) && s.queue != [] {
        TickDelivers(s, pick, ok);
      } else {
        TickWithoutDelivery(s, pick, ok);
      }
    case AsyncHandleClosed =>
    case IdleHandleClosed =>
  }

  /** Theorem. The count is the initial one and what the calls add to it and take from it. */
  lemma {:induction false} RunCountsThreads(max: nat, threads: nat, states: seq<State>, acts: seq<Action>, i: nat)
    requires IsRun(max, threads, states, acts) && i <= |acts|
    ensures states[i].threadCount == Held(threads, states, acts, i)
  {
    hide IsPath, Step, Enabled, HeldAt;
    PathStep(states, acts, i);
    if i > 0 {
      RunCountsThreads(max, threads, states, acts, i - 1);
      PathStep(states, acts, i - 1);
      StepCountsThreads(states[i - 1], acts[i - 1]);
    }
  }

  // ----- Every queued item is delivered soon -----

  /** How many items the loop has taken from the queue of `s0`, and whether a step is still owed to the event. */
  ghost predicate Delivering(s0: State, s: State, steps: nat) {
    var taken := |s0.queue| - |s.queue|;
    && 0 <= taken && s.queue == s0.queue[taken..]
    && s.log.delivered == s0.log.delivered + s0.queue[..taken]
    && (taken < |s0.queue| ==>
          s.status == s0.status && NoLostWork(s) && CloseOnce(s)
          && steps <= taken + (if s0.asyncPending && !s.asyncPending then 1 else 0)
          && (s.asyncPending ==> s0.asyncPending))
  }

  lemma LoopStepDelivers(s0: State, s: State, steps: nat, a: Action, threads: nat)
    requires s0.status == Inte && Delivering(s0, s, steps) && Inv(s, threads) && LoopAction(a) && Enabled(s, a)
    ensures Delivering(s0, Step(s, a), steps + 1)
  {
    var taken := |s0.queue| - |s.queue|;
    if taken < |s0.queue| {
      StepKeepsInv(s, a, threads);
      StepKeepsWork(s, a);
      if a.IdleTick? {
        TickDelivers(s, a.pick, a.ok);
        hide Step, Enabled, Fifo, Ledger, BackPressure, NoLostWork, CloseOnce;
        assert s0.queue[..taken + 1] == s0.queue[..taken] + [s.queue[0]];
      }
    } else {
      LoopStepAfter(s, a);
      assert s0.queue[..taken] == s0.queue;
    }
  }

  /** With nothing queued the loop delivers nothing more. */
  lemma LoopStepAfter(s: State, a: Action)
    requires s.queue == [] && LoopAction(a) && Enabled(s, a)
    ensures Step(s, a).queue == [] && Step(s, a).log.delivered == s.log.delivered
  {
  }

  lemma NothingDeliveredYet(s: State, threads: nat)
    requires Inv(s, threads) && NoLostWork(s)
    ensures Delivering(s, s, 0)
  {
    hide NoLostWork;
    assert s.queue[0..] == s.queue && s.log.delivered + [] == s.log.delivered;
  }

  lemma {:induction false} LoopDelivers(states: seq<State>, acts: seq<Action>, threads: nat, n: nat, i: nat)
    requires IsPath(states, acts) && n <= i <= |acts|
    requires states[n].status == Inte && Inv(states[n], threads) && NoLostWork(states[n])
    requires forall k :: n <= k < i ==> LoopAction(acts[k])
    ensures Inv(states[i], threads) && Delivering(states[n], states[i], i - n)
  {
    hide IsPath, Inv, Delivering, Step, Enabled, LoopAction, NoLostWork;
    PathStep(states, acts, i);
    if i > n {
      LoopDelivers(states, acts, threads, n, i - 1);
      PathStep(states, acts, i - 1);
      LoopStepDelivers(states[n], states[i - 1], i - 1 - n, acts[i - 1], threads);
      StepKeepsInv(states[i - 1], acts[i - 1], threads);
    } else {
      NothingDeliveredYet(states[n], threads);
    }
  }

  /**
    Theorem. With no lost work and no new calls, the item at position `k` of an open object's queue is delivered
    within k + 2 loop steps, and before it all items in front of it.
   */
  lemma DeliveredSoon(states: seq<State>, acts: seq<Action>, threads: nat, n: nat, k: nat)
    requires IsPath(states, acts) && n + k + 2 <= |acts|
    requires states[n].status == Inte && Inv(states[n], threads) && NoLostWork(states[n]) && k < |states[n].queue|
    requires forall j :: n <= j < n + k + 2 ==> LoopAction(acts[j])
    ensures states[n].log.delivered + states[n].queue[..k + 1] <= states[n + k + 2].log.delivered
  {
    hide Inv, LoopAction, NoLostWork, Step, Enabled, CloseOnce;
    LoopDelivers(states, acts, threads, n, n + k + 2);
    var s0, s := states[n], states[n + k + 2];
    var taken := |s0.queue| - |s.queue|;
    assert s0.queue[..k + 1] <= s0.queue[..taken];
  }

  /** Theorem. The same from any state of a run in which no waking call fails. */
  lemma RunDeliversSoon(max: nat, threads: nat, states: seq<State>, acts: seq<Action>, n: nat, k: nat)
    requires IsRun(max, threads, states, acts) && threads > 0 && n + k + 2 <= |acts|
    requires forall j :: 0 <= j < n ==> !LosesWakeup(states[j], acts[j])
    requires states[n].status == Inte && k < |states[n].queue|
    requires forall j :: n <= j < n + k + 2 ==> LoopAction(acts[j])
    ensures Deliveries(states, acts, n) + states[n].queue[..k + 1] <= Deliveries(states, acts, n + k + 2)
  {
    hide Inv, LoopAction, NoLostWork, LosesWakeup, IsPath, Deliveries;
    RunKeepsInv(max, threads, states, acts, n);
    RunKeepsWork(max, threads, states, acts, n);
    DeliveredSoon(states, acts, threads, n, k);
    RunMovesItems(max, threads, states, acts, n);
    RunMovesItems(max, threads, states, acts, n + k + 2);
  }
}
