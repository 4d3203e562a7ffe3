/**
  The thread-safe function protocol as a step machine.

  One `State` holds the fields that `NativeSafeAsyncWork` protects with its mutex, the two libuv
  handles reduced to what the protocol needs of them, and the wait set of the condition variable.
  Every `Action` is one critical section, or one callback of the event loop. A `Log` records what
  has been observable so far; no step ever reads it.
 */
module SafeAsyncProtocol {
  type Data = int
  type ThreadId = nat

  datatype Status = Unknow | Inte | Closing | Closed

  datatype Code = QueueFull | InvalidArgs | ClosedCode | Failed | Ok

  datatype CallMode = Blocking | NonBlocking

  datatype ReleaseMode = Release | Abort

  /** A blocking `Send` either returns or leaves its thread parked on the condition variable. */
  datatype SendResult = Returned(code: Code) | Parked

  /**
    Where the handles are: not initialised, given up because only one could be, open, and then on their
    way from `CloseHandles` to `CleanUp`.
   */
  datatype Phase = Unopened | GivenUp | Open | AsyncClosing | IdleClosing | Finalized

  /** What the outside has seen: items by fate, calls by effect. */
  datatype Log = Log(
    pushed: seq<Data>,
    delivered: seq<Data>,
    drained: seq<Data>,
    acquired: nat,
    released: nat,
    closedSends: nat,
    aborted: bool,
    closes: nat,
    finalizers: nat)

  datatype State = State(
    maxQueueSize: nat,
    threadCount: nat,
    status: Status,
    queue: seq<Data>,
    waiting: map<ThreadId, Data>,   // parked, not yet notified
    notified: map<ThreadId, Data>,  // notified, the mutex not yet reacquired
    asyncPending: bool,
    idleActive: bool,
    phase: Phase,
    log: Log)

  /**
    `ok` says whether the libuv call of the step succeeds, `pick` which parked thread
    `notify_one` chooses.
   */
  datatype Action =
    | SendCall(t: ThreadId, data: Data, mode: CallMode, ok: bool)
    | Wake(t: ThreadId, ok: bool)
    | AcquireCall
    | ReleaseCall(rmode: ReleaseMode, pick: ThreadId, ok: bool)
    | AsyncFire(ok: bool)
    | IdleTick(pick: ThreadId, ok: bool)
    | AsyncHandleClosed
    | IdleHandleClosed

  const EMPTY_LOG := Log([], [], [], 0, 0, 0, false, 0, 0)

  function Initial(maxQueueSize: nat, threads: nat): State {
    State(maxQueueSize, threads, Inte, [], map[], map[], false, false, Open, EMPTY_LOG)
  }

  predicate IsClosing(s: State) {
    s.status == Closed || s.status == Closing
  }

  predicate IsMaxQueueSize(s: State) {
    |s.queue| > s.maxQueueSize && s.maxQueueSize > 0 && !IsClosing(s)
  }

  /** `Send` once its thread is past the queue-full check. */
  function SendTail(s: State, data: Data, ok: bool): (State, SendResult) {
    if IsClosing(s) then
      if s.threadCount == 0 then
        (s, Returned(InvalidArgs))
      else
        (s.(threadCount := s.threadCount - 1, log := s.log.(closedSends := s.log.closedSends + 1)),
         Returned(ClosedCode))
    else
      (s.(queue := s.queue + [data],
          asyncPending := s.asyncPending || ok,
          log := s.log.(pushed := s.log.pushed + [data])),
       Returned(if ok then Ok else Failed))
  }

  function SendStep(s: State, t: ThreadId, data: Data, mode: CallMode, ok: bool): (State, SendResult) {
    if IsMaxQueueSize(s) then
      if mode.Blocking? then
        (s.(waiting := s.waiting[t := data]), Parked)
      else
        (s, Returned(QueueFull))
    else
      SendTail(s, data, ok)
  }

  /** A parked thread holds the mutex again and re-evaluates the condition of its wait loop. */
  function WakeStep(s: State, t: ThreadId, ok: bool): (State, SendResult)
    requires t in s.waiting || t in s.notified
  {
    var data := if t in s.notified then s.notified[t] else s.waiting[t];
    var awake := s.(waiting := s.waiting - {t}, notified := s.notified - {t});
    if IsMaxQueueSize(awake) then
      (awake.(waiting := awake.waiting[t := data]), Parked)
    else
      SendTail(awake, data, ok)
  }

  function NotifyOne(s: State, pick: ThreadId): State {
    if pick in s.waiting then
      s.(waiting := s.waiting - {pick}, notified := s.notified[pick := s.waiting[pick]])
    else
      s
  }

  function AcquireStep(s: State): (State, Code) {
    if IsClosing(s) then
      (s, ClosedCode)
    else
      (s.(threadCount := s.threadCount + 1, log := s.log.(acquired := s.log.acquired + 1)), Ok)
  }

  function ReleaseStep(s: State, mode: ReleaseMode, pick: ThreadId, ok: bool): (State, Code) {
    if IsClosing(s) then
      (s, ClosedCode)
    else if s.threadCount == 0 then
      (s, InvalidArgs)
    else
      var s1 := s.(threadCount := s.threadCount - 1, log := s.log.(released := s.log.released + 1));
      var s2 :=
        if mode.Abort? then
          var closing := s1.(status := Closing, log := s1.log.(aborted := true));
          if s.maxQueueSize > 0 then NotifyOne(closing, pick) else closing
        else
          s1;
      if s2.threadCount == 0 || mode.Abort? then
        (s2.(asyncPending := s2.asyncPending || ok), if ok then Ok else Failed)
      else
        (s2, Ok)
  }

  function AsyncFireStep(s: State, ok: bool): State {
    s.(asyncPending := false, idleActive := s.idleActive || ok)
  }

  function CloseHandlesStep(s: State): (State, Code) {
    if s.status == Closed then
      (s, ClosedCode)
    else
      (s.(status := Closed, phase := AsyncClosing, log := s.log.(closes := s.log.closes + 1)), Ok)
  }

  /** Take the front item to the script side, notifying when the queue stands exactly at its limit. */
  function Deliver(s: State, pick: ThreadId): State
    requires s.queue != []
  {
    var n := if |s.queue| == s.maxQueueSize && s.maxQueueSize > 0 then NotifyOne(s, pick) else s;
    n.(queue := n.queue[1..], log := n.log.(delivered := n.log.delivered + [n.queue[0]]))
  }

  /** With nothing left to deliver the idle handle stops, and with no thread left the handles close. */
  function FinishTick(d: State, ok: bool): State {
    if d.queue == [] then
      var stopped := d.(idleActive := d.idleActive && !ok);
      if stopped.threadCount == 0 then CloseHandlesStep(stopped).0 else stopped
    else
      d
  }

  function ProcessStep(s: State, pick: ThreadId, ok: bool): State {
    if s.status == Closed then
      s
    else if s.status == Closing then
      CloseHandlesStep(s.(idleActive := s.idleActive && !ok)).0
    else
      FinishTick(if s.queue != [] then Deliver(s, pick) else s, ok)
  }

  /** The finalizer runs, then whatever is still queued is handed back without an engine. */
  function CleanUpStep(s: State): State {
    s.(phase := Finalized,
       queue := [],
       log := s.log.(finalizers := s.log.finalizers + 1, drained := s.log.drained + s.queue))
  }

  predicate NotifyAllowed(s: State, pick: ThreadId) {
    pick in s.waiting || s.waiting == map[]
  }

  /** A thread may call in when it is not parked; the loop may do what its handles ask for. */
  predicate Enabled(s: State, a: Action) {
    match a
    case SendCall(t, _, _, _) => t !in s.waiting && t !in s.notified
    case Wake(t, _) => t in s.waiting || t in s.notified
    case AcquireCall => true
    case ReleaseCall(_, pick, _) => NotifyAllowed(s, pick)
    case AsyncFire(_) => s.asyncPending && s.phase == Open
    case IdleTick(pick, _) => s.idleActive && (s.phase == Open || s.phase == AsyncClosing) && NotifyAllowed(s, pick)
    case AsyncHandleClosed => s.phase == AsyncClosing
    case IdleHandleClosed => s.phase == IdleClosing
  }

  function Step(s: State, a: Action): State
    requires Enabled(s, a)
  {
    match a
    case SendCall(t, data, mode, ok) => SendStep(s, t, data, mode, ok).0
    case Wake(t, ok) => WakeStep(s, t, ok).0
    case AcquireCall => AcquireStep(s).0
    case ReleaseCall(mode, pick, ok) => ReleaseStep(s, mode, pick, ok).0
    case AsyncFire(ok) => AsyncFireStep(s, ok)
    case IdleTick(pick, ok) => ProcessStep(s, pick, ok)
    case AsyncHandleClosed => s.(phase := IdleClosing, idleActive := false)
    case IdleHandleClosed => CleanUpStep(s)
  }

  /** `states` is a behaviour of the machine under the schedule `acts`. */
  ghost predicate IsPath(states: seq<State>, acts: seq<Action>) {
    && |states| == |acts| + 1
    && forall i {:trigger acts[i]} :: 0 <= i < |acts| ==>
         Enabled(states[i], acts[i]) && states[i + 1] == Step(states[i], acts[i])
  }

  ghost predicate IsRun(maxQueueSize: nat, threads: nat, states: seq<State>, acts: seq<Action>) {
    IsPath(states, acts) && states[0] == Initial(maxQueueSize, threads)
  }

  /** A step of the event loop, its libuv call succeeding. */
  predicate LoopAction(a: Action) {
    match a
    case AsyncFire(ok) => ok
    case IdleTick(_, ok) => ok
    case AsyncHandleClosed => true
    case IdleHandleClosed => true
    case _ => false
  }

  /** A sender that has been notified goes on, its `uv_async_send` succeeding. */
  predicate Resumes(s: State, a: Action) {
    a.Wake? && a.t in s.notified && a.ok
  }

  /** What still happens when no thread makes a new call. */
  predicate Settles(s: State, a: Action) {
    LoopAction(a) || Resumes(s, a)
  }
}
