/**
  `NativeSafeAsyncWork` itself: the fields its methods update in place, each method proved to take
  exactly the step of the protocol machine.

  `sendOk`, `startOk` and `stopOk` are the results of the libuv calls; `pick` is the thread that
  `notify_one` wakes. A blocking `Send` that has to wait comes back as `Parked`; `Resume` is the rest
  of its wait loop, run when the thread holds the mutex again.
 */
module SafeAsyncWork {
  import opened SafeAsyncProtocol

  class NativeSafeAsyncWork {
    const maxQueueSize_: nat
    var threadCount_: nat
    var status_: Status
    var queue_: seq<Data>
    var waiting_: map<ThreadId, Data>
    var notified_: map<ThreadId, Data>
    var asyncPending_: bool
    var idleActive_: bool
    var phase_: Phase
    ghost var log: Log

    ghost function Abstract(): State
      reads this
    {
      State(maxQueueSize_, threadCount_, status_, queue_, waiting_, notified_,
            asyncPending_, idleActive_, phase_, log)
    }

    constructor (maxQueueSize: nat, threadCount: nat)
      ensures Abstract() == Initial(maxQueueSize, threadCount).(status := Unknow, phase := Unopened)
    {
      maxQueueSize_, threadCount_, status_ := maxQueueSize, threadCount, Unknow;
      queue_, waiting_, notified_ := [], map[], map[];
      asyncPending_, idleActive_, phase_ := false, false, Unopened;
      log := EMPTY_LOG;
    }

    /**
      The object only becomes usable when the loop exists and both handles could be initialised; an async
      handle without an idle handle is closed again.
     */
    method Init(hasLoop: bool, asyncInitOk: bool, idleInitOk: bool) returns (usable: bool)
      requires phase_ == Unopened
      modifies this
      ensures usable <==> hasLoop && asyncInitOk && idleInitOk
      ensures usable ==> Abstract() == old(Abstract()).(status := Inte, phase := Open)
      ensures !usable ==> Abstract() == old(Abstract()).(phase := if hasLoop && asyncInitOk then GivenUp else Unopened)
    {
      if !hasLoop {
        return false;
      }
      if !asyncInitOk {
        return false;
      }
      if !idleInitOk {
        phase_ := GivenUp;
        return false;
      }
      phase_ := Open;
      status_ := Inte;
      return true;
    }

    predicate IsMaxQueueSize()
      reads this
      ensures IsMaxQueueSize() == SafeAsyncProtocol.IsMaxQueueSize(Abstract())
    {
      |queue_| > maxQueueSize_ && maxQueueSize_ > 0 && status_ != Closing && status_ != Closed
    }

    method Send(t: ThreadId, data: Data, mode: CallMode, sendOk: bool) returns (result: SendResult)
      modifies this
      ensures (Abstract(), result) == SendStep(old(Abstract()), t, data, mode, sendOk)
    {
      if IsMaxQueueSize() {
        if mode.Blocking? {
          waiting_ := waiting_[t := data];
          return Parked;
        } else {
          return Returned(QueueFull);
        }
      }
      result := FinishSend(data, sendOk);
    }

    method Resume(t: ThreadId, sendOk: bool) returns (result: SendResult)
      requires t in waiting_ || t in notified_
      modifies this
      ensures (Abstract(), result) == WakeStep(old(Abstract()), t, sendOk)
    {
      var data := if t in notified_ then notified_[t] else waiting_[t];
      waiting_, notified_ := waiting_ - {t}, notified_ - {t};
      if IsMaxQueueSize() {
        waiting_ := waiting_[t := data];
        return Parked;
      }
      result := FinishSend(data, sendOk);
    }

    method FinishSend(data: Data, sendOk: bool) returns (result: SendResult)
      modifies this
      ensures (Abstract(), result) == SendTail(old(Abstract()), data, sendOk)
    {
      if status_ == Closed || status_ == Closing {
        if threadCount_ == 0 {
          return Returned(InvalidArgs);
        } else {
          threadCount_ := threadCount_ - 1;
          log := log.(closedSends := log.closedSends + 1);
          return Returned(ClosedCode);
        }
      } else {
        queue_ := queue_ + [data];
        log := log.(pushed := log.pushed + [data]);
        asyncPending_ := asyncPending_ || sendOk;
        if !sendOk {
          return Returned(Failed);
        }
      }
      return Returned(Ok);
    }

    method Acquire() returns (code: Code)
      modifies this
      ensures (Abstract(), code) == AcquireStep(old(Abstract()))
    {
      if status_ == Closed || status_ == Closing {
        return ClosedCode;
      }
      threadCount_ := threadCount_ + 1;
      log := log.(acquired := log.acquired + 1);
      return Ok;
    }

    method Release(mode: ReleaseMode, pick: ThreadId, sendOk: bool) returns (code: Code)
      modifies this
      ensures (Abstract(), code) == ReleaseStep(old(Abstract()), mode, pick, sendOk)
    {
      if status_ == Closed || status_ == Closing {
        return ClosedCode;
      }
      if threadCount_ == 0 {
        return InvalidArgs;
      }
      threadCount_ := threadCount_ - 1;
      log := log.(released := log.released + 1);
      if mode == Abort {
        status_ := Closing;
        log := log.(aborted := true);
        if maxQueueSize_ > 0 {
          Notify(pick);
        }
      }
      if threadCount_ == 0 || mode == Abort {
        asyncPending_ := asyncPending_ || sendOk;
        if !sendOk {
          return Failed;
        }
      }
      return Ok;
    }

    /** `condition_.notify_one()` */
    method Notify(pick: ThreadId)
      modifies this
      ensures Abstract() == NotifyOne(old(Abstract()), pick)
    {
      if pick in waiting_ {
        notified_ := notified_[pick := waiting_[pick]];
        waiting_ := waiting_ - {pick};
      }
    }

    method AsyncCallback(startOk: bool)
      modifies this
      ensures Abstract() == AsyncFireStep(old(Abstract()), startOk)
    {
      asyncPending_ := false;
      idleActive_ := idleActive_ || startOk;
    }

    method ProcessAsyncHandle(pick: ThreadId, stopOk: bool)
      modifies this
      ensures Abstract() == ProcessStep(old(Abstract()), pick, stopOk)
    {
      if status_ == Closed {
        return;
      }
      if status_ == Closing {
        idleActive_ := idleActive_ && !stopOk;
        var _ := CloseHandles();
        return;
      }
      var size := |queue_|;
      if size > 0 {
        var data := queue_[0];
        if size == maxQueueSize_ && maxQueueSize_ > 0 {
          Notify(pick);
        }
        log := log.(delivered := log.delivered + [data]);
        queue_ := queue_[1..];
        size := size - 1;
      }
      if size == 0 {
        idleActive_ := idleActive_ && !stopOk;
        if threadCount_ == 0 {
          var _ := CloseHandles();
        }
      }
    }

    method CloseHandles() returns (code: Code)
      modifies this
      ensures (Abstract(), code) == CloseHandlesStep(old(Abstract()))
    {
      if status_ == Closed {
        return ClosedCode;
      }
      status_ := Closed;
      phase_ := AsyncClosing;
      log := log.(closes := log.closes + 1);
      return Ok;
    }

    /** libuv has closed the async handle: its callback closes the idle handle. */
    method OnAsyncHandleClosed()
      modifies this
      ensures Abstract() == old(Abstract()).(phase := IdleClosing, idleActive := false)
    {
      phase_ := IdleClosing;
      idleActive_ := false;
    }

    method CleanUp()
      modifies this
      ensures Abstract() == CleanUpStep(old(Abstract()))
    {
      phase_ := Finalized;
      log := log.(finalizers := log.finalizers + 1);
      ghost var before := log;
      while queue_ != []
        invariant log == before.(drained := log.drained)
        invariant log.drained + queue_ == before.drained + old(queue_)
        invariant Abstract() == old(Abstract()).(queue := queue_, log := log, phase := Finalized)
      {
        log := log.(drained := log.drained + [queue_[0]]);
        queue_ := queue_[1..];
      }
    }
  }
}
