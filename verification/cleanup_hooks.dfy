/**
  `NativeEngine` as far as environment teardown goes: the fields its methods update in place, each method
  proved to do what the functions of `CleanupProtocol` say.

  The parts of `native_node_api.cpp` that only act on the engine and on one info record are methods here.
 */
module CleanupHooks {
  import opened CleanupProtocol
  import opened CleanupProofs
  import opened CleanupOrder
  import opened CleanupCalls

  /** `std::sort` on a copy of the set, whose iteration order is arbitrary. */
  method SortCallbacks(hooks: map<Key, nat>) returns (callbacks: seq<Key>)
    requires Injective(hooks)
    ensures Listing(hooks, callbacks) && callbacks == Listed(hooks)
  {
    callbacks := [];
    var rest := hooks.Keys;
    while rest != {}
      invariant rest <= hooks.Keys
      invariant forall k :: k in callbacks <==> k in hooks && k !in rest
      invariant Newest(hooks, callbacks)
      decreases |rest|
    {
      var k :| k in rest;
      rest := rest - {k};
      callbacks := Insert(hooks, callbacks, k);
    }
    ListedIsListing(hooks);
    ListingIsUnique(hooks, callbacks, Listed(hooks));
  }

  function Insert(hooks: map<Key, nat>, list: seq<Key>, k: Key): (r: seq<Key>)
    requires k in hooks && k !in list && Newest(hooks, list) && Injective(hooks)
    ensures Newest(hooks, r) && forall l :: l in r <==> l == k || l in list
  {
    hide Newest;
    if list == [] then
      OneIsNewest(hooks, k);
      [k]
    else if hooks[k] > (HeadInOrder(hooks, list); hooks[list[0]]) then
      InFront(hooks, list, k);
      [k] + list
    else
      HeadInOrder(hooks, list);
      assert list == [list[0]] + list[1..];
      var tail := Insert(hooks, list[1..], k);
      Behind(hooks, list, k, tail);
      [list[0]] + tail
  }

  lemma OneIsNewest(hooks: map<Key, nat>, k: Key)
    requires k in hooks
    ensures Newest(hooks, [k])
  {
  }

  lemma InFront(hooks: map<Key, nat>, list: seq<Key>, k: Key)
    requires list != [] && Newest(hooks, list) && k in hooks && list[0] in hooks && hooks[k] > hooks[list[0]]
    ensures Newest(hooks, [k] + list)
  {
    forall l | l in list
      ensures l in hooks && hooks[k] > hooks[l]
    {
      HeadIsNewest(hooks, list, l);
    }
    NewestFirst(hooks, k, list);
  }

  lemma Behind(hooks: map<Key, nat>, list: seq<Key>, k: Key, tail: seq<Key>)
    requires list != [] && Newest(hooks, list) && Newest(hooks, tail) && Injective(hooks)
    requires k in hooks && k != list[0] && hooks[k] <= hooks[list[0]]
    requires forall l :: l in tail ==> l == k || l in list[1..]
    ensures Newest(hooks, [list[0]] + tail)
  {
    assert list[0] in list;
    forall l | l in tail
      ensures l in hooks && hooks[list[0]] > hooks[l]
    {
      if l != k {
        HeadIsNewer(hooks, list, l);
      }
    }
    NewestFirst(hooks, list[0], tail);
  }

  class NativeEngine {
    var cleanup_hooks_: map<Key, nat>
    var cleanup_hook_counter_: nat
    var request_waiting_: int
    var infos: map<InfoId, Info>
    var nextInfo: InfoId
    var script: seq<seq<Op>>
    ghost var log: Log

    ghost function Abstract(): State
      reads this
    {
      State(cleanup_hooks_, cleanup_hook_counter_, request_waiting_, infos, nextInfo, script, log)
    }

    constructor (script: seq<seq<Op>>)
      ensures Abstract() == Initial(script) && Valid(Abstract(), {})
    {
      cleanup_hooks_, cleanup_hook_counter_, request_waiting_ := map[], 0, 0;
      infos, nextInfo, this.script, log := map[], 0, script, EMPTY_LOG;
      new;
      InitialIsValid(script);
    }

    method AddCleanupHook(key: Key)
      modifies this
      ensures Abstract() == CleanupProtocol.AddCleanupHook(old(Abstract()), key)
      ensures key in cleanup_hooks_
      ensures forall k :: k in old(cleanup_hooks_) ==>
                k in cleanup_hooks_ && cleanup_hooks_[k] == old(cleanup_hooks_)[k]
    {
      if key !in cleanup_hooks_ {
        cleanup_hooks_ := cleanup_hooks_[key := cleanup_hook_counter_];
      }
      cleanup_hook_counter_ := cleanup_hook_counter_ + 1;
    }

    method RemoveCleanupHook(key: Key)
      modifies this
      ensures Abstract() == CleanupProtocol.RemoveCleanupHook(old(Abstract()), key)
    {
      cleanup_hooks_ := cleanup_hooks_ - {key};
    }

    method AddEnvironmentCleanupHook() returns (info: InfoId)
      modifies this
      ensures Abstract() == AddAsync(old(Abstract())) && info == old(nextInfo)
    {
      info := nextInfo;
      nextInfo := nextInfo + 1;
      infos := infos[info := Info(false, true, true, false)];
      AddCleanupHook(Async(info));
    }

    /** `RunAsyncCleanupHook` and `Hook`, up to the call of the user's hook. */
    method StartAsyncHook(info: InfoId)
      requires info in infos
      modifies this
      ensures Abstract() == StartAsync(old(Abstract()), info)
    {
      request_waiting_ := request_waiting_ + 1;
      infos := infos[info := infos[info].(started := true)];
      log := log.(started := log.started + {info});
      infos := infos[info := infos[info].(done := true)];
      assert infos == old(infos)[info := old(infos)[info].(started := true, done := true)];
    }

    /** `FinishAsyncCleanupHook`: the request is no longer waiting and the record lets go of itself. */
    method FinishAsyncHook(info: InfoId)
      requires info in infos
      modifies this
      ensures Abstract() == FinishAsync(old(Abstract()), info)
    {
      request_waiting_ := request_waiting_ - 1;
      infos := infos[info := infos[info].(self := false)];
      log := log.(finished := log.finished + {info});
    }

    method RemoveEnvironmentCleanupHook(info: InfoId)
      requires info in infos
      modifies this
      ensures Abstract() == Withdraw(old(Abstract()), info)
    {
      if infos[info].started {
        return;
      }
      infos := infos[info := infos[info].(self := false)];
      RemoveCleanupHook(Async(info));
    }

    /** The destructor of the user's handle. */
    method DeleteHookHandle(info: InfoId)
      requires info in infos && infos[info].handle
      modifies this
      ensures Abstract() == CleanupProtocol.DeleteHookHandle(old(Abstract()), info)
    {
      RemoveEnvironmentCleanupHook(info);
      if infos[info].done {
        FinishAsyncHook(info);
      }
      infos := infos[info := infos[info].(handle := false)];
    }

    /** One API call of user code. */
    method DoOp(op: Op)
      modifies this
      ensures Abstract() == Apply(old(Abstract()), op)
      ensures old(Valid(Abstract(), {})) ==> Valid(Abstract(), {})
    {
      if Valid(Abstract(), {}) {
        ApplyKeepsValid(Abstract(), op, {});
      }
      hide Valid;
      match op
      case AddHook(fn, arg) => AddCleanupHook(Plain(fn, arg));
      case RemoveHook(fn, arg) => RemoveCleanupHook(Plain(fn, arg));
      case AddAsyncHook => var _ := AddEnvironmentCleanupHook();
      case DeleteHandle(info) =>
        if info in infos && infos[info].handle {
          DeleteHookHandle(info);
        }
    }

    /** Control is with user code once: it makes the calls of the next script entry. */
    method UserTurn()
      modifies this
      ensures Abstract() == Turn(old(Abstract()))
    {
      hide Apply;
      if script == [] {
        return;
      }
      var ops := script[0];
      script := script[1..];
      log := log.(turns := log.turns + 1);
      var i: nat := 0;
      assert ops[0..] == ops;
      while i < |ops|
        invariant i <= |ops|
        invariant ApplyAll(Abstract(), ops[i..]) == Turn(old(Abstract()))
      {
        assert ops[i..][1..] == ops[i + 1..];
        DoOp(ops[i]);
        i := i + 1;
      }
    }

    /** `cb.fn_(cb.arg_)` and `cleanup_hooks_.erase(cb)` */
    method CallHook(key: Key)
      requires Valid(Abstract(), {}) && key in cleanup_hooks_
      modifies this
      ensures Abstract() == CleanupProtocol.CallHook(old(Abstract()), key) && Valid(Abstract(), {})
    {
      CallKeepsValid(Abstract(), key);
      BeginKeepsValid(Abstract(), key);
      hide Valid, Turn;
      log := log.(ran := log.ran + [Call(key, log.turns)]);
      if key.Async? {
        StartAsyncHook(key.info);
      }
      UserTurn();
      RemoveCleanupHook(key);
    }

    /** The loop turns until no asynchronous hook is outstanding; without further events it never would. */
    method CleanupHandles() returns (idle: bool)
      requires Valid(Abstract(), {})
      modifies this
      ensures Abstract() == Drain(old(Abstract())) && Valid(Abstract(), {})
      ensures idle <==> request_waiting_ <= 0
    {
      DrainKeepsValid(Abstract());
      hide Valid, Turn;
      while request_waiting_ > 0
        invariant Drain(Abstract()) == Drain(old(Abstract()))
        decreases |script|
      {
        if script == [] {
          return false;
        }
        UserTurn();
      }
      return true;
    }

    /** One pass over a sorted copy of the set. */
    method RunBatch()
      requires Valid(Abstract(), {})
      modifies this
      ensures Abstract() == CleanupProtocol.RunBatch(old(Abstract()), Listed(old(cleanup_hooks_)))
      ensures Valid(Abstract(), {})
    {
      HooksAreInjective(Abstract());
      hide Valid, CleanupProtocol.RunBatch, Injective, Newest;
      var callbacks := SortCallbacks(cleanup_hooks_);
      RunCallbacks(callbacks);
    }

    method RunCallbacks(callbacks: seq<Key>)
      requires Valid(Abstract(), {})
      modifies this
      ensures Abstract() == CleanupProtocol.RunBatch(old(Abstract()), callbacks) && Valid(Abstract(), {})
    {
      hide Valid, CleanupProtocol.CallHook, CleanupProtocol.RunBatch;
      var i: nat := 0;
      BatchIsWhole(Abstract(), callbacks);
      while i < |callbacks|
        invariant i <= |callbacks| && Valid(Abstract(), {})
        invariant CleanupProtocol.RunBatch(Abstract(), callbacks[i..])
                  == CleanupProtocol.RunBatch(old(Abstract()), callbacks)
      {
        BatchStep(Abstract(), callbacks, i);
        var cb := callbacks[i];
        if cb in cleanup_hooks_ {
          CallHook(cb);
        }
        i := i + 1;
      }
      BatchIsDone(Abstract(), callbacks, i);
    }

    /**
      `RunCleanup`. `idle` is false when the loop would block for ever on an asynchronous hook that nothing
      finishes. Otherwise no hook is left, every started hook has finished and no record owns itself. The
      number of calls is bounded by the hooks present and added. Where nothing is added, hooks are called
      newest first, each exactly if it was not removed before its turn.
     */
    method RunCleanup() returns (idle: bool)
      requires Valid(Abstract(), {})
      modifies this
      ensures Abstract() == CleanupProtocol.RunCleanup(old(Abstract())) && Valid(Abstract(), {})
      ensures if idle then TornDown(Abstract()) else request_waiting_ > 0 && script == []
      ensures |log.ran| + |cleanup_hooks_| <= |old(cleanup_hooks_)| + TotalAdds(old(script))
      ensures old(log.started) <= log.started && old(log.finished) <= log.finished
      ensures log.started - old(log.started) == StartedBy(log.ran)
      ensures TotalAdds(old(script)) == 0 ==>
                log.ran == TeardownCalls(old(Abstract())) && CalledInOrder(old(Abstract()), Abstract())
      ensures TotalAdds(old(script)) == 0 && idle
              && (forall k :: k in old(cleanup_hooks_) ==> !RemovedBefore(old(script), k, |old(script)|)) ==>
                Keys(log.ran) == Listed(old(cleanup_hooks_))
    {
      hide InfosOk, CountersOk, LedgerOk, Rounds, RemovedBefore, CalledInOrder, TeardownCalls;
      RunCleanupEnds(Abstract());
      if TotalAdds(script) == 0 {
        RunCleanupOrder(Abstract());
        RunCleanupCalls(Abstract());
        if forall k :: k in cleanup_hooks_ ==> !RemovedBefore(script, k, |script|) {
          AllAreCalled(Abstract());
        }
      }
      idle := TearDown();
    }

    /** The body of `RunCleanup`. */
    method TearDown() returns (idle: bool)
      requires Valid(Abstract(), {})
      modifies this
      ensures Abstract() == CleanupProtocol.RunCleanup(old(Abstract()))
      ensures idle <==> request_waiting_ <= 0
    {
      log := log.(ran := [], turns := 0);
      ghost var start := Abstract();
      FreshKeepsValid(old(Abstract()));
      hide Valid, Drain, Rounds, After, CleanupProtocol.RunBatch, Size;
      idle := CleanupHandles();
      RoundsAfterDrain(start);
      while idle && cleanup_hooks_ != map[]
        invariant Valid(Abstract(), {}) && (idle <==> request_waiting_ <= 0)
        invariant After(Abstract()) == Rounds(start)
        decreases Size(Abstract())
      {
        ghost var before := Abstract();
        RunBatch();
        RoundsAfterDrain(Abstract());
        AfterStep(before);
        idle := CleanupHandles();
      }
      AfterEnd(Abstract());
    }
  }

  lemma BatchIsWhole(s: State, callbacks: seq<Key>)
    ensures CleanupProtocol.RunBatch(s, callbacks[0..]) == CleanupProtocol.RunBatch(s, callbacks)
  {
    assert callbacks[0..] == callbacks;
  }

  lemma BatchStep(s: State, callbacks: seq<Key>, i: nat)
    requires i < |callbacks|
    ensures var s' := if callbacks[i] in s.hooks then CleanupProtocol.CallHook(s, callbacks[i]) else s;
            CleanupProtocol.RunBatch(s, callbacks[i..]) == CleanupProtocol.RunBatch(s', callbacks[i + 1..])
  {
    hide CleanupProtocol.CallHook;
    assert callbacks[i..][1..] == callbacks[i + 1..];
  }

  lemma BatchIsDone(s: State, callbacks: seq<Key>, i: nat)
    requires i == |callbacks|
    ensures CleanupProtocol.RunBatch(s, callbacks[i..]) == s
  {
  }

  /** Where teardown leads from `d`, the requests of which have just been waited for. */
  ghost function After(d: State): State {
    if d.waiting > 0 || d.hooks == map[] then d
    else Rounds(CleanupProtocol.RunBatch(d, Listed(d.hooks)))
  }

  lemma RoundsAfterDrain(s: State)
    ensures Rounds(s) == After(Drain(s))
  {
    hide Drain, CleanupProtocol.RunBatch, Size;
  }

  lemma AfterStep(d: State)
    requires d.waiting <= 0 && d.hooks != map[]
    ensures var next := CleanupProtocol.RunBatch(d, Listed(d.hooks));
            After(d) == Rounds(next) && Size(Drain(next)) < Size(d)
  {
    hide Drain, Rounds, CleanupProtocol.RunBatch, Size;
    BatchShrinks(d, Listed(d.hooks));
    DrainGrows(CleanupProtocol.RunBatch(d, Listed(d.hooks)));
  }

  lemma AfterEnd(d: State)
    requires d.waiting > 0 || d.hooks == map[]
    ensures After(d) == d
  {
  }
}
