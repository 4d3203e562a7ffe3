/**
  What each API call of the cleanup hooks does, and what becomes of a hook over its whole life: from its
  registration, over a teardown whose hooks may do anything, to its call, removal or completion.
 */
module CleanupLaws {
  import opened Sequences
  import opened CleanupProtocol
  import opened CleanupProofs
  import opened CleanupOrder
  import opened CleanupCalls

  // ----- One call, for every state -----

  /** A hook that is added is there, the newest if it is new, where it was if it is not; nothing else changes. */
  lemma AddTells(s: State, key: Key)
    ensures var r := AddCleanupHook(s, key);
            && key in r.hooks && r.hooks.Keys == s.hooks.Keys + {key}
            && (forall k :: k in s.hooks ==> r.hooks[k] == s.hooks[k])
            && (CountersOk(s.hooks, s.counter) && key !in s.hooks ==>
                  IsNewest(r.hooks, key) && forall k :: k in s.hooks ==> r.hooks[k] < r.hooks[key])
            && r.counter == s.counter + 1 && r == s.(hooks := r.hooks, counter := r.counter)
  {
  }

  lemma RemoveTells(s: State, key: Key)
    ensures var r := RemoveCleanupHook(s, key);
            && r.hooks.Keys == s.hooks.Keys - {key} && (forall k :: k in r.hooks ==> r.hooks[k] == s.hooks[k])
            && r == s.(hooks := r.hooks)
  {
  }

  /** A new asynchronous hook is there, newest, with a record that keeps itself alive and has not started. */
  lemma AddAsyncTells(s: State)
    requires Valid(s, {})
    ensures var r, key := AddAsync(s), Async(s.nextInfo);
            && key !in s.hooks && key in r.hooks && r.hooks.Keys == s.hooks.Keys + {key}
            && IsNewest(r.hooks, key) && (forall k :: k in s.hooks ==> r.hooks[k] == s.hooks[k] < r.hooks[key])
            && s.nextInfo !in s.infos && r.infos == s.infos[s.nextInfo := Info(false, true, true, false)]
            && r.nextInfo == s.nextInfo + 1
            && r == s.(hooks := r.hooks, counter := r.counter, infos := r.infos, nextInfo := r.nextInfo)
  {
    hide InfosOk;
  }

  /** Without a live handle there is nothing to delete. */
  lemma DeleteNothing(s: State, id: InfoId)
    requires id !in s.infos || !s.infos[id].handle
    ensures DeleteHookHandle(s, id) == s
  {
  }

  // ----- Before teardown -----

  function Drop(list: seq<Key>, key: Key): (r: seq<Key>)
    ensures forall k :: k in r <==> k in list && k != key
  {
    if list == [] then []
    else
      var rest := Drop(list[1..], key);
      assert list == [list[0]] + list[1..];
      if list[0] == key then rest else [list[0]] + rest
  }

  /** How many asynchronous hooks have been added; the next one gets that number. */
  function AsyncAdds(ops: seq<Op>): nat {
    if ops == [] then 0 else AsyncAdds(ops[..|ops| - 1]) + if ops[|ops| - 1].AddAsyncHook? then 1 else 0
  }

  /** The hooks added and not removed since, first insertion first. */
  function Registered(ops: seq<Op>): seq<Key> {
    if ops == [] then []
    else
      var before, op := Registered(ops[..|ops| - 1]), ops[|ops| - 1];
      match op
      case AddHook(fn, arg) => if Plain(fn, arg) in before then before else before + [Plain(fn, arg)]
      case RemoveHook(fn, arg) => Drop(before, Plain(fn, arg))
      case AddAsyncHook => before + [Async(AsyncAdds(ops[..|ops| - 1]))]
      case DeleteHandle(id) => Drop(before, Async(id))
  }

  /** `list` has the keys of `hooks`, first inserted first. */
  ghost predicate OldestFirst(hooks: map<Key, nat>, list: seq<Key>) {
    && (forall k :: k in list <==> k in hooks)
    && forall i, j :: 0 <= i < j < |list| ==> list[i] in hooks && list[j] in hooks && hooks[list[i]] < hooks[list[j]]
  }

  lemma OldestReversed(hooks: map<Key, nat>, list: seq<Key>)
    requires OldestFirst(hooks, list)
    ensures Listing(hooks, Reverse(list))
  {
    ReverseHas(list);
    forall i, j | 0 <= i < j < |list|
      ensures Reverse(list)[i] in hooks && Reverse(list)[j] in hooks
              && hooks[Reverse(list)[i]] > hooks[Reverse(list)[j]]
    {
      ReverseAt(list, i);
      ReverseAt(list, j);
    }
  }

  lemma AppendNewest(before: map<Key, nat>, after: map<Key, nat>, list: seq<Key>, key: Key)
    requires OldestFirst(before, list) && key !in before && after.Keys == before.Keys + {key}
    requires forall k :: k in before ==> after[k] == before[k] < after[key]
    ensures OldestFirst(after, list + [key])
  {
    assert forall i :: 0 <= i < |list| ==> list[i] in list;
  }

  lemma {:induction false} DropKeepsOrder(before: map<Key, nat>, after: map<Key, nat>, list: seq<Key>, key: Key)
    requires OldestFirst(before, list) && after.Keys == before.Keys - {key}
    requires forall k :: k in after ==> after[k] == before[k]
    ensures OldestFirst(after, Drop(list, key))
  {
    DropIsOrdered(before, list, key);
    assert forall i :: 0 <= i < |Drop(list, key)| ==> Drop(list, key)[i] in Drop(list, key);
  }

  ghost predicate Ascending(order: map<Key, nat>, list: seq<Key>) {
    && (forall k :: k in list ==> k in order)
    && forall i, j :: 0 <= i < j < |list| ==> order[list[i]] < order[list[j]]
  }

  lemma {:induction false} DropIsOrdered(order: map<Key, nat>, list: seq<Key>, key: Key)
    requires Ascending(order, list)
    ensures Ascending(order, Drop(list, key))
    decreases |list|
  {
    if list != [] {
      assert list == [list[0]] + list[1..];
      assert Ascending(order, list[1..]) by {
        assert forall k :: k in list[1..] ==> k in list;
      }
      DropIsOrdered(order, list[1..], key);
      if list[0] != key {
        AscendingPrepend(order, list, Drop(list[1..], key));
      }
    }
  }

  lemma AscendingPrepend(order: map<Key, nat>, list: seq<Key>, rest: seq<Key>)
    requires list != [] && Ascending(order, list) && Ascending(order, rest)
    requires forall k :: k in rest ==> k in list[1..]
    ensures Ascending(order, [list[0]] + rest)
  {
    assert list[0] in list;
    forall i | 0 <= i < |rest|
      ensures order[list[0]] < order[rest[i]]
    {
      assert rest[i] in rest;
      var j :| 0 <= j < |list| - 1 && list[1..][j] == rest[i];
      assert list[j + 1] == rest[i];
    }
  }

  /** The state that a sequence of API calls leads to, before any teardown. */
  function After(script: seq<seq<Op>>, ops: seq<Op>): State {
    if ops == [] then Initial(script) else Apply(After(script, ops[..|ops| - 1]), ops[|ops| - 1])
  }

  lemma {:induction false} AfterIsApplyAll(script: seq<seq<Op>>, ops: seq<Op>)
    ensures After(script, ops) == ApplyAll(Initial(script), ops)
  {
    hide Apply;
    if ops != [] {
      AfterIsApplyAll(script, ops[..|ops| - 1]);
      ApplyAllLast(Initial(script), ops);
    }
  }

  lemma {:induction false} ApplyAllLast(s: State, ops: seq<Op>)
    requires ops != []
    ensures ApplyAll(s, ops) == Apply(ApplyAll(s, ops[..|ops| - 1]), ops[|ops| - 1])
    decreases |ops|
  {
    hide Apply;
    if |ops| > 1 {
      ApplyAllLast(Apply(s, ops[0]), ops[1..]);
      assert ops[1..][..|ops| - 2] == ops[..|ops| - 1][1..];
    }
  }

  /** Before any teardown no hook has started, no request waits, and handles exist exactly while hooks do. */
  ghost predicate Untouched(s: State, script: seq<seq<Op>>) {
    Valid(s, {}) && s.log == EMPTY_LOG && s.waiting == 0 && s.script == script
  }

  lemma UntouchedInfo(s: State, script: seq<seq<Op>>, id: InfoId)
    requires Untouched(s, script) && id in s.infos
    ensures !s.infos[id].started && (s.infos[id].handle <==> Async(id) in s.hooks)
  {
    assert InfoOk(s.infos[id], Async(id), s.hooks.Keys, id in s.log.started, id in s.log.finished, {});
  }

  lemma DeleteUntouched(s: State, script: seq<seq<Op>>, id: InfoId)
    requires Untouched(s, script)
    ensures var r := DeleteHookHandle(s, id);
            && r.hooks == s.hooks - {Async(id)} && r.log == s.log && r.waiting == s.waiting && r.nextInfo == s.nextInfo
  {
    if id in s.infos {
      UntouchedInfo(s, script, id);
    }
    hide InfosOk, CountersOk;
    if InfoAt(s, id).handle {
      WithdrawKeepsValid(s, id, {});
    } else {
      assert Async(id) !in s.hooks;
      assert s.hooks - {Async(id)} == s.hooks;
    }
  }

  /**
    Theorem. After any sequence of API calls on a new engine, the registered hooks are exactly those added and
    not removed since, in the order of their first insertion.
   */
  lemma {:induction false} HooksAfter(script: seq<seq<Op>>, ops: seq<Op>)
    ensures var s := After(script, ops);
            Untouched(s, script) && s.nextInfo == AsyncAdds(ops) && OldestFirst(s.hooks, Registered(ops))
  {
    if ops == [] {
      InitialIsValid(script);
    } else {
      var front, op := ops[..|ops| - 1], ops[|ops| - 1];
      HooksAfter(script, front);
      OneMoreCall(After(script, front), script, front, op);
      assert front + [op] == ops;
    }
  }

  lemma OneMoreCall(s: State, script: seq<seq<Op>>, front: seq<Op>, op: Op)
    requires Untouched(s, script) && s.nextInfo == AsyncAdds(front) && OldestFirst(s.hooks, Registered(front))
    ensures var r, ops := Apply(s, op), front + [op];
            Untouched(r, script) && r.nextInfo == AsyncAdds(ops) && OldestFirst(r.hooks, Registered(ops))
  {
    var r, list, ops := Apply(s, op), Registered(front), front + [op];
    assert ops[..|ops| - 1] == front;
    ApplyKeepsValid(s, op, {});
    hide InfosOk, LedgerOk, OldestFirst, AsyncAdds;
    AsyncAddsAppend(front, op);
    match op
    case AddHook(fn, arg) =>
      AddTells(s, Plain(fn, arg));
      RegisteredAreHooks(s.hooks, list);
      if Plain(fn, arg) !in s.hooks {
        AppendNewest(s.hooks, r.hooks, list, Plain(fn, arg));
      }
    case RemoveHook(fn, arg) =>
      RemoveTells(s, Plain(fn, arg));
      DropKeepsOrder(s.hooks, r.hooks, list, Plain(fn, arg));
    case AddAsyncHook =>
      AddAsyncTells(s);
      AppendNewest(s.hooks, r.hooks, list, Async(s.nextInfo));
    case DeleteHandle(id) =>
      DeleteUntouched(s, script, id);
      DropKeepsOrder(s.hooks, r.hooks, list, Async(id));
  }

  lemma RegisteredAreHooks(hooks: map<Key, nat>, list: seq<Key>)
    requires OldestFirst(hooks, list)
    ensures forall k :: k in list <==> k in hooks
  {
  }

  lemma AsyncAddsAppend(front: seq<Op>, op: Op)
    ensures AsyncAdds(front + [op]) == AsyncAdds(front) + if op.AddAsyncHook? then 1 else 0
  {
    assert (front + [op])[..|front|] == front;
  }

  /**
    Theorem. The whole life of plain and asynchronous hooks: after any sequence of API calls on a new engine, a
    teardown whose hooks add nothing calls exactly the hooks added and not removed since, last inserted first,
    but for those that a hook called earlier removes.
   */
  lemma WholeLife(script: seq<seq<Op>>, ops: seq<Op>)
    requires TotalAdds(script) == 0
    ensures RunCleanup(After(script, ops)).log.ran == CallsDue(Reverse(Registered(ops)), script, 0)
  {
    var s := After(script, ops);
    HooksAfter(script, ops);
    OldestReversed(s.hooks, Registered(ops));
    HooksAreInjective(s);
    ListedIsListing(s.hooks);
    ListingIsUnique(s.hooks, Listed(s.hooks), Reverse(Registered(ops)));
    RunCleanupCalls(s);
    hide Valid, OldestFirst, Listing, Rounds;
    NothingToWaitFor(Fresh(s));
  }

  lemma NothingToWaitFor(s: State)
    requires s.waiting <= 0
    ensures Drain(s) == s
  {
  }

  lemma {:induction false} NoEntriesNoRemovals(list: seq<Key>, n: nat)
    ensures Keys(CallsDue(list, [], n)) == list
    decreases |list|
  {
    if list != [] {
      NoEntriesNoRemovals(list[1..], n + 1);
      var rest := CallsDue(list[1..], [], n + 1);
      assert Keys([Call(list[0], 0)] + rest) == [list[0]] + Keys(rest);
      assert list == [list[0]] + list[1..];
    }
  }

  /** Theorem. If the hooks do nothing, exactly the hooks added and not removed since are called, last first. */
  lemma QuietLife(ops: seq<Op>)
    ensures Keys(RunCleanup(After([], ops)).log.ran) == Reverse(Registered(ops))
  {
    hide RunCleanup, CallsDue, Registered;
    WholeLife([], ops);
    NoEntriesNoRemovals(Reverse(Registered(ops)), 0);
  }

  // ----- During teardown: no hook is forgotten, even when hooks add hooks -----

  /** One of the first `n` entries of the script adds the plain hook `key`. */
  ghost predicate AddedBefore(script: seq<seq<Op>>, key: Key, n: nat) {
    key.Plain? && exists j :: 0 <= j < n && j < |script| && AddHook(key.fn, key.arg) in script[j]
  }

  /** Every hook there was or that has been added is there, has been called, or was removed. */
  ghost predicate NothingForgotten(s0: State, s: State) {
    && s.log.turns <= |s0.script| && s.script == s0.script[s.log.turns..]
    && forall k :: k in s0.hooks || AddedBefore(s0.script, k, s.log.turns) ==>
         k in s.hooks || Called(s.log.ran, k) || RemovedBefore(s0.script, k, s.log.turns)
  }

  lemma ApplyForgetsNothing(s: State, op: Op, k: Key)
    requires k in s.hooks || (k.Plain? && op == AddHook(k.fn, k.arg))
    ensures k in Apply(s, op).hooks || op == RemovalOf(k)
  {
  }

  lemma {:induction false} ApplyAllForgetsNothing(s: State, ops: seq<Op>, k: Key)
    requires k in s.hooks || (k.Plain? && AddHook(k.fn, k.arg) in ops)
    ensures k in ApplyAll(s, ops).hooks || RemovalOf(k) in ops
    decreases |ops|
  {
    hide Apply;
    if ops != [] {
      assert ops == [ops[0]] + ops[1..];
      if k in s.hooks || (k.Plain? && ops[0] == AddHook(k.fn, k.arg)) {
        ApplyForgetsNothing(s, ops[0], k);
      }
      if RemovalOf(k) !in ops {
        ApplyAllForgetsNothing(Apply(s, ops[0]), ops[1..], k);
      }
    }
  }

  lemma AddedOneMore(script: seq<seq<Op>>, key: Key, n: nat)
    requires n < |script| && key.Plain?
    ensures AddedBefore(script, key, n + 1) <==>
              AddedBefore(script, key, n) || AddHook(key.fn, key.arg) in script[n]
  {
  }

  lemma TurnForgetsNothing(s0: State, s: State)
    requires NothingForgotten(s0, s)
    ensures NothingForgotten(s0, Turn(s))
  {
    hide ApplyAll, RemovedBefore, AddedBefore, Called;
    if s.script != [] {
      var n := s.log.turns;
      assert s.script[0] == s0.script[n] && s.script[1..] == s0.script[n + 1..];
      forall k | k in s0.hooks || AddedBefore(s0.script, k, n + 1)
        ensures k in Turn(s).hooks || Called(s.log.ran, k) || RemovedBefore(s0.script, k, n + 1)
      {
        TurnKeepsHook(s0, s, k);
      }
    }
  }

  lemma TurnKeepsHook(s0: State, s: State, k: Key)
    requires NothingForgotten(s0, s) && s.script != [] && s.script[0] == s0.script[s.log.turns]
    requires k in s0.hooks || AddedBefore(s0.script, k, s.log.turns + 1)
    ensures k in Turn(s).hooks || Called(s.log.ran, k) || RemovedBefore(s0.script, k, s.log.turns + 1)
  {
    var n := s.log.turns;
    RemovedOneMore(s0.script, k, n);
    if k.Plain? {
      AddedOneMore(s0.script, k, n);
    }
    if k in s.hooks || (k.Plain? && AddHook(k.fn, k.arg) in s.script[0]) {
      ApplyAllForgetsNothing(s.(script := s.script[1..], log := s.log.(turns := n + 1)), s.script[0], k);
    }
    hide ApplyAll, Called;
  }

  lemma CallForgetsNothing(s0: State, s: State, key: Key)
    requires NothingForgotten(s0, s)
    ensures NothingForgotten(s0, CallHook(s, key))
  {
    hide Turn, RemovedBefore, AddedBefore, Called, BeginCall;
    BeginUnfolds(s, key);
    var call, b := Call(key, s.log.turns), BeginCall(s, key);
    forall k
      ensures Called(s.log.ran + [call], k) <==> Called(s.log.ran, k) || key == k
    {
      CalledAppend(s.log.ran, call, k);
    }
    TurnForgetsNothing(s0, b);
  }

  lemma {:induction false} DrainForgetsNothing(s0: State, s: State)
    requires NothingForgotten(s0, s)
    ensures NothingForgotten(s0, Drain(s))
    decreases |s.script|
  {
    hide NothingForgotten, Turn;
    if s.waiting > 0 && s.script != [] {
      TurnForgetsNothing(s0, s);
      DrainForgetsNothing(s0, Turn(s));
    }
  }

  lemma {:induction false} BatchForgetsNothing(s0: State, s: State, callbacks: seq<Key>)
    requires NothingForgotten(s0, s)
    ensures NothingForgotten(s0, RunBatch(s, callbacks))
    decreases |callbacks|
  {
    hide NothingForgotten, CallHook;
    if callbacks != [] {
      if callbacks[0] in s.hooks {
        CallForgetsNothing(s0, s, callbacks[0]);
        BatchForgetsNothing(s0, CallHook(s, callbacks[0]), callbacks[1..]);
      } else {
        BatchForgetsNothing(s0, s, callbacks[1..]);
      }
    }
  }

  lemma {:induction false} RoundsForgetNothing(s0: State, s: State)
    requires NothingForgotten(s0, s)
    ensures NothingForgotten(s0, Rounds(s))
    decreases Size(s)
  {
    hide NothingForgotten, RunBatch, Size;
    DrainForgetsNothing(s0, s);
    var d := Drain(s);
    if !(d.waiting > 0 || d.hooks == map[]) {
      DrainGrows(s);
      BatchShrinks(d, Listed(d.hooks));
      BatchForgetsNothing(s0, d, Listed(d.hooks));
      RoundsForgetNothing(s0, RunBatch(d, Listed(d.hooks)));
    }
  }

  lemma FreshForgetsNothing(s: State)
    ensures NothingForgotten(Fresh(s), Fresh(s))
  {
    assert s.script[0..] == s.script;
  }

  /**
    Theorem. For every script, a teardown that comes to its end has called every hook there was and every plain
    hook that was added meanwhile, but for those that an entry used up removes.
   */
  lemma NobodyIsForgotten(s: State, k: Key)
    requires RunCleanup(s).waiting <= 0
    requires k in s.hooks || AddedBefore(s.script, k, RunCleanup(s).log.turns)
    ensures Called(RunCleanup(s).log.ran, k) || RemovedBefore(s.script, k, RunCleanup(s).log.turns)
  {
    FreshForgetsNothing(s);
    RoundsForgetNothing(Fresh(s), Fresh(s));
    RoundsEnd(Fresh(s));
    hide Rounds, Called, RemovedBefore, AddedBefore;
  }

  // ----- During teardown: which asynchronous hooks finish -----

  /** The handle of `id` is deleted by one of the entries `from` up to `to`. */
  ghost predicate DeletedBetween(script: seq<seq<Op>>, id: InfoId, from: nat, to: nat) {
    exists j :: from <= j < to && j < |script| && DeleteHandle(id) in script[j]
  }

  lemma StartedHasHandle(s: State, id: InfoId, running: set<Key>)
    requires Valid(s, running) && id in s.log.started
    ensures id in s.infos && s.infos[id].started && (s.infos[id].handle <==> id !in s.log.finished)
  {
    assert InfoOk(s.infos[id], Async(id), s.hooks.Keys, id in s.log.started, id in s.log.finished, running);
  }

  /** A started hook is finished by the deletion of its handle, and by nothing else. */
  lemma ApplyFinishes(s: State, op: Op, id: InfoId, running: set<Key>)
    requires Valid(s, running) && id in s.log.started
    ensures id in Apply(s, op).log.finished <==> id in s.log.finished || op == DeleteHandle(id)
  {
    StartedHasHandle(s, id, running);
    hide InfosOk, CountersOk;
    match op
    case DeleteHandle(other) =>
      if InfoAt(s, other).handle {
        if InfoAt(s, other).started {
          FinishKeepsValid(s, other, running);
        } else {
          WithdrawKeepsValid(s, other, running);
        }
      } else if other == id {
        DeleteNothing(s, id);
      }
    case _ =>
  }

  lemma {:induction false} ApplyAllFinishes(s: State, ops: seq<Op>, id: InfoId, running: set<Key>)
    requires Valid(s, running) && id in s.log.started
    ensures id in ApplyAll(s, ops).log.finished <==> id in s.log.finished || DeleteHandle(id) in ops
    decreases |ops|
  {
    hide Apply, Valid;
    if ops != [] {
      assert ops == [ops[0]] + ops[1..];
      ApplyFinishes(s, ops[0], id, running);
      ApplyKeepsValid(s, ops[0], running);
      ApplyAllFinishes(Apply(s, ops[0]), ops[1..], id, running);
    }
  }

  lemma TurnFinishes(s: State, id: InfoId, running: set<Key>)
    requires Valid(s, running) && id in s.log.started && s.script != []
    ensures id in Turn(s).log.finished <==> id in s.log.finished || DeleteHandle(id) in s.script[0]
  {
    hide ApplyAll, InfosOk, CountersOk;
    ApplyAllFinishes(s.(script := s.script[1..], log := s.log.(turns := s.log.turns + 1)), s.script[0], id, running);
  }

  /**
    The asynchronous hooks started by `calls` have finished exactly if an entry used up since, that of their own
    call included, deletes their handle.
   */
  ghost predicate FinishedAsDeleted(script: seq<seq<Op>>, s: State) {
    && s.log.turns <= |script| && s.script == script[s.log.turns..]
    && forall c :: c in s.log.ran && c.key.Async? ==>
         && c.turn <= s.log.turns && c.key.info in s.log.started
         && (c.key.info in s.log.finished <==> DeletedBetween(script, c.key.info, c.turn, s.log.turns))
  }

  lemma DeletedOneMore(script: seq<seq<Op>>, id: InfoId, from: nat, to: nat)
    requires from <= to < |script|
    ensures DeletedBetween(script, id, from, to + 1) <==>
              DeletedBetween(script, id, from, to) || DeleteHandle(id) in script[to]
  {
  }

  lemma TurnKeepsFinished(script: seq<seq<Op>>, s: State, running: set<Key>)
    requires Valid(s, running) && FinishedAsDeleted(script, s)
    ensures FinishedAsDeleted(script, Turn(s))
  {
    if s.script != [] {
      var n := s.log.turns;
      assert s.script[0] == script[n] && s.script[1..] == script[n + 1..];
      hide Valid, DeletedBetween, Turn, ApplyAll;
      forall c | c in s.log.ran && c.key.Async?
        ensures c.key.info in Turn(s).log.finished <==> DeletedBetween(script, c.key.info, c.turn, n + 1)
      {
        TurnFinishes(s, c.key.info, running);
        DeletedOneMore(script, c.key.info, c.turn, n);
      }
      TurnCounts(s);
    } else {
      EmptyTurn(s);
    }
  }

  lemma TurnCounts(s: State)
    requires s.script != []
    ensures Turn(s).log.turns == s.log.turns + 1 && Turn(s).script == s.script[1..]
    ensures Turn(s).log.ran == s.log.ran && Turn(s).log.started == s.log.started
  {
    hide ApplyAll;
  }

  lemma BeginKeepsFinished(script: seq<seq<Op>>, s: State, key: Key)
    requires Valid(s, {}) && FinishedAsDeleted(script, s) && key in s.hooks
    ensures FinishedAsDeleted(script, BeginCall(s, key))
  {
    BeginKeepsValid(s, key);
    var b, call := BeginCall(s, key), Call(key, s.log.turns);
    assert s.log.finished <= s.log.started && b.log.finished == s.log.finished;
    assert b.log.started == if key.Async? then s.log.started + {key.info} else s.log.started;
    assert b.log.ran == s.log.ran + [call] && b.log.turns == s.log.turns && b.script == s.script;
    hide Valid, BeginCall;
  }

  lemma CallKeepsFinished(script: seq<seq<Op>>, s: State, key: Key)
    requires Valid(s, {}) && FinishedAsDeleted(script, s) && key in s.hooks
    ensures FinishedAsDeleted(script, CallHook(s, key))
  {
    hide Valid, BeginCall, Turn, DeletedBetween;
    BeginKeepsValid(s, key);
    BeginKeepsFinished(script, s, key);
    TurnKeepsFinished(script, BeginCall(s, key), {key});
  }

  lemma {:induction false} DrainKeepsFinished(script: seq<seq<Op>>, s: State)
    requires Valid(s, {}) && FinishedAsDeleted(script, s)
    ensures FinishedAsDeleted(script, Drain(s))
    decreases |s.script|
  {
    hide Valid, FinishedAsDeleted, Turn;
    if s.waiting > 0 && s.script != [] {
      TurnKeepsFinished(script, s, {});
      TurnKeepsValid(s, {});
      DrainKeepsFinished(script, Turn(s));
    }
  }

  lemma {:induction false} BatchKeepsFinished(script: seq<seq<Op>>, s: State, callbacks: seq<Key>)
    requires Valid(s, {}) && FinishedAsDeleted(script, s)
    ensures FinishedAsDeleted(script, RunBatch(s, callbacks))
    decreases |callbacks|
  {
    hide Valid, FinishedAsDeleted, CallHook;
    if callbacks != [] {
      if callbacks[0] in s.hooks {
        CallKeepsFinished(script, s, callbacks[0]);
        CallKeepsValid(s, callbacks[0]);
        BatchKeepsFinished(script, CallHook(s, callbacks[0]), callbacks[1..]);
      } else {
        BatchKeepsFinished(script, s, callbacks[1..]);
      }
    }
  }

  lemma {:induction false} RoundsKeepFinished(script: seq<seq<Op>>, s: State)
    requires Valid(s, {}) && FinishedAsDeleted(script, s)
    ensures FinishedAsDeleted(script, Rounds(s))
    decreases Size(s)
  {
    hide Valid, FinishedAsDeleted, RunBatch, Size;
    DrainKeepsFinished(script, s);
    DrainKeepsValid(s);
    var d := Drain(s);
    if !(d.waiting > 0 || d.hooks == map[]) {
      DrainGrows(s);
      BatchShrinks(d, Listed(d.hooks));
      BatchKeepsFinished(script, d, Listed(d.hooks));
      BatchKeepsValid(d, Listed(d.hooks));
      RoundsKeepFinished(script, RunBatch(d, Listed(d.hooks)));
    }
  }

  /**
    Theorem. For every script, an asynchronous hook that a teardown calls has finished at its end if and only if
    a script entry used up from its call on deletes its handle.
   */
  lemma FinishedExactly(s: State, c: Call)
    requires Valid(s, {}) && c in RunCleanup(s).log.ran && c.key.Async?
    ensures c.key.info in RunCleanup(s).log.finished <==>
              DeletedBetween(s.script, c.key.info, c.turn, RunCleanup(s).log.turns)
  {
    FreshKeepsValid(s);
    assert s.script[0..] == s.script;
    hide Valid, Rounds, DeletedBetween;
    RoundsKeepFinished(s.script, Fresh(s));
  }

  // ----- During teardown: how long the loop turns -----

  function Turns(s: State, n: nat): State
    decreases n
  {
    if n == 0 then s else Turns(Turn(s), n - 1)
  }

  /** Theorem. The loop turns exactly until no request waits or no event is left. */
  lemma {:induction false} DrainExactly(s: State) returns (n: nat)
    ensures Drain(s) == Turns(s, n)
    ensures Turns(s, n).waiting <= 0 || Turns(s, n).script == []
    ensures forall m: nat :: m < n ==> Turns(s, m).waiting > 0 && Turns(s, m).script != []
    decreases |s.script|
  {
    hide Turn;
    if s.waiting > 0 && s.script != [] {
      var k := DrainExactly(Turn(s));
      n := k + 1;
      forall m: nat | m < n
        ensures Turns(s, m).waiting > 0 && Turns(s, m).script != []
      {
        if m > 0 {
          assert Turns(s, m) == Turns(Turn(s), m - 1);
        }
      }
    } else {
      n := 0;
    }
  }
}
