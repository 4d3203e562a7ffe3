/** The order of cleanup calls: sorting, and what a teardown without additions keeps at every step. */
module CleanupOrder {
  import opened CleanupProtocol
  import opened CleanupProofs

  function Keys(calls: seq<Call>): (keys: seq<Key>)
    ensures |keys| == |calls| && forall i :: 0 <= i < |calls| ==> keys[i] == calls[i].key
  {
    seq(|calls|, i requires 0 <= i < |calls| => calls[i].key)
  }

  /** The API call that takes `key` out of the set. */
  function RemovalOf(key: Key): Op {
    match key
    case Plain(fn, arg) => RemoveHook(fn, arg)
    case Async(id) => DeleteHandle(id)
  }

  /** One of the first `n` entries of the script removes `key`. */
  ghost predicate RemovedBefore(script: seq<seq<Op>>, key: Key, n: nat) {
    exists j :: 0 <= j < n && j < |script| && RemovalOf(key) in script[j]
  }

  // ----- The sorted copy -----

  lemma InjectiveWithout(hooks: map<Key, nat>, key: Key)
    requires Injective(hooks)
    ensures Injective(hooks - {key})
  {
  }

  lemma {:induction false} ListedIsListing(hooks: map<Key, nat>)
    requires Injective(hooks)
    ensures Listing(hooks, Listed(hooks))
    decreases |hooks|
  {
    if hooks != map[] {
      var k, rest := Listed(hooks)[0], hooks - {Listed(hooks)[0]};
      NewestExists(hooks);
      FewerKeys(hooks, k);
      InjectiveWithout(hooks, k);
      ListedIsListing(rest);
      assert forall l :: l in hooks <==> l in rest || l == k;
      NewestPrepend(hooks, k, Listed(rest));
    }
  }

  lemma NewestPrepend(hooks: map<Key, nat>, k: Key, list: seq<Key>)
    requires Injective(hooks) && IsNewest(hooks, k) && Newest(hooks - {k}, list)
    ensures Newest(hooks, [k] + list)
  {
    forall i | 0 <= i < |list|
      ensures list[i] in hooks && hooks[list[i]] < hooks[k]
    {
      assert list[i] in list && list[i] in hooks - {k};
    }
  }

  lemma HooksAreInjective(s: State)
    requires Valid(s, {})
    ensures Injective(s.hooks)
  {
  }

  /** There is only one way to sort. */
  lemma {:induction false} ListingIsUnique(hooks: map<Key, nat>, a: seq<Key>, b: seq<Key>)
    requires Listing(hooks, a) && Listing(hooks, b)
    ensures a == b
    decreases |hooks|
  {
    hide Newest;
    if a == [] || b == [] {
      BothEmpty(hooks, a, b);
    } else {
      assert a[0] in a && b[0] in b;
      HeadIsNewest(hooks, a, b[0]);
      HeadIsNewest(hooks, b, a[0]);
      FewerKeys(hooks, a[0]);
      ListingTail(hooks, a);
      ListingTail(hooks, b);
      ListingIsUnique(hooks - {a[0]}, a[1..], b[1..]);
      assert a == [a[0]] + a[1..] && b == [b[0]] + b[1..];
    }
  }

  lemma BothEmpty(hooks: map<Key, nat>, a: seq<Key>, b: seq<Key>)
    requires Listing(hooks, a) && Listing(hooks, b)
    ensures a == [] <==> b == []
  {
    assert a != [] ==> a[0] in b;
    assert b != [] ==> b[0] in a;
  }

  lemma HeadIsNewest(hooks: map<Key, nat>, list: seq<Key>, k: Key)
    requires Newest(hooks, list) && k in list
    ensures hooks[list[0]] >= hooks[k] && (hooks[list[0]] == hooks[k] ==> list[0] == k)
  {
    var i :| 0 <= i < |list| && list[i] == k;
  }

  lemma ListingTail(hooks: map<Key, nat>, a: seq<Key>)
    requires Listing(hooks, a) && a != []
    ensures Listing(hooks - {a[0]}, a[1..])
  {
    var rest, tail := hooks - {a[0]}, a[1..];
    forall k
      ensures k in tail <==> k in rest
    {
      if k in tail {
        var i :| 0 <= i < |tail| && tail[i] == k;
        assert a[i + 1] == k && k in a;
      }
      if k in rest {
        assert k in a;
        var i :| 0 <= i < |a| && a[i] == k;
        assert tail[i - 1] == k;
      }
    }
    forall i, j | 0 <= i < j < |tail|
      ensures rest[tail[i]] > rest[tail[j]]
    {
      assert a[i + 1] == tail[i] && a[j + 1] == tail[j] && tail[i] in tail && tail[j] in tail;
    }
  }

  lemma HeadInOrder(order: map<Key, nat>, list: seq<Key>)
    requires list != [] && Newest(order, list)
    ensures list[0] in order && Newest(order, list[1..])
  {
    assert list[0] in list && forall k :: k in list[1..] ==> k in list;
  }

  lemma HeadIsNewer(order: map<Key, nat>, list: seq<Key>, k: Key)
    requires list != [] && Newest(order, list) && k in list[1..]
    ensures list[0] in order && k in order && order[list[0]] > order[k]
  {
    var j :| 0 <= j < |list| - 1 && list[1..][j] == k;
    assert list[j + 1] == k;
  }

  lemma NewestFirst(order: map<Key, nat>, key: Key, list: seq<Key>)
    requires key in order && Newest(order, list) && forall k :: k in list ==> k in order && order[key] > order[k]
    ensures Newest(order, [key] + list)
  {
    assert forall i :: 0 <= i < |list| ==> list[i] in list;
  }

  // ----- What calls without additions remove -----

  /** `after` is `before` without exactly the hooks that `ops` removes, hooks being called right now aside. */
  ghost predicate OnlyRemoved(before: map<Key, nat>, after: map<Key, nat>, ops: seq<Op>, running: set<Key>) {
    && (forall k :: k in after ==> k in before && after[k] == before[k])
    && (forall k :: k in before && k !in running ==> (k in after <==> RemovalOf(k) !in ops))
  }

  /** An asynchronous hook that is registered and not running has not started, so its handle can withdraw it. */
  lemma RegisteredHasHandle(s: State, id: InfoId, running: set<Key>)
    requires Valid(s, running) && Async(id) in s.hooks && Async(id) !in running
    ensures id in s.infos && s.infos[id].handle && !s.infos[id].started
  {
    assert InfoOk(s.infos[id], Async(id), s.hooks.Keys, id in s.log.started, id in s.log.finished, running);
  }

  lemma DeleteRemoves(s: State, id: InfoId, running: set<Key>)
    requires Valid(s, running)
    ensures OnlyRemoved(s.hooks, DeleteHookHandle(s, id).hooks, [DeleteHandle(id)], running)
  {
    hide Valid;
    if Async(id) in s.hooks && Async(id) !in running {
      RegisteredHasHandle(s, id, running);
    }
  }

  lemma ApplyRemoves(s: State, op: Op, running: set<Key>)
    requires Valid(s, running) && Adds([op]) == 0
    ensures OnlyRemoved(s.hooks, Apply(s, op).hooks, [op], running)
  {
    hide Valid;
    match op
    case RemoveHook(_, _) =>
    case DeleteHandle(id) => DeleteRemoves(s, id, running);
    case _ =>
  }

  lemma OnlyRemovedTogether(a: map<Key, nat>, b: map<Key, nat>, c: map<Key, nat>, op: Op, ops: seq<Op>,
                            running: set<Key>)
    requires OnlyRemoved(a, b, [op], running) && OnlyRemoved(b, c, ops, running)
    ensures OnlyRemoved(a, c, [op] + ops, running)
  {
  }

  lemma {:induction false} ApplyAllRemoves(s: State, ops: seq<Op>, running: set<Key>)
    requires Valid(s, running) && Adds(ops) == 0
    ensures OnlyRemoved(s.hooks, ApplyAll(s, ops).hooks, ops, running)
    decreases |ops|
  {
    hide Valid, Apply, OnlyRemoved;
    if ops == [] {
      NothingRemoved(s.hooks, running);
    } else {
      ApplyKeepsValid(s, ops[0], running);
      ApplyRemoves(s, ops[0], running);
      ApplyAllRemoves(Apply(s, ops[0]), ops[1..], running);
      OnlyRemovedTogether(s.hooks, Apply(s, ops[0]).hooks, ApplyAll(s, ops).hooks, ops[0], ops[1..], running);
      assert ops == [ops[0]] + ops[1..];
    }
  }

  lemma NothingRemoved(hooks: map<Key, nat>, running: set<Key>)
    ensures OnlyRemoved(hooks, hooks, [], running)
  {
  }

  // ----- Teardown without additions -----

  ghost predicate Called(calls: seq<Call>, key: Key) {
    exists i :: 0 <= i < |calls| && calls[i].key == key
  }

  /** `s` has used up the script of `s0` as far as its turns say, and nothing in it adds a hook. */
  predicate Follows(s0: State, s: State) {
    s.log.turns <= |s0.script| && s.script == s0.script[s.log.turns..] && TotalAdds(s.script) == 0
  }

  /** What is still there was there at the start, and neither called nor removed. */
  ghost predicate StillThere(s0: State, s: State, running: set<Key>) {
    forall k :: k in s.hooks ==>
      && k in s0.hooks && s.hooks[k] == s0.hooks[k]
      && (k !in running ==> !Called(s.log.ran, k) && !RemovedBefore(s0.script, k, s.log.turns))
  }

  /** What was there at the start is still there, has been called, or was removed. */
  ghost predicate NothingLost(s0: State, s: State) {
    forall k :: k in s0.hooks ==>
      k in s.hooks || Called(s.log.ran, k) || RemovedBefore(s0.script, k, s.log.turns)
  }

  /** Calls are in order, none of a hook removed before its turn, and none older than what is still to come. */
  ghost predicate CallsOk(s0: State, s: State, running: set<Key>) {
    && Newest(s0.hooks, Keys(s.log.ran))
    && (forall c :: c in s.log.ran ==> c.key in s0.hooks && !RemovedBefore(s0.script, c.key, c.turn))
    && (forall c, k :: c in s.log.ran && k in s.hooks && k !in running ==>
          k in s0.hooks && s0.hooks[c.key] > s0.hooks[k])
  }

  /** Since `s0` hooks have only been called and removed. */
  ghost predicate Shrinking(s0: State, s: State, running: set<Key>) {
    Follows(s0, s) && StillThere(s0, s, running) && NothingLost(s0, s) && CallsOk(s0, s, running)
  }

  lemma TurnFollows(s0: State, s: State)
    requires Follows(s0, s) && s.script != []
    ensures Follows(s0, Turn(s)) && Turn(s).log.turns == s.log.turns + 1 && Adds(s.script[0]) == 0
    ensures s.script[0] == s0.script[s.log.turns]
  {
    hide ApplyAll;
    assert s0.script[s.log.turns..][1..] == s0.script[s.log.turns + 1..];
  }

  lemma TurnRemoves(s0: State, s: State, running: set<Key>)
    requires Valid(s, running) && Follows(s0, s) && s.script != []
    ensures OnlyRemoved(s.hooks, Turn(s).hooks, s0.script[s.log.turns], running)
  {
    hide ApplyAll, OnlyRemoved, InfosOk, CountersOk;
    TurnFollows(s0, s);
    ApplyAllRemoves(s.(script := s.script[1..], log := s.log.(turns := s.log.turns + 1)), s.script[0], running);
  }

  lemma RemovedOneMore(script: seq<seq<Op>>, key: Key, n: nat)
    requires n < |script|
    ensures RemovedBefore(script, key, n + 1) <==> RemovedBefore(script, key, n) || RemovalOf(key) in script[n]
  {
  }

  lemma TurnKeepsStillThere(s0: State, s: State, running: set<Key>)
    requires Valid(s, running) && Shrinking(s0, s, running) && s.script != []
    requires forall k :: k in running ==> Called(s.log.ran, k)
    ensures StillThere(s0, Turn(s), running) && NothingLost(s0, Turn(s))
  {
    hide Turn, Valid, CallsOk, RemovedBefore;
    TurnFollows(s0, s);
    TurnRemoves(s0, s, running);
    forall k
      ensures RemovedBefore(s0.script, k, s.log.turns + 1)
              <==> RemovedBefore(s0.script, k, s.log.turns) || RemovalOf(k) in s0.script[s.log.turns]
    {
      RemovedOneMore(s0.script, k, s.log.turns);
    }
  }

  lemma TurnKeepsShrinking(s0: State, s: State, running: set<Key>)
    requires Valid(s, running) && Shrinking(s0, s, running)
    requires forall k :: k in running ==> Called(s.log.ran, k)
    ensures Shrinking(s0, Turn(s), running)
    ensures Turn(s).hooks.Keys <= s.hooks.Keys
  {
    hide Turn, Valid, StillThere, NothingLost, RemovedBefore;
    if s.script != [] {
      TurnFollows(s0, s);
      TurnRemoves(s0, s, running);
      TurnKeepsStillThere(s0, s, running);
    } else {
      EmptyTurn(s);
    }
  }

  lemma EmptyTurn(s: State)
    requires s.script == []
    ensures Turn(s) == s
  {
  }

  lemma CalledAppend(calls: seq<Call>, call: Call, key: Key)
    ensures Called(calls + [call], key) <==> Called(calls, key) || call.key == key
    ensures Keys(calls + [call]) == Keys(calls) + [call.key]
  {
    var all := calls + [call];
    if Called(calls, key) {
      var i :| 0 <= i < |calls| && calls[i].key == key;
      assert all[i].key == key;
    }
    if call.key == key {
      assert all[|calls|].key == key;
    }
  }

  lemma NewestAppend(order: map<Key, nat>, calls: seq<Call>, call: Call)
    requires Newest(order, Keys(calls)) && call.key in order
    requires forall c :: c in calls ==> c.key in order && order[c.key] > order[call.key]
    ensures Newest(order, Keys(calls + [call]))
  {
    CalledAppend(calls, call, call.key);
    var keys := Keys(calls) + [call.key];
    forall i | 0 <= i < |calls|
      ensures order[keys[i]] > order[call.key]
    {
      assert calls[i] in calls;
    }
  }

  lemma BeginUnfolds(s: State, key: Key)
    ensures var b := BeginCall(s, key);
            && b.hooks == s.hooks && b.script == s.script && b.log.turns == s.log.turns
            && b.log.ran == s.log.ran + [Call(key, s.log.turns)]
  {
  }

  /** The newest hook that is still there is called next. */
  lemma BeginKeepsShrinking(s0: State, s: State, key: Key)
    requires Shrinking(s0, s, {}) && IsNewest(s.hooks, key) && Injective(s.hooks)
    ensures Shrinking(s0, BeginCall(s, key), {key}) && Called(BeginCall(s, key).log.ran, key)
  {
    hide Newest, RemovedBefore, Called, BeginCall;
    var call := Call(key, s.log.turns);
    BeginUnfolds(s, key);
    forall k
      ensures Called(s.log.ran + [call], k) <==> Called(s.log.ran, k) || key == k
    {
      CalledAppend(s.log.ran, call, k);
    }
    NewestAppend(s0.hooks, s.log.ran, call);
  }

  lemma EndKeepsShrinking(s0: State, s: State, key: Key)
    requires Shrinking(s0, s, {key}) && Called(s.log.ran, key)
    ensures Shrinking(s0, RemoveCleanupHook(s, key), {})
  {
    hide Newest, RemovedBefore, Called;
  }

  lemma CallKeepsShrinking(s0: State, s: State, key: Key)
    requires Valid(s, {}) && Shrinking(s0, s, {}) && IsNewest(s.hooks, key)
    ensures Shrinking(s0, CallHook(s, key), {}) && CallHook(s, key).hooks.Keys <= s.hooks.Keys - {key}
  {
    hide Shrinking, InfosOk, Turn, Called;
    BeginKeepsShrinking(s0, s, key);
    BeginKeepsValid(s, key);
    BeginUnfolds(s, key);
    TurnKeepsShrinking(s0, BeginCall(s, key), {key});
    EndKeepsShrinking(s0, Turn(BeginCall(s, key)), key);
  }

  lemma {:induction false} DrainKeepsShrinking(s0: State, s: State)
    requires Valid(s, {}) && Shrinking(s0, s, {})
    ensures Shrinking(s0, Drain(s), {}) && Drain(s).hooks.Keys <= s.hooks.Keys
    decreases |s.script|
  {
    hide Shrinking, Valid, Turn;
    if s.waiting > 0 && s.script != [] {
      TurnKeepsShrinking(s0, s, {});
      TurnKeepsValid(s, {});
      DrainKeepsShrinking(s0, Turn(s));
    }
  }

  /** `callbacks` is what is left of the sorted copy: it still has every hook there is. */
  ghost predicate BatchOk(s0: State, s: State, callbacks: seq<Key>) {
    && Shrinking(s0, s, {})
    && Newest(s0.hooks, callbacks)
    && forall k :: k in s.hooks ==> k in callbacks
  }

  lemma NextIsNewest(s0: State, s: State, callbacks: seq<Key>)
    requires BatchOk(s0, s, callbacks) && callbacks != [] && callbacks[0] in s.hooks
    ensures IsNewest(s.hooks, callbacks[0])
  {
    hide NothingLost, CallsOk, Follows;
    forall k | k in s.hooks
      ensures s.hooks[k] <= s.hooks[callbacks[0]]
    {
      HeadIsNewest(s0.hooks, callbacks, k);
    }
  }

  lemma BatchAdvances(s0: State, s: State, callbacks: seq<Key>, hooks: map<Key, nat>)
    requires callbacks != [] && Newest(s0.hooks, callbacks) && Shrinking(s0, s, {})
    requires forall k :: k in hooks ==> k in callbacks
    requires s.hooks.Keys <= hooks.Keys - {callbacks[0]}
    ensures BatchOk(s0, s, callbacks[1..])
  {
    hide Shrinking;
    assert callbacks == [callbacks[0]] + callbacks[1..];
  }

  lemma {:induction false} BatchKeepsShrinking(s0: State, s: State, callbacks: seq<Key>)
    requires Valid(s, {}) && BatchOk(s0, s, callbacks)
    ensures Shrinking(s0, RunBatch(s, callbacks), {})
    decreases |callbacks|
  {
    hide Shrinking, Valid, Newest, CallHook;
    if callbacks != [] {
      if callbacks[0] in s.hooks {
        NextIsNewest(s0, s, callbacks);
        CallKeepsShrinking(s0, s, callbacks[0]);
        CallKeepsValid(s, callbacks[0]);
        BatchAdvances(s0, CallHook(s, callbacks[0]), callbacks, s.hooks);
        BatchKeepsShrinking(s0, CallHook(s, callbacks[0]), callbacks[1..]);
      } else {
        BatchAdvances(s0, s, callbacks, s.hooks);
        BatchKeepsShrinking(s0, s, callbacks[1..]);
      }
    }
  }

  lemma BatchStarts(s0: State, s: State)
    requires Valid(s, {}) && Shrinking(s0, s, {})
    ensures BatchOk(s0, s, Listed(s.hooks))
  {
    hide InfosOk, NothingLost, CallsOk, Follows;
    ListedIsListing(s.hooks);
    SameOrder(s0.hooks, s.hooks, Listed(s.hooks));
  }

  lemma SameOrder(order: map<Key, nat>, hooks: map<Key, nat>, list: seq<Key>)
    requires Newest(hooks, list) && forall k :: k in hooks ==> k in order && order[k] == hooks[k]
    ensures Newest(order, list)
  {
    assert forall i :: 0 <= i < |list| ==> list[i] in list;
  }

  lemma {:induction false} RoundsKeepShrinking(s0: State, s: State)
    requires Valid(s, {}) && Shrinking(s0, s, {})
    ensures Shrinking(s0, Rounds(s), {})
    decreases Size(s)
  {
    hide RunBatch, Valid, Shrinking, Size;
    DrainKeepsShrinking(s0, s);
    DrainKeepsValid(s);
    var d := Drain(s);
    if !(d.waiting > 0 || d.hooks == map[]) {
      DrainGrows(s);
      BatchShrinks(d, Listed(d.hooks));
      BatchStarts(s0, d);
      BatchKeepsShrinking(s0, d, Listed(d.hooks));
      BatchKeepsValid(d, Listed(d.hooks));
      RoundsKeepShrinking(s0, RunBatch(d, Listed(d.hooks)));
    }
  }

  lemma ShrinkingStarts(s: State)
    requires TotalAdds(s.script) == 0
    ensures Shrinking(Fresh(s), Fresh(s), {})
  {
    assert s.script[0..] == s.script;
  }

  lemma CallLogs(s: State, key: Key)
    ensures CallHook(s, key).log.ran == s.log.ran + [Call(key, s.log.turns)]
  {
  }
}
