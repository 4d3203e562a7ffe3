/** Which hooks a teardown calls, exactly: as a list, and as a condition on each hook. */
module CleanupCalls {
  import opened CleanupProtocol
  import opened CleanupProofs
  import opened CleanupOrder
  import opened Sequences

  // ----- Which hooks are called -----

  /**
    The calls that are due when `n` entries have been used up and `list` is still to come: each hook in turn,
    unless one of the entries used up by then removes it; every call uses up an entry, as long as there is one.
   */
  ghost function CallsDue(list: seq<Key>, script: seq<seq<Op>>, n: nat): seq<Call> {
    if list == [] then []
    else if RemovedBefore(script, list[0], n) then CallsDue(list[1..], script, n)
    else [Call(list[0], Min(n, |script|))] + CallsDue(list[1..], script, n + 1)
  }

  /** Of the hooks in `list`, those are still there that no entry used up so far removes. */
  ghost predicate Present(s0: State, s: State, list: seq<Key>) {
    forall k :: k in list ==> (k in s.hooks <==> !RemovedBefore(s0.script, k, s.log.turns))
  }

  /** Once the script is used up, later turns remove nothing more. */
  lemma NothingMoreRemoved(script: seq<seq<Op>>, key: Key, n: nat)
    ensures RemovedBefore(script, key, Min(n, |script|)) <==> RemovedBefore(script, key, n)
  {
  }

  lemma {:induction false} CallsDueSaturate(list: seq<Key>, script: seq<seq<Op>>, n: nat)
    requires n >= |script|
    ensures CallsDue(list, script, n) == CallsDue(list, script, |script|)
    decreases |list|
  {
    hide RemovedBefore;
    if list != [] {
      NothingMoreRemoved(script, list[0], n);
      CallsDueSaturate(list[1..], script, n);
      CallsDueSaturate(list[1..], script, n + 1);
      CallsDueSaturate(list[1..], script, |script| + 1);
    }
  }

  lemma CallUsesUpOne(s0: State, s: State, key: Key)
    requires Follows(s0, s)
    ensures CallHook(s, key).log.turns == Min(s.log.turns + 1, |s0.script|)
  {
    BeginUnfolds(s, key);
    hide BeginCall, Apply, ApplyAll;
    var b := BeginCall(s, key);
    assert b.script == [] <==> s.log.turns == |s0.script|;
    if b.script != [] {
      TurnFollows(s0, b);
    }
  }

  /** A call takes its own hook out of the set, and of the others exactly those that its entry removes. */
  lemma CallKeepsPresent(s0: State, s: State, key: Key, rest: seq<Key>)
    requires Valid(s, {}) && Follows(s0, s) && key in s.hooks && key !in rest && Present(s0, s, rest)
    ensures Follows(s0, CallHook(s, key)) && Present(s0, CallHook(s, key), rest)
    ensures CallHook(s, key).hooks.Keys <= s.hooks.Keys - {key}
  {
    hide RemovedBefore, InfosOk, CountersOk, BeginCall, Turn;
    BeginUnfolds(s, key);
    BeginKeepsValid(s, key);
    var b := BeginCall(s, key);
    if b.script == [] {
      EmptyTurn(b);
    } else {
      TurnFollows(s0, b);
      TurnRemoves(s0, b, {key});
      forall k | k in rest
        ensures k in Turn(b).hooks <==> !RemovedBefore(s0.script, k, s.log.turns + 1)
      {
        RemovedOneMore(s0.script, k, s.log.turns);
      }
    }
  }

  /** Theorem. A pass over `callbacks` makes exactly the calls that are due, and leaves none of them registered. */
  lemma {:induction false} BatchMakesCallsDue(s0: State, s: State, callbacks: seq<Key>)
    requires Valid(s, {}) && Follows(s0, s) && Newest(s0.hooks, callbacks) && Present(s0, s, callbacks)
    ensures RunBatch(s, callbacks).log.ran == s.log.ran + CallsDue(callbacks, s0.script, s.log.turns)
    ensures forall k :: k in RunBatch(s, callbacks).hooks ==> k in s.hooks && k !in callbacks
    decreases |callbacks|
  {
    hide RemovedBefore, Valid, Follows, Newest, CallHook, Present;
    if callbacks != [] {
      var key, rest := callbacks[0], callbacks[1..];
      assert callbacks == [key] + rest;
      HeadInOrder(s0.hooks, callbacks);
      HeadIsNotInTail(s0.hooks, callbacks);
      PresentSplit(s0, s, callbacks);
      if key in s.hooks {
        CallKeepsPresent(s0, s, key, rest);
        CallKeepsValid(s, key);
        BatchMakesCallsDue(s0, CallHook(s, key), rest);
        FirstCallDue(s0, s, callbacks);
      } else {
        BatchMakesCallsDue(s0, s, rest);
      }
    } else {
      assert s.log.ran + [] == s.log.ran;
    }
  }

  /** The call of the first hook is due, and what is due after it is what is due in the state it leaves. */
  lemma FirstCallDue(s0: State, s: State, callbacks: seq<Key>)
    requires Follows(s0, s) && callbacks != [] && !RemovedBefore(s0.script, callbacks[0], s.log.turns)
    ensures var next := CallHook(s, callbacks[0]);
            next.log.ran + CallsDue(callbacks[1..], s0.script, next.log.turns)
            == s.log.ran + CallsDue(callbacks, s0.script, s.log.turns)
  {
    hide RemovedBefore, CallHook;
    var key, rest := callbacks[0], callbacks[1..];
    FollowsBounds(s0, s);
    CallLogs(s, key);
    CallUsesUpOne(s0, s, key);
    CallsDueMin(rest, s0.script, s.log.turns + 1);
    var later := CallsDue(rest, s0.script, s.log.turns + 1);
    assert s.log.ran + [Call(key, s.log.turns)] + later == s.log.ran + ([Call(key, s.log.turns)] + later);
  }

  lemma FollowsBounds(s0: State, s: State)
    requires Follows(s0, s)
    ensures s.log.turns == Min(s.log.turns, |s0.script|)
  {
  }

  lemma HeadIsNotInTail(order: map<Key, nat>, list: seq<Key>)
    requires list != [] && Newest(order, list)
    ensures list[0] !in list[1..]
  {
  }

  lemma PresentSplit(s0: State, s: State, callbacks: seq<Key>)
    requires callbacks != [] && Present(s0, s, callbacks)
    ensures callbacks[0] in s.hooks <==> !RemovedBefore(s0.script, callbacks[0], s.log.turns)
    ensures Present(s0, s, callbacks[1..])
  {
    hide RemovedBefore;
    assert callbacks[0] in callbacks;
  }

  lemma CallsDueMin(list: seq<Key>, script: seq<seq<Op>>, n: nat)
    ensures CallsDue(list, script, Min(n, |script|)) == CallsDue(list, script, n)
  {
    if n >= |script| {
      CallsDueSaturate(list, script, n);
    }
  }

  // ----- From the hooks at the start to those after the first wait -----

  /** `list` without what is not in `hooks`. */
  function Only(list: seq<Key>, hooks: map<Key, nat>): (r: seq<Key>)
    ensures forall k :: k in r <==> k in list && k in hooks
  {
    if list == [] then []
    else
      var rest := Only(list[1..], hooks);
      assert list == [list[0]] + list[1..];
      if list[0] in hooks then [list[0]] + rest else rest
  }

  lemma {:induction false} OnlyKeepsOrder(order: map<Key, nat>, list: seq<Key>, hooks: map<Key, nat>)
    requires Newest(order, list)
    ensures Newest(order, Only(list, hooks))
    decreases |list|
  {
    hide Newest;
    if list != [] {
      HeadInOrder(order, list);
      OnlyKeepsOrder(order, list[1..], hooks);
      if list[0] in hooks {
        forall k | k in Only(list[1..], hooks)
          ensures k in order && order[list[0]] > order[k]
        {
          HeadIsNewer(order, list, k);
        }
        NewestFirst(order, list[0], Only(list[1..], hooks));
      }
    }
  }

  /** What is already removed is not due. */
  lemma {:induction false} CallsDueOnly(list: seq<Key>, hooks: map<Key, nat>, script: seq<seq<Op>>, n: nat, m: nat)
    requires forall k :: k in list && k !in hooks ==> RemovedBefore(script, k, n)
    requires n <= m
    ensures CallsDue(list, script, m) == CallsDue(Only(list, hooks), script, m)
    decreases |list|
  {
    hide RemovedBefore;
    if list != [] {
      var rest := list[1..];
      assert list == [list[0]] + rest;
      RemovedLater(script, list[0], n, m);
      CallsDueOnly(rest, hooks, script, n, m);
      CallsDueOnly(rest, hooks, script, n, m + 1);
    }
  }

  lemma ListedShrinks(s0: State, s: State)
    requires Injective(s0.hooks) && Injective(s.hooks) && StillThere(s0, s, {})
    ensures Listed(s.hooks) == Only(Listed(s0.hooks), s.hooks)
  {
    hide RemovedBefore, Called, Injective;
    ListedIsListing(s0.hooks);
    ListedIsListing(s.hooks);
    OnlyKeepsOrder(s0.hooks, Listed(s0.hooks), s.hooks);
    var only := Only(Listed(s0.hooks), s.hooks);
    OrderWithin(s0.hooks, s.hooks, only);
    ListingIsUnique(s.hooks, Listed(s.hooks), only);
  }

  lemma OrderWithin(order: map<Key, nat>, hooks: map<Key, nat>, list: seq<Key>)
    requires Newest(order, list) && (forall k :: k in list ==> k in hooks)
    requires forall k :: k in hooks ==> k in order && order[k] == hooks[k]
    ensures Newest(hooks, list)
  {
    assert forall i :: 0 <= i < |list| ==> list[i] in list;
  }

  // ----- The calls of a teardown -----

  /** The calls of a teardown without additions; none if the first wait never ends. */
  ghost function TeardownCalls(s: State): seq<Call> {
    var d := Drain(Fresh(s));
    if d.waiting > 0 then [] else CallsDue(Listed(s.hooks), s.script, d.log.turns)
  }

  lemma ShrunkIsPresent(s0: State, s: State)
    requires Shrinking(s0, s, {}) && s.log.ran == []
    ensures Present(s0, s, Listed(s.hooks))
    ensures forall k :: k in s0.hooks && k !in s.hooks ==> RemovedBefore(s0.script, k, s.log.turns)
  {
    hide RemovedBefore, CallsOk, Follows;
    assert forall k :: !Called(s.log.ran, k);
  }

  /** The state after the first pass: every call has been made and no hook is left. */
  lemma FirstPass(s0: State, d: State)
    requires Valid(s0, {}) && Valid(d, {}) && Shrinking(s0, d, {}) && d.log.ran == []
    ensures var b := RunBatch(d, Listed(d.hooks));
            b.hooks == map[] && b.log.ran == CallsDue(Listed(s0.hooks), s0.script, d.log.turns)
  {
    ShrunkIsPresent(s0, d);
    BatchStarts(s0, d);
    hide RemovedBefore, InfosOk, LedgerOk, NothingLost, CallsOk, RunBatch, Newest;
    BatchMakesCallsDue(s0, d, Listed(d.hooks));
    ListedIsListing(s0.hooks);
    ListedShrinks(s0, d);
    CallsDueOnly(Listed(s0.hooks), d.hooks, s0.script, d.log.turns, d.log.turns);
    assert [] + CallsDue(Listed(d.hooks), s0.script, d.log.turns) == CallsDue(Listed(d.hooks), s0.script, d.log.turns);
    var b := RunBatch(d, Listed(d.hooks));
    assert forall k :: k !in b.hooks;
  }

  /** With no hook left there is only the last wait. */
  lemma RoundsWithoutHooks(s0: State, b: State)
    requires Valid(b, {}) && Shrinking(s0, b, {}) && b.hooks == map[]
    ensures Rounds(b).log.ran == b.log.ran
  {
    hide Shrinking, Valid, Drain;
    DrainKeepsShrinking(s0, b);
    DrainKeepsRan(b);
    assert Drain(b).hooks.Keys == {};
    assert Drain(b).hooks == map[];
  }

  lemma NoHooksNoCalls(s0: State, d: State)
    requires Valid(s0, {}) && Valid(d, {}) && Shrinking(s0, d, {}) && d.log.ran == [] && d.hooks == map[]
    ensures CallsDue(Listed(s0.hooks), s0.script, d.log.turns) == []
  {
    hide Valid, Shrinking;
    FirstPass(s0, d);
  }

  lemma RoundsMakeCalls(s: State)
    requires Valid(s, {}) && TotalAdds(s.script) == 0
    ensures Rounds(Fresh(s)).log.ran == TeardownCalls(s)
  {
    var f := Fresh(s);
    ShrinkingStarts(s);
    FreshKeepsValid(s);
    hide Valid, Shrinking, Drain, RunBatch, CallsDue, Size;
    var d := Drain(f);
    DrainKeepsShrinking(f, f);
    DrainKeepsValid(f);
    DrainKeepsRan(f);
    if d.waiting <= 0 {
      if d.hooks == map[] {
        NoHooksNoCalls(f, d);
      } else {
        FirstPass(f, d);
        BatchStarts(f, d);
        BatchKeepsShrinking(f, d, Listed(d.hooks));
        BatchKeepsValid(d, Listed(d.hooks));
        RoundsWithoutHooks(f, RunBatch(d, Listed(d.hooks)));
      }
    }
  }

  lemma FreshKeepsValid(s: State)
    requires Valid(s, {})
    ensures Valid(Fresh(s), {})
  {
  }

  // ----- What the calls due say -----

  /** How many calls are of hooks newer than `key`. */
  ghost function Newer(order: map<Key, nat>, calls: seq<Call>, key: Key): nat
    requires key in order
  {
    if calls == [] then 0
    else (if calls[0].key in order && order[calls[0].key] > order[key] then 1 else 0) + Newer(order, calls[1..], key)
  }

  /**
    A hook of the list is called if and only if none of the entries used up before its turn removes it. These
    are the `n` used up at the start and one for every call of a newer hook.
   */
  lemma {:induction false} DueExactly(order: map<Key, nat>, list: seq<Key>, script: seq<seq<Op>>, n: nat, key: Key)
    requires Newest(order, list) && key in list
    ensures key in order
    ensures var calls := CallsDue(list, script, n);
            Called(calls, key) <==> !RemovedBefore(script, key, n + Newer(order, calls, key))
    decreases |list|
  {
    hide RemovedBefore, Newest, Called;
    var head, rest := list[0], list[1..];
    assert list == [head] + rest;
    HeadInOrder(order, list);
    DueInList(rest, script, n);
    DueInList(rest, script, n + 1);
    if key == head {
      HeadIsNotInTail(order, list);
      HeadDue(order, list, script, n);
    } else {
      HeadIsNewer(order, list, key);
      if RemovedBefore(script, head, n) {
        DueExactly(order, rest, script, n, key);
      } else {
        DueExactly(order, rest, script, n + 1, key);
        CalledFirst(Call(head, Min(n, |script|)), CallsDue(rest, script, n + 1), key);
      }
    }
  }

  lemma CalledFirst(call: Call, calls: seq<Call>, key: Key)
    ensures Called([call] + calls, key) <==> call.key == key || Called(calls, key)
    ensures ([call] + calls)[1..] == calls
  {
    var all := [call] + calls;
    if Called(calls, key) {
      var i :| 0 <= i < |calls| && calls[i].key == key;
      assert all[i + 1].key == key;
    }
    if call.key == key {
      assert all[0].key == key;
    }
  }

  lemma {:induction false} DueInList(list: seq<Key>, script: seq<seq<Op>>, n: nat)
    ensures forall c :: c in CallsDue(list, script, n) ==> c.key in list
    decreases |list|
  {
    hide RemovedBefore;
    if list != [] {
      assert list == [list[0]] + list[1..];
      DueInList(list[1..], script, n);
      DueInList(list[1..], script, n + 1);
    }
  }

  lemma {:induction false} NoneNewer(order: map<Key, nat>, calls: seq<Call>, key: Key)
    requires key in order && forall c :: c in calls ==> c.key in order && order[c.key] <= order[key]
    ensures Newer(order, calls, key) == 0
  {
    if calls != [] {
      assert calls[0] in calls;
      NoneNewer(order, calls[1..], key);
    }
  }

  lemma HeadDue(order: map<Key, nat>, list: seq<Key>, script: seq<seq<Op>>, n: nat)
    requires list != [] && Newest(order, list) && list[0] !in list[1..]
    ensures list[0] in order
    ensures var calls := CallsDue(list, script, n);
            && Newer(order, calls, list[0]) == 0
            && (Called(calls, list[0]) <==> !RemovedBefore(script, list[0], n))
  {
    hide RemovedBefore, Newest;
    var calls := CallsDue(list, script, n);
    HeadInOrder(order, list);
    DueInList(list, script, n);
    DueInList(list[1..], script, n);
    forall c | c in calls
      ensures c.key in order && order[c.key] <= order[list[0]]
    {
      HeadIsNewest(order, list, c.key);
    }
    NoneNewer(order, calls, list[0]);
    if RemovedBefore(script, list[0], n) {
      assert forall i :: 0 <= i < |calls| ==> calls[i] in calls;
    } else {
      CalledFirst(Call(list[0], Min(n, |script|)), CallsDue(list[1..], script, n + 1), list[0]);
    }
  }

  /** `key`, not called, was removed by an entry used up when each call of an older hook began, or by the last one. */
  ghost predicate SkippedInTurn(order: map<Key, nat>, script: seq<seq<Op>>, n: nat, calls: seq<Call>, key: Key)
    requires key in order
  {
    && (forall c :: c in calls && c.key in order && order[c.key] < order[key] ==> RemovedBefore(script, key, c.turn))
    && RemovedBefore(script, key, if calls == [] then n else calls[|calls| - 1].turn + 1)
  }

  lemma {:induction false} DueTurns(list: seq<Key>, script: seq<seq<Op>>, n: nat)
    ensures var calls := CallsDue(list, script, n);
            && (forall c :: c in calls ==> c.turn >= Min(n, |script|))
            && (calls != [] ==> calls[|calls| - 1].turn >= Min(n, |script|))
    decreases |list|
  {
    hide RemovedBefore;
    if list != [] {
      DueTurns(list[1..], script, n);
      DueTurns(list[1..], script, n + 1);
    }
  }

  lemma SkippedHead(order: map<Key, nat>, list: seq<Key>, script: seq<seq<Op>>, n: nat, key: Key)
    requires key in order && RemovedBefore(script, key, n)
    ensures SkippedInTurn(order, script, n, CallsDue(list, script, n), key)
  {
    hide RemovedBefore;
    var calls := CallsDue(list, script, n);
    DueTurns(list, script, n);
    NothingMoreRemoved(script, key, n);
    forall c | c in calls
      ensures RemovedBefore(script, key, c.turn)
    {
      RemovedLater(script, key, Min(n, |script|), c.turn);
    }
    if calls != [] {
      RemovedLater(script, key, Min(n, |script|), calls[|calls| - 1].turn + 1);
    }
  }

  /** Theorem. A hook that is not called was removed before its turn came. */
  lemma {:induction false} SkippedBeforeTurn(order: map<Key, nat>, list: seq<Key>, script: seq<seq<Op>>, n: nat,
                                             key: Key)
    requires Newest(order, list) && key in list && !Called(CallsDue(list, script, n), key)
    ensures key in order && SkippedInTurn(order, script, n, CallsDue(list, script, n), key)
    decreases |list|
  {
    hide RemovedBefore, Newest, Called;
    var head, rest := list[0], list[1..];
    assert list == [head] + rest;
    HeadInOrder(order, list);
    if key == head {
      HeadIsNotInTail(order, list);
      HeadDue(order, list, script, n);
      SkippedHead(order, list, script, n, key);
    } else {
      HeadIsNewer(order, list, key);
      if RemovedBefore(script, head, n) {
        SkippedBeforeTurn(order, rest, script, n, key);
      } else {
        CalledFirst(Call(head, Min(n, |script|)), CallsDue(rest, script, n + 1), key);
        SkippedBeforeTurn(order, rest, script, n + 1, key);
        SkippedBehind(order, script, n, Call(head, Min(n, |script|)), CallsDue(rest, script, n + 1), key);
      }
    }
  }

  lemma SkippedBehind(order: map<Key, nat>, script: seq<seq<Op>>, n: nat, call: Call, later: seq<Call>, key: Key)
    requires key in order && call.key in order && order[call.key] > order[key] && call.turn == Min(n, |script|)
    requires SkippedInTurn(order, script, n + 1, later, key)
    ensures SkippedInTurn(order, script, n, [call] + later, key)
  {
    hide RemovedBefore;
    NothingMoreRemoved(script, key, n + 1);
    NothingMoreRemoved(script, key, call.turn + 1);
  }

  /**
    Theorem. If nothing is added, the calls of a teardown are exactly these: the hooks there were at the start,
    newest first, but for those that a script entry used up before their turn removes.
   */
  lemma RunCleanupCalls(s: State)
    requires Valid(s, {}) && TotalAdds(s.script) == 0
    ensures RunCleanup(s).log.ran == TeardownCalls(s)
  {
    hide Valid, Rounds, TeardownCalls;
    RoundsMakeCalls(s);
  }

  /**
    `key` has been called if and only if no script entry used up before its turn removes it: `n` at the start,
    and one for every call of a newer hook. If it has not, it was removed before any older hook was called, and
    before the last call was over.
   */
  ghost predicate InTurn(order: map<Key, nat>, script: seq<seq<Op>>, n: nat, calls: seq<Call>, key: Key)
    requires key in order
  {
    && (Called(calls, key) <==> !RemovedBefore(script, key, n + Newer(order, calls, key)))
    && (!Called(calls, key) ==> SkippedInTurn(order, script, n, calls, key))
  }

  /** Every hook there was has had its turn, after the entries used up by the first wait. */
  ghost predicate AllInTurn(s: State, calls: seq<Call>) {
    forall k :: k in s.hooks ==> InTurn(s.hooks, s.script, Drain(Fresh(s)).log.turns, calls, k)
  }

  /** Hooks have been called newest first, each at most once and only hooks there were, none removed before its turn. */
  ghost predicate NewestFirstOnly(hooks: map<Key, nat>, script: seq<seq<Op>>, r: State) {
    && Newest(hooks, Keys(r.log.ran))
    && (forall c :: c in r.log.ran ==> !RemovedBefore(script, c.key, c.turn))
    && r.log.turns <= |script| && r.script == script[r.log.turns..]
    && (r.waiting == 0 ==>
          forall k :: k in hooks && !Called(r.log.ran, k) ==> RemovedBefore(script, k, r.log.turns))
  }

  /** That, and unless the first wait never ended every hook has had its turn. */
  ghost predicate CalledInOrder(s: State, r: State) {
    var first := Drain(Fresh(s));
    && NewestFirstOnly(s.hooks, s.script, r)
    && (r.waiting == 0 ==> first.waiting <= 0)
    && if first.waiting <= 0 then AllInTurn(s, r.log.ran) else r.log.ran == []
  }

  lemma RunCleanupInOrder(s: State)
    requires Valid(s, {}) && TotalAdds(s.script) == 0
    ensures NewestFirstOnly(s.hooks, s.script, RunCleanup(s))
  {
    FreshKeepsValid(s);
    ShrinkingStarts(s);
    hide Valid, Shrinking, Rounds, NewestFirstOnly;
    RoundsKeepShrinking(Fresh(s), Fresh(s));
    RoundsEnd(Fresh(s));
    ShrinkingTells(Fresh(s), Rounds(Fresh(s)));
  }

  lemma ShrinkingTells(s0: State, r: State)
    requires Shrinking(s0, r, {}) && (r.waiting > 0 || r.hooks == map[])
    ensures NewestFirstOnly(s0.hooks, s0.script, r)
  {
    hide Newest, RemovedBefore, Called;
  }

  lemma DueInTurn(order: map<Key, nat>, list: seq<Key>, script: seq<seq<Op>>, n: nat, key: Key)
    requires Listing(order, list) && key in order
    ensures InTurn(order, script, n, CallsDue(list, script, n), key)
  {
    hide Newest, RemovedBefore, Called, CallsDue, SkippedInTurn, Newer;
    DueExactly(order, list, script, n, key);
    if !Called(CallsDue(list, script, n), key) {
      SkippedBeforeTurn(order, list, script, n, key);
    }
  }

  lemma AllHooksInTurn(s: State)
    requires Valid(s, {}) && Drain(Fresh(s)).waiting <= 0
    ensures AllInTurn(s, TeardownCalls(s))
  {
    HooksAreInjective(s);
    hide Valid, Injective, Listing, InTurn, Drain, CallsDue, Listed, Fresh;
    ListedIsListing(s.hooks);
    forall k | k in s.hooks
      ensures InTurn(s.hooks, s.script, Drain(Fresh(s)).log.turns, TeardownCalls(s), k)
    {
      DueInTurn(s.hooks, Listed(s.hooks), s.script, Drain(Fresh(s)).log.turns, k);
    }
  }

  /** Theorem. If nothing is added, teardown calls hooks in order, each exactly if not removed before its turn. */
  lemma RunCleanupOrder(s: State)
    requires Valid(s, {}) && TotalAdds(s.script) == 0
    ensures CalledInOrder(s, RunCleanup(s))
  {
    RunCleanupInOrder(s);
    RunCleanupCalls(s);
    BlockedIsTheEnd(Fresh(s));
    hide Valid, NewestFirstOnly, AllInTurn, Rounds, Drain, CallsDue;
    if Drain(Fresh(s)).waiting <= 0 {
      AllHooksInTurn(s);
    }
  }

  lemma BlockedIsTheEnd(s: State)
    ensures Drain(s).waiting > 0 ==> Rounds(s) == Drain(s)
  {
  }

  lemma CallsAreListing(hooks: map<Key, nat>, calls: seq<Call>)
    requires Newest(hooks, Keys(calls)) && forall k :: k in hooks ==> Called(calls, k)
    ensures Listing(hooks, Keys(calls))
  {
    forall k | k in hooks
      ensures k in Keys(calls)
    {
      var i :| 0 <= i < |calls| && calls[i].key == k;
      assert Keys(calls)[i] == k;
    }
  }

  lemma RemovedLater(script: seq<seq<Op>>, key: Key, n: nat, m: nat)
    requires n <= m
    ensures RemovedBefore(script, key, n) ==> RemovedBefore(script, key, m)
  {
  }

  /** Theorem. If the script adds nothing and removes none of the hooks, exactly all of them are called. */
  lemma AllAreCalled(s: State)
    requires Valid(s, {}) && TotalAdds(s.script) == 0
    requires forall k :: k in s.hooks ==> !RemovedBefore(s.script, k, |s.script|)
    ensures RunCleanup(s).waiting == 0 ==> Keys(RunCleanup(s).log.ran) == Listed(s.hooks)
  {
    hide InfosOk, RunCleanup, Newest;
    var r := RunCleanup(s);
    RunCleanupOrder(s);
    if r.waiting == 0 {
      forall k | k in s.hooks
        ensures Called(r.log.ran, k)
      {
        RemovedLater(s.script, k, r.log.turns, |s.script|);
      }
      CallsAreListing(s.hooks, r.log.ran);
      ListedIsListing(s.hooks);
      ListingIsUnique(s.hooks, Keys(r.log.ran), Listed(s.hooks));
    }
  }

  // ----- With additions -----

  /** Theorem. Even when hooks add hooks, one pass calls hooks of its sorted copy only, in its order. */
  lemma {:induction false} BatchInOrder(order: map<Key, nat>, s: State, callbacks: seq<Key>) returns (calls: seq<Call>)
    requires Newest(order, callbacks)
    ensures RunBatch(s, callbacks).log.ran == s.log.ran + calls
    ensures Newest(order, Keys(calls)) && forall c :: c in calls ==> c.key in callbacks
    decreases |callbacks|
  {
    hide Newest, CallHook;
    if callbacks == [] {
      calls := [];
      NothingCalled(order);
    } else {
      var key, rest := callbacks[0], callbacks[1..];
      HeadInOrder(order, callbacks);
      if key in s.hooks {
        CallLogs(s, key);
        var later := BatchInOrder(order, CallHook(s, key), rest);
        calls := [Call(key, s.log.turns)] + later;
        CallFirst(order, callbacks, Call(key, s.log.turns), later);
      } else {
        calls := BatchInOrder(order, s, rest);
        assert forall c :: c in calls ==> c.key in rest;
      }
    }
  }

  lemma NothingCalled(order: map<Key, nat>)
    ensures Newest(order, Keys([]))
  {
  }

  lemma CallFirst(order: map<Key, nat>, callbacks: seq<Key>, call: Call, later: seq<Call>)
    requires callbacks != [] && Newest(order, callbacks) && call.key == callbacks[0]
    requires Newest(order, Keys(later)) && forall c :: c in later ==> c.key in callbacks[1..]
    ensures Newest(order, Keys([call] + later)) && forall c :: c in [call] + later ==> c.key in callbacks
  {
    hide Newest;
    assert Keys([call] + later) == [call.key] + Keys(later);
    assert callbacks == [callbacks[0]] + callbacks[1..];
    HeadInOrder(order, callbacks);
    forall k | k in Keys(later)
      ensures k in order && order[call.key] > order[k]
    {
      HeadIsNewer(order, callbacks, k);
    }
    NewestFirst(order, call.key, Keys(later));
  }
}
