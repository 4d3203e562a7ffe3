/** What environment teardown keeps and what it achieves, for every script. */
module CleanupProofs {
  import opened CleanupProtocol

  // ----- The ledger of asynchronous hooks -----

  /**
    What holds of every info record between steps. A record keeps itself alive exactly while its handle
    exists; before the hook starts that is while it is registered, afterwards until it has finished.
    `running` is the hook being called right now, if any.
   */
  ghost predicate InfosOk(infos: map<InfoId, Info>, hooks: set<Key>, started: set<InfoId>,
                          finished: set<InfoId>, running: set<Key>) {
    forall id :: id in infos ==> InfoOk(infos[id], Async(id), hooks, id in started, id in finished, running)
  }

  ghost predicate InfoOk(info: Info, key: Key, hooks: set<Key>, started: bool, finished: bool, running: set<Key>) {
    && info.started == info.done == started
    && info.self == info.handle
    && (started ==> (info.self <==> !finished))
    && (!started ==> (info.self <==> key in hooks))
    && (started && key in hooks ==> key in running)
  }

  ghost predicate CountersOk(hooks: map<Key, nat>, counter: nat) {
    Injective(hooks) && forall k :: k in hooks ==> hooks[k] < counter
  }

  /** `request_waiting_` counts the hooks started and not finished. */
  ghost predicate LedgerOk(s: State) {
    && s.log.finished <= s.log.started <= s.infos.Keys
    && s.waiting == |s.log.started - s.log.finished|
    && (forall id :: id in s.infos ==> id < s.nextInfo)
    && (forall k :: k in s.hooks && k.Async? ==> k.info in s.infos)
  }

  ghost predicate Valid(s: State, running: set<Key>) {
    && CountersOk(s.hooks, s.counter)
    && LedgerOk(s)
    && InfosOk(s.infos, s.hooks.Keys, s.log.started, s.log.finished, running)
  }

  lemma InitialIsValid(script: seq<seq<Op>>)
    ensures Valid(Initial(script), {})
  {
  }

  lemma RegisterKeepsInfos(infos: map<InfoId, Info>, hooks: set<Key>, started: set<InfoId>,
                           finished: set<InfoId>, running: set<Key>, id: InfoId)
    requires InfosOk(infos, hooks, started, finished, running) && id !in infos && id !in started
    ensures InfosOk(infos[id := Info(false, true, true, false)], hooks + {Async(id)}, started, finished, running)
  {
  }

  lemma StartKeepsInfos(infos: map<InfoId, Info>, hooks: set<Key>, started: set<InfoId>, finished: set<InfoId>,
                        id: InfoId)
    requires InfosOk(infos, hooks, started, finished, {}) && finished <= started
    requires id in infos && Async(id) in hooks
    ensures !infos[id].started && infos[id].self && id !in started
    ensures InfosOk(infos[id := infos[id].(started := true, done := true)], hooks, started + {id}, finished,
                    {Async(id)})
  {
    assert InfoOk(infos[id], Async(id), hooks, id in started, id in finished, {});
  }

  lemma FinishKeepsInfos(infos: map<InfoId, Info>, hooks: set<Key>, started: set<InfoId>, finished: set<InfoId>,
                         running: set<Key>, id: InfoId)
    requires InfosOk(infos, hooks, started, finished, running)
    requires id in infos && infos[id].handle && infos[id].started
    ensures infos[id].self && infos[id].done && id in started && id !in finished
    ensures InfosOk(infos[id := infos[id].(self := false, handle := false)], hooks, started, finished + {id}, running)
  {
    assert InfoOk(infos[id], Async(id), hooks, id in started, id in finished, running);
  }

  lemma WithdrawKeepsInfos(infos: map<InfoId, Info>, hooks: set<Key>, started: set<InfoId>,
                           finished: set<InfoId>, running: set<Key>, id: InfoId)
    requires InfosOk(infos, hooks, started, finished, running)
    requires id in infos && infos[id].handle && !infos[id].started
    ensures !infos[id].done && id !in started
    ensures InfosOk(infos[id := infos[id].(self := false, handle := false)], hooks - {Async(id)}, started, finished,
                    running)
  {
    assert InfoOk(infos[id], Async(id), hooks, id in started, id in finished, running);
  }

  /** Once the hook has been called its key leaves the set, and nothing is running. */
  lemma DoneKeepsInfos(infos: map<InfoId, Info>, hooks: set<Key>, started: set<InfoId>, finished: set<InfoId>, key: Key)
    requires InfosOk(infos, hooks, started, finished, {key})
    requires key.Async? ==> key.info in started
    ensures InfosOk(infos, hooks - {key}, started, finished, {})
  {
    forall id | id in infos
      ensures InfoOk(infos[id], Async(id), hooks - {key}, id in started, id in finished, {})
    {
      assert InfoOk(infos[id], Async(id), hooks, id in started, id in finished, {key});
    }
  }

  lemma PlainKeepsInfos(infos: map<InfoId, Info>, hooks: set<Key>, hooks': set<Key>, started: set<InfoId>,
                        finished: set<InfoId>, running: set<Key>)
    requires InfosOk(infos, hooks, started, finished, running)
    requires forall id: InfoId :: Async(id) in hooks <==> Async(id) in hooks'
    ensures InfosOk(infos, hooks', started, finished, running)
  {
    forall id | id in infos
      ensures InfoOk(infos[id], Async(id), hooks', id in started, id in finished, running)
    {
      assert InfoOk(infos[id], Async(id), hooks, id in started, id in finished, running);
    }
  }

  lemma AddKeepsCounters(hooks: map<Key, nat>, counter: nat, key: Key)
    requires CountersOk(hooks, counter)
    ensures CountersOk(if key in hooks then hooks else hooks[key := counter], counter + 1)
  {
  }

  lemma RemoveKeepsCounters(hooks: map<Key, nat>, counter: nat, key: Key)
    requires CountersOk(hooks, counter)
    ensures CountersOk(hooks - {key}, counter)
  {
  }

  lemma OneMore(outer: set<InfoId>, inner: set<InfoId>, id: InfoId)
    requires id !in outer && inner <= outer
    ensures |(outer + {id}) - inner| == |outer - inner| + 1
  {
    assert (outer + {id}) - inner == (outer - inner) + {id};
  }

  lemma OneFewer(outer: set<InfoId>, inner: set<InfoId>, id: InfoId)
    requires id in outer && id !in inner
    ensures |outer - (inner + {id})| == |outer - inner| - 1
  {
    assert outer - (inner + {id}) == (outer - inner) - {id};
  }

  // ----- Every API call keeps it -----

  lemma AddPlainKeepsValid(s: State, fn: nat, arg: nat, running: set<Key>)
    requires Valid(s, running)
    ensures Valid(AddCleanupHook(s, Plain(fn, arg)), running)
  {
    hide InfosOk, CountersOk;
    var r := AddCleanupHook(s, Plain(fn, arg));
    AddKeepsCounters(s.hooks, s.counter, Plain(fn, arg));
    PlainKeepsInfos(s.infos, s.hooks.Keys, r.hooks.Keys, s.log.started, s.log.finished, running);
  }

  lemma RemovePlainKeepsValid(s: State, fn: nat, arg: nat, running: set<Key>)
    requires Valid(s, running)
    ensures Valid(RemoveCleanupHook(s, Plain(fn, arg)), running)
  {
    hide InfosOk, CountersOk;
    var r := RemoveCleanupHook(s, Plain(fn, arg));
    RemoveKeepsCounters(s.hooks, s.counter, Plain(fn, arg));
    PlainKeepsInfos(s.infos, s.hooks.Keys, r.hooks.Keys, s.log.started, s.log.finished, running);
  }

  lemma AddAsyncKeepsValid(s: State, running: set<Key>)
    requires Valid(s, running)
    ensures Valid(AddAsync(s), running) && s.nextInfo !in s.infos && Async(s.nextInfo) !in s.hooks
  {
    hide InfosOk, CountersOk;
    var id := s.nextInfo;
    AddKeepsCounters(s.hooks, s.counter, Async(id));
    RegisterKeepsInfos(s.infos, s.hooks.Keys, s.log.started, s.log.finished, running, id);
    assert AddAsync(s).hooks.Keys == s.hooks.Keys + {Async(id)};
  }

  /** A live handle of a started hook: deleting it finishes the hook. */
  lemma FinishKeepsValid(s: State, id: InfoId, running: set<Key>)
    requires Valid(s, running) && id in s.infos && s.infos[id].handle && s.infos[id].started
    ensures Valid(DeleteHookHandle(s, id), running)
    ensures id in s.log.started - s.log.finished
    ensures DeleteHookHandle(s, id)
            == FinishAsync(s, id).(infos := s.infos[id := s.infos[id].(self := false, handle := false)])
  {
    hide InfosOk, CountersOk;
    FinishKeepsInfos(s.infos, s.hooks.Keys, s.log.started, s.log.finished, running, id);
    OneFewer(s.log.started, s.log.finished, id);
    assert DeleteHookHandle(s, id).infos == s.infos[id := s.infos[id].(self := false, handle := false)];
  }

  /** A live handle of a hook that has not started: deleting it withdraws the hook. */
  lemma WithdrawKeepsValid(s: State, id: InfoId, running: set<Key>)
    requires Valid(s, running) && id in s.infos && s.infos[id].handle && !s.infos[id].started
    ensures Valid(DeleteHookHandle(s, id), running)
    ensures DeleteHookHandle(s, id)
            == s.(hooks := s.hooks - {Async(id)},
                  infos := s.infos[id := s.infos[id].(self := false, handle := false)])
  {
    hide InfosOk, CountersOk;
    WithdrawKeepsInfos(s.infos, s.hooks.Keys, s.log.started, s.log.finished, running, id);
    RemoveKeepsCounters(s.hooks, s.counter, Async(id));
    assert DeleteHookHandle(s, id).infos == s.infos[id := s.infos[id].(self := false, handle := false)];
    assert (s.hooks - {Async(id)}).Keys == s.hooks.Keys - {Async(id)};
  }

  /** Theorem. Whatever API call user code makes, at any moment, the ledger stays in order. */
  lemma ApplyKeepsValid(s: State, op: Op, running: set<Key>)
    requires Valid(s, running)
    ensures Valid(Apply(s, op), running) && s.log.finished <= Apply(s, op).log.finished
  {
    hide Valid;
    match op
    case AddHook(fn, arg) => AddPlainKeepsValid(s, fn, arg, running);
    case RemoveHook(fn, arg) => RemovePlainKeepsValid(s, fn, arg, running);
    case AddAsyncHook => AddAsyncKeepsValid(s, running);
    case DeleteHandle(id) =>
      if InfoAt(s, id).handle {
        if InfoAt(s, id).started {
          FinishKeepsValid(s, id, running);
        } else {
          WithdrawKeepsValid(s, id, running);
        }
      }
  }

  lemma {:induction false} ApplyAllKeepsValid(s: State, ops: seq<Op>, running: set<Key>)
    requires Valid(s, running)
    ensures Valid(ApplyAll(s, ops), running) && s.log.finished <= ApplyAll(s, ops).log.finished
    decreases |ops|
  {
    hide Valid, Apply;
    if ops != [] {
      ApplyKeepsValid(s, ops[0], running);
      ApplyAllKeepsValid(Apply(s, ops[0]), ops[1..], running);
    }
  }

  lemma TurnKeepsValid(s: State, running: set<Key>)
    requires Valid(s, running)
    ensures Valid(Turn(s), running) && s.log.finished <= Turn(s).log.finished
  {
    hide ApplyAll, InfosOk, CountersOk;
    if s.script != [] {
      ApplyAllKeepsValid(s.(script := s.script[1..], log := s.log.(turns := s.log.turns + 1)), s.script[0], running);
    }
  }

  // ----- Every step of teardown keeps it -----

  /** A hook that is called has its record alive, and an asynchronous one was never started before. */
  lemma BeginKeepsValid(s: State, key: Key)
    requires Valid(s, {}) && key in s.hooks
    ensures Valid(BeginCall(s, key), {key})
    ensures key.Async? ==> key.info in s.infos && s.infos[key.info].self && key.info !in s.log.started
  {
    hide InfosOk, CountersOk;
    if key.Async? {
      StartKeepsInfos(s.infos, s.hooks.Keys, s.log.started, s.log.finished, key.info);
      OneMore(s.log.started, s.log.finished, key.info);
    } else {
      WidenRunning(s.infos, s.hooks.Keys, s.log.started, s.log.finished, key);
    }
  }

  lemma WidenRunning(infos: map<InfoId, Info>, hooks: set<Key>, started: set<InfoId>, finished: set<InfoId>, key: Key)
    requires InfosOk(infos, hooks, started, finished, {})
    ensures InfosOk(infos, hooks, started, finished, {key})
  {
  }

  lemma EndKeepsValid(s: State, key: Key)
    requires Valid(s, {key}) && (key.Async? ==> key.info in s.log.started)
    ensures Valid(RemoveCleanupHook(s, key), {})
  {
    hide InfosOk, CountersOk;
    RemoveKeepsCounters(s.hooks, s.counter, key);
    DoneKeepsInfos(s.infos, s.hooks.Keys, s.log.started, s.log.finished, key);
    assert (s.hooks - {key}).Keys == s.hooks.Keys - {key};
  }

  lemma CallKeepsValid(s: State, key: Key)
    requires Valid(s, {}) && key in s.hooks
    ensures Valid(CallHook(s, key), {}) && s.log.finished <= CallHook(s, key).log.finished
  {
    hide Valid, Turn;
    BeginKeepsValid(s, key);
    TurnKeepsValid(BeginCall(s, key), {key});
    EndKeepsValid(Turn(BeginCall(s, key)), key);
  }

  lemma {:induction false} DrainKeepsValid(s: State)
    requires Valid(s, {})
    ensures Valid(Drain(s), {}) && s.log.finished <= Drain(s).log.finished
    decreases |s.script|
  {
    hide Valid, Turn;
    if s.waiting > 0 && s.script != [] {
      TurnKeepsValid(s, {});
      DrainKeepsValid(Turn(s));
    }
  }

  lemma {:induction false} BatchKeepsValid(s: State, callbacks: seq<Key>)
    requires Valid(s, {})
    ensures Valid(RunBatch(s, callbacks), {}) && s.log.finished <= RunBatch(s, callbacks).log.finished
    decreases |callbacks|
  {
    hide Valid, CallHook;
    if callbacks != [] {
      if callbacks[0] in s.hooks {
        CallKeepsValid(s, callbacks[0]);
        BatchKeepsValid(CallHook(s, callbacks[0]), callbacks[1..]);
      } else {
        BatchKeepsValid(s, callbacks[1..]);
      }
    }
  }

  // ----- Which hooks have been started -----

  function StartedBy(calls: seq<Call>): set<InfoId> {
    set c | c in calls && c.key.Async? :: c.key.info
  }

  /** Since `base`, exactly the asynchronous hooks that were called have been started. */
  ghost predicate StartsAreCalls(base: set<InfoId>, s: State) {
    s.log.started == base + StartedBy(s.log.ran) && base !! StartedBy(s.log.ran)
  }

  lemma CallKeepsStarts(base: set<InfoId>, s: State, key: Key)
    requires StartsAreCalls(base, s) && Valid(s, {}) && key in s.hooks
    ensures StartsAreCalls(base, CallHook(s, key))
  {
    hide Valid, Turn;
    BeginKeepsValid(s, key);
    var call := Call(key, s.log.turns);
    assert CallHook(s, key).log.ran == s.log.ran + [call];
    assert StartedBy(s.log.ran + [call]) == StartedBy(s.log.ran) + (if key.Async? then {key.info} else {}) by {
      assert forall c :: c in s.log.ran + [call] <==> c in s.log.ran || c == call;
    }
  }

  lemma {:induction false} DrainKeepsStarts(base: set<InfoId>, s: State)
    requires StartsAreCalls(base, s)
    ensures StartsAreCalls(base, Drain(s)) && Drain(s).log.ran == s.log.ran
    decreases |s.script|
  {
    hide Turn;
    if s.waiting > 0 && s.script != [] {
      DrainKeepsStarts(base, Turn(s));
    }
  }

  lemma {:induction false} BatchKeepsStarts(base: set<InfoId>, s: State, callbacks: seq<Key>)
    requires StartsAreCalls(base, s) && Valid(s, {})
    ensures StartsAreCalls(base, RunBatch(s, callbacks))
    decreases |callbacks|
  {
    hide Valid, CallHook, StartsAreCalls;
    if callbacks != [] {
      if callbacks[0] in s.hooks {
        CallKeepsValid(s, callbacks[0]);
        CallKeepsStarts(base, s, callbacks[0]);
        BatchKeepsStarts(base, CallHook(s, callbacks[0]), callbacks[1..]);
      } else {
        BatchKeepsStarts(base, s, callbacks[1..]);
      }
    }
  }

  // ----- The end of teardown, for every script -----

  /** Teardown came to an end, or it waits for an asynchronous hook that nothing will finish. */
  lemma {:induction false} RoundsEnd(s: State)
    ensures if Rounds(s).waiting > 0 then Rounds(s).script == [] else Rounds(s).hooks == map[]
    decreases Size(s)
  {
    hide RunBatch, Size;
    DrainEnds(s);
    var d := Drain(s);
    if !(d.waiting > 0 || d.hooks == map[]) {
      DrainGrows(s);
      BatchShrinks(d, Listed(d.hooks));
      RoundsEnd(RunBatch(d, Listed(d.hooks)));
    }
  }

  lemma {:induction false} DrainEnds(s: State)
    ensures Drain(s).waiting > 0 ==> Drain(s).script == []
    decreases |s.script|
  {
    hide Turn;
    if s.waiting > 0 && s.script != [] {
      DrainEnds(Turn(s));
    }
  }

  lemma {:induction false} RoundsKeepValid(base: set<InfoId>, s: State)
    requires Valid(s, {}) && StartsAreCalls(base, s)
    ensures Valid(Rounds(s), {}) && StartsAreCalls(base, Rounds(s)) && s.log.finished <= Rounds(s).log.finished
    decreases Size(s)
  {
    hide RunBatch, Valid, StartsAreCalls, Size;
    DrainKeepsValid(s);
    DrainKeepsStarts(base, s);
    var d := Drain(s);
    if !(d.waiting > 0 || d.hooks == map[]) {
      DrainGrows(s);
      BatchShrinks(d, Listed(d.hooks));
      BatchKeepsValid(d, Listed(d.hooks));
      BatchKeepsStarts(base, d, Listed(d.hooks));
      RoundsKeepValid(base, RunBatch(d, Listed(d.hooks)));
    }
  }

  // Calls made and calls still possible

  lemma CallPays(s: State, key: Key)
    requires key in s.hooks
    ensures |CallHook(s, key).log.ran| + Size(CallHook(s, key)) <= |s.log.ran| + Size(s)
  {
    hide Size, Turn;
    CallShrinks(s, key);
  }

  lemma {:induction false} BatchPays(s: State, callbacks: seq<Key>)
    ensures |RunBatch(s, callbacks).log.ran| + Size(RunBatch(s, callbacks)) <= |s.log.ran| + Size(s)
    decreases |callbacks|
  {
    hide CallHook, Size;
    if callbacks != [] {
      if callbacks[0] in s.hooks {
        CallPays(s, callbacks[0]);
        BatchPays(CallHook(s, callbacks[0]), callbacks[1..]);
      } else {
        BatchPays(s, callbacks[1..]);
      }
    }
  }

  lemma {:induction false} RoundsPay(s: State)
    ensures |Rounds(s).log.ran| + Size(Rounds(s)) <= |s.log.ran| + Size(s)
    decreases Size(s)
  {
    hide RunBatch, Size;
    DrainGrows(s);
    DrainKeepsRan(s);
    var d := Drain(s);
    if !(d.waiting > 0 || d.hooks == map[]) {
      BatchShrinks(d, Listed(d.hooks));
      BatchPays(d, Listed(d.hooks));
      RoundsPay(RunBatch(d, Listed(d.hooks)));
    }
  }

  lemma {:induction false} DrainKeepsRan(s: State)
    ensures Drain(s).log.ran == s.log.ran
    decreases |s.script|
  {
    hide Turn;
    if s.waiting > 0 && s.script != [] {
      DrainKeepsRan(Turn(s));
    }
  }

  /** With no hook left and no request waiting every record has been let go. */
  lemma AllSettled(s: State)
    requires Valid(s, {}) && s.hooks == map[] && s.waiting == 0
    ensures s.log.started == s.log.finished && forall id :: id in s.infos ==> !s.infos[id].self
  {
    assert s.log.started - s.log.finished == {};
    forall id | id in s.infos
      ensures !s.infos[id].self
    {
      assert InfoOk(s.infos[id], Async(id), s.hooks.Keys, id in s.log.started, id in s.log.finished, {});
    }
  }

  /** No hook left, every hook that was started has finished, no record keeps itself alive. */
  ghost predicate TornDown(s: State) {
    && s.hooks == map[] && s.waiting == 0 && s.log.started == s.log.finished
    && forall id :: id in s.infos ==> !s.infos[id].self
  }

  /**
    Theorem. Whatever the hooks do, teardown makes at most as many calls as there were hooks and are added,
    and ends torn down, unless it waits for an asynchronous hook that nothing finishes. The asynchronous
    hooks called are exactly those newly started.
   */
  lemma RunCleanupEnds(s: State)
    requires Valid(s, {})
    ensures var r := RunCleanup(s);
            && Valid(r, {})
            && |r.log.ran| + |r.hooks| <= |s.hooks| + TotalAdds(s.script)
            && (r.waiting == 0 ==> TornDown(r))
            && (r.waiting != 0 ==> r.waiting > 0 && r.script == [])
            && s.log.started <= r.log.started && s.log.finished <= r.log.finished
            && r.log.started - s.log.started == StartedBy(r.log.ran)
  {
    hide InfosOk, CountersOk, Rounds;
    var f := Fresh(s);
    RoundsEnd(f);
    RoundsKeepValid(s.log.started, f);
    RoundsPay(f);
    if Rounds(f).waiting == 0 {
      AllSettled(Rounds(f));
    }
  }
}
