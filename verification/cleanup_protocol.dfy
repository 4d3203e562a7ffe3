/**
  Environment teardown as a function of the engine's state: the cleanup hooks, run newest first from a
  set that the hooks themselves change, and the asynchronous hooks built on top of them.

  What user code does is a `script`: each time control goes out to user code (a hook is called, or the
  event loop turns once) the next entry says which API calls it makes. Any behaviour of any set of hooks
  in one teardown is such a script.
 */
module CleanupProtocol {
  type InfoId = nat

  /** A hook is identified by its function and argument; asynchronous ones by their info record. */
  datatype Key = Plain(fn: nat, arg: nat) | Async(info: InfoId)

  datatype Op =
    | AddHook(fn: nat, arg: nat)
    | RemoveHook(fn: nat, arg: nat)
    | AddAsyncHook
    | DeleteHandle(info: InfoId)

  /**
    `self`: the record keeps itself alive; `handle`: the user's handle exists; `done`: its completion
    callback is set.
   */
  datatype Info = Info(started: bool, self: bool, handle: bool, done: bool)

  /** A hook was called when `turn` entries of the script had been used up. */
  datatype Call = Call(key: Key, turn: nat)

  /** The asynchronous hooks started and finished so far; the calls and turns of the current teardown. */
  datatype Log = Log(started: set<InfoId>, finished: set<InfoId>, ran: seq<Call>, turns: nat)

  datatype State = State(
    hooks: map<Key, nat>,
    counter: nat,
    waiting: int,
    infos: map<InfoId, Info>,
    nextInfo: InfoId,
    script: seq<seq<Op>>,
    log: Log)

  const NO_INFO := Info(false, false, false, false)
  const EMPTY_LOG := Log({}, {}, [], 0)

  function Initial(script: seq<seq<Op>>): State {
    State(map[], 0, 0, map[], 0, script, EMPTY_LOG)
  }

  function InfoAt(s: State, id: InfoId): Info {
    if id in s.infos then s.infos[id] else NO_INFO
  }

  // ----- API calls -----

  /** `emplace` keeps an equal element that is already there, but the counter advances either way. */
  function AddCleanupHook(s: State, key: Key): State {
    s.(hooks := if key in s.hooks then s.hooks else s.hooks[key := s.counter], counter := s.counter + 1)
  }

  function RemoveCleanupHook(s: State, key: Key): State {
    s.(hooks := s.hooks - {key})
  }

  /** A fresh record that keeps itself alive, registered as a hook. */
  function AddAsync(s: State): State {
    AddCleanupHook(s.(infos := s.infos[s.nextInfo := Info(false, true, true, false)], nextInfo := s.nextInfo + 1),
                   Async(s.nextInfo))
  }

  function StartAsync(s: State, id: InfoId): State {
    s.(waiting := s.waiting + 1,
       infos := s.infos[id := InfoAt(s, id).(started := true, done := true)],
       log := s.log.(started := s.log.started + {id}))
  }

  function FinishAsync(s: State, id: InfoId): State {
    s.(waiting := s.waiting - 1,
       infos := s.infos[id := InfoAt(s, id).(self := false)],
       log := s.log.(finished := s.log.finished + {id}))
  }

  /** A hook that has started can no longer be withdrawn. */
  function Withdraw(s: State, id: InfoId): State {
    if InfoAt(s, id).started then s
    else RemoveCleanupHook(s.(infos := s.infos[id := InfoAt(s, id).(self := false)]), Async(id))
  }

  /** The handle's destructor. Deleting a handle that does not exist is outside the model: no effect. */
  function DeleteHookHandle(s: State, id: InfoId): State {
    if !InfoAt(s, id).handle then s
    else
      var w := Withdraw(s, id);
      var f := if InfoAt(w, id).done then FinishAsync(w, id) else w;
      f.(infos := f.infos[id := InfoAt(f, id).(handle := false)])
  }

  function Apply(s: State, op: Op): (r: State)
    ensures r.script == s.script && r.log.ran == s.log.ran && r.log.turns == s.log.turns
    ensures r.log.started == s.log.started
  {
    match op
    case AddHook(fn, arg) => AddCleanupHook(s, Plain(fn, arg))
    case RemoveHook(fn, arg) => RemoveCleanupHook(s, Plain(fn, arg))
    case AddAsyncHook => AddAsync(s)
    case DeleteHandle(id) => DeleteHookHandle(s, id)
  }

  function ApplyAll(s: State, ops: seq<Op>): (r: State)
    ensures r.script == s.script && r.log.ran == s.log.ran && r.log.turns == s.log.turns
    ensures r.log.started == s.log.started
    decreases |ops|
  {
    if ops == [] then s else ApplyAll(Apply(s, ops[0]), ops[1..])
  }

  // ----- Teardown -----

  /** Control is with user code once. */
  function Turn(s: State): (r: State)
    ensures r.log.ran == s.log.ran && r.log.started == s.log.started
    ensures s.script == [] ==> r == s
    ensures s.script != [] ==> r.script == s.script[1..] && r.log.turns == s.log.turns + 1
  {
    if s.script == [] then s
    else ApplyAll(s.(script := s.script[1..], log := s.log.(turns := s.log.turns + 1)), s.script[0])
  }

  function BeginCall(s: State, key: Key): State {
    var called := s.(log := s.log.(ran := s.log.ran + [Call(key, s.log.turns)]));
    if key.Async? then StartAsync(called, key.info) else called
  }

  /** One hook is called and then taken out of the set, whatever it did to the set meanwhile. */
  function CallHook(s: State, key: Key): State {
    RemoveCleanupHook(Turn(BeginCall(s, key)), key)
  }

  /** `CleanupHandles`: the loop turns while a request waits; with an empty script it would do so for ever. */
  function Drain(s: State): State
    decreases |s.script|
  {
    if s.waiting > 0 && s.script != [] then Drain(Turn(s)) else s
  }

  /** One pass over a copy of the set, skipping what has been removed meanwhile. */
  function RunBatch(s: State, callbacks: seq<Key>): State
    decreases |callbacks|
  {
    if callbacks == [] then s
    else RunBatch(if callbacks[0] in s.hooks then CallHook(s, callbacks[0]) else s, callbacks[1..])
  }

  // ----- The order of calls -----

  /** Strictly decreasing insertion order. */
  ghost predicate Newest(order: map<Key, nat>, list: seq<Key>) {
    && (forall k :: k in list ==> k in order)
    && forall i, j :: 0 <= i < j < |list| ==> order[list[i]] > order[list[j]]
  }

  ghost predicate Injective(hooks: map<Key, nat>) {
    forall k, l :: k in hooks && l in hooks && hooks[k] == hooks[l] ==> k == l
  }

  /** `list` has the keys of `hooks`, most recently inserted first. */
  ghost predicate Listing(hooks: map<Key, nat>, list: seq<Key>) {
    && (forall k :: k in list <==> k in hooks)
    && Newest(hooks, list)
  }

  ghost predicate IsNewest(hooks: map<Key, nat>, key: Key) {
    key in hooks && forall k :: k in hooks ==> hooks[k] <= hooks[key]
  }

  lemma {:induction false} NewestExists(hooks: map<Key, nat>)
    requires hooks != map[]
    ensures exists k :: IsNewest(hooks, k)
    decreases |hooks|
  {
    var k :| k in hooks;
    var rest := hooks - {k};
    FewerKeys(hooks, k);
    if rest == map[] {
      assert forall l :: l in hooks ==> l in rest || l == k;
      assert IsNewest(hooks, k);
    } else {
      NewestExists(rest);
      var l :| IsNewest(rest, l);
      assert forall m :: m in hooks ==> m in rest || m == k;
      assert IsNewest(hooks, if hooks[l] <= hooks[k] then k else l);
    }
  }

  lemma FewerKeys(hooks: map<Key, nat>, key: Key)
    ensures |hooks - {key}| == |hooks| - (if key in hooks then 1 else 0)
    ensures (hooks - {key}).Keys == hooks.Keys - {key}
  {
    assert (hooks - {key}).Keys == hooks.Keys - {key};
    assert |hooks.Keys| == |hooks| && |(hooks - {key}).Keys| == |hooks - {key}|;
  }

  /** The keys of `hooks`, newest first. */
  ghost function Listed(hooks: map<Key, nat>): (list: seq<Key>)
    ensures forall k :: k in list ==> k in hooks
    ensures hooks != map[] ==> list != []
    decreases |hooks|
  {
    if hooks == map[] then []
    else
      NewestExists(hooks);
      var k :| IsNewest(hooks, k);
      FewerKeys(hooks, k);
      [k] + Listed(hooks - {k})
  }

  // ----- How much a script can add -----

  function Adds(ops: seq<Op>): nat {
    if ops == [] then 0
    else (if ops[0].AddHook? || ops[0].AddAsyncHook? then 1 else 0) + Adds(ops[1..])
  }

  function TotalAdds(script: seq<seq<Op>>): nat {
    if script == [] then 0 else Adds(script[0]) + TotalAdds(script[1..])
  }

  /** The hooks there are and those that can still be added. */
  function Size(s: State): nat {
    |s.hooks| + TotalAdds(s.script)
  }

  ghost function Others(hooks: map<Key, nat>, except: set<Key>): nat {
    |hooks.Keys - except|
  }

  lemma SubsetSize<T>(a: set<T>, b: set<T>)
    requires a <= b
    ensures |a| <= |b|
  {
    assert b == a + (b - a);
  }

  lemma OneMoreKey(hooks: map<Key, nat>, hooks': map<Key, nat>, k: Key, except: set<Key>)
    requires hooks'.Keys <= hooks.Keys + {k}
    ensures Others(hooks', except) <= Others(hooks, except) + 1
  {
    SubsetSize(hooks'.Keys - except, (hooks.Keys - except) + {k});
  }

  lemma FewerOthers(hooks: map<Key, nat>, hooks': map<Key, nat>, except: set<Key>)
    requires hooks'.Keys <= hooks.Keys
    ensures Others(hooks', except) <= Others(hooks, except)
  {
    SubsetSize(hooks'.Keys - except, hooks.Keys - except);
  }

  lemma ApplyGrows(s: State, op: Op, except: set<Key>)
    ensures Others(Apply(s, op).hooks, except) <= Others(s.hooks, except) + Adds([op])
  {
    hide Others;
    var r := Apply(s, op);
    match op
    case AddHook(fn, arg) => OneMoreKey(s.hooks, r.hooks, Plain(fn, arg), except);
    case RemoveHook(_, _) => FewerOthers(s.hooks, r.hooks, except);
    case AddAsyncHook => OneMoreKey(s.hooks, r.hooks, Async(s.nextInfo), except);
    case DeleteHandle(_) => FewerOthers(s.hooks, r.hooks, except);
  }

  lemma {:induction false} ApplyAllGrows(s: State, ops: seq<Op>, except: set<Key>)
    ensures Others(ApplyAll(s, ops).hooks, except) <= Others(s.hooks, except) + Adds(ops)
    decreases |ops|
  {
    hide Others, Apply;
    if ops != [] {
      ApplyGrows(s, ops[0], except);
      ApplyAllGrows(Apply(s, ops[0]), ops[1..], except);
    }
  }

  lemma TurnGrows(s: State, except: set<Key>)
    ensures Others(Turn(s).hooks, except) + TotalAdds(Turn(s).script) <= Others(s.hooks, except) + TotalAdds(s.script)
    ensures TotalAdds(Turn(s).script) <= TotalAdds(s.script)
  {
    hide Others, ApplyAll;
    if s.script != [] {
      var s' := s.(script := s.script[1..], log := s.log.(turns := s.log.turns + 1));
      ApplyAllGrows(s', s.script[0], except);
    }
  }

  lemma OthersOfNone(hooks: map<Key, nat>)
    ensures Others(hooks, {}) == |hooks|
  {
    assert hooks.Keys - {} == hooks.Keys && |hooks.Keys| == |hooks|;
  }

  lemma OthersWithout(hooks: map<Key, nat>, key: Key)
    ensures Others(hooks, {key}) == |hooks - {key}|
  {
    FewerKeys(hooks, key);
    assert |(hooks - {key}).Keys| == |hooks - {key}|;
  }

  /** Every call uses up a hook, whatever it adds is paid for by its script entry. */
  lemma CallShrinks(s: State, key: Key)
    requires key in s.hooks
    ensures Size(CallHook(s, key)) < Size(s)
    ensures TotalAdds(CallHook(s, key).script) <= TotalAdds(s.script)
  {
    hide Others, Turn;
    OthersWithout(s.hooks, key);
    FewerKeys(s.hooks, key);
    TurnGrows(BeginCall(s, key), {key});
    OthersWithout(Turn(BeginCall(s, key)).hooks, key);
  }

  lemma {:induction false} BatchShrinks(s: State, callbacks: seq<Key>)
    ensures Size(RunBatch(s, callbacks)) <= Size(s)
    ensures callbacks != [] && callbacks[0] in s.hooks ==> Size(RunBatch(s, callbacks)) < Size(s)
    ensures TotalAdds(RunBatch(s, callbacks).script) <= TotalAdds(s.script)
    decreases |callbacks|
  {
    hide CallHook, Size;
    if callbacks != [] {
      if callbacks[0] in s.hooks {
        CallShrinks(s, callbacks[0]);
        BatchShrinks(CallHook(s, callbacks[0]), callbacks[1..]);
      } else {
        BatchShrinks(s, callbacks[1..]);
      }
    }
  }

  lemma {:induction false} DrainGrows(s: State)
    ensures Size(Drain(s)) <= Size(s) && TotalAdds(Drain(s).script) <= TotalAdds(s.script)
    decreases |s.script|
  {
    hide Turn, Others;
    if s.waiting > 0 && s.script != [] {
      TurnGrows(s, {});
      OthersOfNone(s.hooks);
      OthersOfNone(Turn(s).hooks);
      DrainGrows(Turn(s));
    }
  }

  /** Wait for the asynchronous hooks, then a pass over the set, until there is none left or no event comes. */
  ghost function Rounds(s: State): State
    decreases Size(s)
  {
    var d := Drain(s);
    if d.waiting > 0 || d.hooks == map[] then d
    else
      DrainGrows(s);
      BatchShrinks(d, Listed(d.hooks));
      Rounds(RunBatch(d, Listed(d.hooks)))
  }

  function Fresh(s: State): State {
    s.(log := s.log.(ran := [], turns := 0))
  }

  /** `RunCleanup`: the log of calls starts afresh. */
  ghost function RunCleanup(s: State): State {
    Rounds(Fresh(s))
  }
}
