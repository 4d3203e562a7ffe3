/**
  `NativeScopeManager`: a doubly linked chain of scopes, each owning a singly linked list of handles,
  updated in place. Every method is proved to act on the chain as `ScopeStack` acts on a stack.

  The parts of the methods that work on one handle list are methods of the scope. `delete` is recorded
  in the ghost sequence `deleted`; a deleted scope or handle leaves the structure.
 */
module ScopeManager {
  import ScopeStack
  import opened Sequences

  class NativeValue {
  }

  class NativeHandle {
    var value: NativeValue?
    var sibling: NativeHandle?
    ghost var home: NativeScope?

    constructor ()
      ensures value == null && sibling == null
    {
      value, sibling, home := null, null, null;
    }
  }

  class NativeScope {
    var handlePtr: NativeHandle?
    var handleCount: nat
    var escaped: bool
    var child: NativeScope?
    var parent: NativeScope?
    ghost var nodes: seq<NativeHandle>
    ghost var values: seq<NativeValue?>

    constructor ()
      ensures !escaped && child == null && parent == null
      ensures nodes == [] && values == [] && ListOk()
    {
      handlePtr, handleCount, escaped, child, parent := null, 0, false, null, null;
      nodes, values := [], [];
    }

    ghost function At(k: nat): NativeHandle?
      reads `nodes
    {
      if k < |nodes| then nodes[k] else null
    }

    /** `nodes` is the handle list, in order, and `values` what it holds. */
    ghost predicate ListOk()
      reads `handlePtr, `handleCount, `nodes, `values, nodes
    {
      && |values| == |nodes| == handleCount
      && handlePtr == At(0)
      && (forall k {:trigger nodes[k].value} :: 0 <= k < |nodes| ==> nodes[k].value == values[k])
      && (forall k {:trigger nodes[k].sibling} :: 0 <= k < |nodes| ==> nodes[k].sibling == At(k + 1))
      && (forall h :: h in nodes ==> h.home == this)
      && Distinct(nodes)
    }

    /** A new handle for `value` at the front of the list. */
    method AddHandle(newValue: NativeValue?)
      requires ListOk()
      modifies this`handlePtr, this`handleCount, this`nodes, this`values
      ensures ListOk() && values == [newValue] + old(values)
      ensures fresh(set h | h in nodes && h !in old(nodes))
    {
      var handle := new NativeHandle();
      handle.home := this;
      if handlePtr == null {
        handlePtr := handle;
        handlePtr.value := newValue;
        handlePtr.sibling := null;
      } else {
        handle.sibling := handlePtr;
        handle.value := newValue;
        handlePtr := handle;
      }
      handleCount := handleCount + 1;
      nodes := [handle] + nodes;
      values := [newValue] + values;
    }

    /** Delete the whole list, front to back; `gone` are the values deleted. */
    method DeleteHandles() returns (ghost gone: seq<NativeValue?>)
      requires ListOk()
      modifies this`handlePtr, this`nodes, this`values
      ensures gone == old(values) && values == [] && handlePtr == null
    {
      gone := [];
      ghost var k: nat := 0;
      var handle := handlePtr;
      while handle != null
        invariant k <= |nodes| && handle == handlePtr == At(k)
        invariant gone == values[..k]
        decreases |nodes| - k
        modifies `handlePtr
      {
        handlePtr := handle.sibling;
        gone := gone + [handle.value];
        handle := handlePtr;
        k := k + 1;
      }
      nodes, values := [], [];
    }

    /** Search the list of an escapable scope and unlink the first handle of `sought`. */
    method UnlinkHandle(sought: NativeValue) returns (handle: NativeHandle?)
      requires ListOk()
      modifies this`handlePtr, this`handleCount, this`nodes, this`values, nodes
      ensures ListOk()
      ensures handle != null <==> escaped && sought in old(values)
      ensures handle == null ==> values == old(values) && nodes == old(nodes)
      ensures handle != null ==>
                && handle in old(nodes) && handle !in nodes && handle.value == sought
                && values == Without(old(values), ScopeStack.IndexOf(old(values), sought))
      ensures forall h :: h in nodes ==> h in old(nodes)
    {
      handle := handlePtr;
      var temp: NativeHandle? := null;
      ghost var k: nat := 0;
      while handle != null && escaped
        invariant k <= |nodes| && handle == At(k) && ListOk()
        invariant temp == if k == 0 then null else At(k - 1)
        invariant sought !in values[..k]
        invariant values == old(values) && nodes == old(nodes)
        decreases |nodes| - k
      {
        if handle.value == sought {
          if temp == null {
            UnlinkFirst(handle);
            assert Without(old(values), 0) == old(values)[1..];
          } else {
            UnlinkAfter(temp, handle, k);
          }
          return handle;
        }
        temp := handle;
        handle := handle.sibling;
        k := k + 1;
      }
      return null;
    }

    method UnlinkFirst(handle: NativeHandle)
      requires ListOk() && nodes != [] && handle == nodes[0]
      modifies this`handlePtr, this`handleCount, this`nodes, this`values
      ensures ListOk() && handle !in nodes
      ensures nodes == old(nodes)[1..] && values == old(values)[1..]
    {
      handlePtr := handle.sibling;
      handleCount := handleCount - 1;
      nodes, values := nodes[1..], values[1..];
    }

    method UnlinkAfter(temp: NativeHandle, handle: NativeHandle, ghost k: nat)
      requires ListOk() && 0 < k < |nodes| && handle == nodes[k] && temp == nodes[k - 1]
      modifies this`handlePtr, this`handleCount, this`nodes, this`values, temp`sibling
      ensures ListOk() && handle !in nodes
      ensures nodes == Without(old(nodes), k)
      ensures values == Without(old(values), k)
    {
      WithoutFacts(nodes, k);
      temp.sibling := handle.sibling;
      handleCount := handleCount - 1;
      SkipsLink(k);
      nodes := Without(nodes, k);
      values := Without(values, k);
      assert handlePtr == At(0);
    }

    /** The list with one link changed to skip node `k` is the list without that node. */
    lemma SkipsLink(k: nat)
      requires 0 < k < |nodes| == |values| && Distinct(nodes)
      requires forall j {:trigger nodes[j]} :: 0 <= j < |nodes| ==>
                 && nodes[j].value == values[j]
                 && nodes[j].sibling == At(if j == k - 1 then k + 1 else j + 1)
      ensures var t, v := Without(nodes, k), Without(values, k);
              forall j {:trigger t[j]} :: 0 <= j < |t| ==>
                t[j].value == v[j] && t[j].sibling == if j + 1 < |t| then t[j + 1] else null
    {
      var t, v := Without(nodes, k), Without(values, k);
      forall j | 0 <= j < |t|
        ensures t[j].value == v[j] && t[j].sibling == if j + 1 < |t| then t[j + 1] else null
      {
        assert t[j] == nodes[if j < k then j else j + 1];
      }
    }

    /** Put a handle that is in no list at the front of this one. */
    method LinkHandle(handle: NativeHandle)
      requires ListOk() && handle !in nodes
      modifies this`handlePtr, this`handleCount, this`nodes, this`values, handle`sibling, handle`home
      ensures ListOk() && nodes == [handle] + old(nodes) && values == [handle.value] + old(values)
    {
      if handlePtr == null {
        handlePtr := handle;
        handle.sibling := null;
      } else {
        handle.sibling := handlePtr;
        handlePtr := handle;
      }
      handle.home := this;
      handleCount := handleCount + 1;
      values := [handle.value] + values;
      nodes := [handle] + nodes;
    }
  }

  /** Each scope's links lead to its neighbours in `ss`. */
  ghost predicate Chained(ss: seq<NativeScope>)
    reads ss`parent, ss`child
  {
    && (forall i {:trigger ss[i].parent} :: 0 <= i < |ss| ==> ss[i].parent == if i == 0 then null else ss[i - 1])
    && (forall i {:trigger ss[i].child} :: 0 <= i < |ss| ==> ss[i].child == if i + 1 < |ss| then ss[i + 1] else null)
    && Distinct(ss)
  }

  ghost predicate Lists(ss: seq<NativeScope>, fs: seq<ScopeStack.Frame<NativeValue?>>, handles: set<NativeHandle>)
    reads ss`handlePtr, ss`handleCount, ss`nodes, ss`values, ss`escaped, handles
  {
    && |fs| == |ss|
    && forall i {:trigger ss[i]} :: 0 <= i < |ss| ==>
         && (forall h :: h in ss[i].nodes ==> h in handles)
         && ss[i].ListOk()
         && fs[i] == ScopeStack.Frame(ss[i].escaped, ss[i].values)
  }

  lemma ListsAppend(ss: seq<NativeScope>, fs: seq<ScopeStack.Frame<NativeValue?>>, handles: set<NativeHandle>,
                    s: NativeScope)
    requires Lists(ss, fs, handles) && s.ListOk() && s.nodes == [] && s.values == []
    ensures Lists(ss + [s], fs + [ScopeStack.Frame(s.escaped, [])], handles)
  {
    hide NativeScope.ListOk;
  }

  lemma ListsWithout(ss: seq<NativeScope>, fs: seq<ScopeStack.Frame<NativeValue?>>, handles: set<NativeHandle>, i: nat)
    requires Lists(ss, fs, handles) && i < |ss|
    ensures |fs| == |ss| && Lists(Without(ss, i), Without(fs, i), handles)
  {
    hide NativeScope.ListOk;
    var ss', fs' := Without(ss, i), Without(fs, i);
    assert forall j {:trigger ss'[j]} :: 0 <= j < |ss'| ==>
             ss'[j] == ss[if j < i then j else j + 1] && fs'[j] == fs[if j < i then j else j + 1];
  }

  lemma OneList(ss: seq<NativeScope>, fs: seq<ScopeStack.Frame<NativeValue?>>, handles: set<NativeHandle>, i: nat)
    requires Lists(ss, fs, handles) && i < |ss|
    ensures |fs| == |ss| && ss[i].ListOk() && fs[i] == ScopeStack.Frame(ss[i].escaped, ss[i].values)
    ensures forall h :: h in ss[i].nodes ==> h in handles
  {
  }

  lemma TailStep(ss: seq<NativeScope>, fs: seq<ScopeStack.Frame<NativeValue?>>, handles: set<NativeHandle>, k: nat)
    requires |fs| == |ss| && k < |ss| && Distinct(ss) && Lists(ss[k..], fs[k..], handles)
    ensures ss[k].ListOk() && fs[k].values == ss[k].values
    ensures Lists(ss[k + 1..], fs[k + 1..], handles) && ss[k] !in ss[k + 1..]
    ensures ScopeStack.AllValues(fs[k..]) == fs[k].values + ScopeStack.AllValues(fs[k + 1..])
  {
    hide NativeScope.ListOk;
    var t, f := ss[k..], fs[k..];
    assert t[0] == ss[k] && f[0] == fs[k] && t[1..] == ss[k + 1..] && f[1..] == fs[k + 1..];
    assert forall j {:trigger t[1..][j]} :: 0 <= j < |t| - 1 ==> t[1..][j] == t[j + 1] && f[1..][j] == f[j + 1];
  }

  /** The lists of different scopes share no handle. */
  lemma ListsDisjoint(ss: seq<NativeScope>, fs: seq<ScopeStack.Frame<NativeValue?>>, handles: set<NativeHandle>, i: nat)
    requires Lists(ss, fs, handles) && Distinct(ss) && i < |ss|
    ensures forall j, k {:trigger ss[j].nodes[k]} :: 0 <= j < |ss| && j != i && 0 <= k < |ss[j].nodes| ==>
              ss[j].nodes[k] !in ss[i].nodes
    ensures forall j {:trigger ss[j]} :: 0 <= j < |ss| && j != i ==> ss[j] != ss[i]
  {
  }

  class NativeScopeManager {
    var root_: NativeScope?
    var current_: NativeScope?
    ghost var scopes: seq<NativeScope>
    ghost var handles: set<NativeHandle>
    ghost var frames: seq<ScopeStack.Frame<NativeValue?>>
    ghost var deleted: seq<NativeValue?>

    ghost function Model(): ScopeStack.Scopes<NativeValue?>
      reads this
    {
      ScopeStack.Scopes(frames, deleted)
    }

    ghost predicate ChainOk()
      reads `root_, `current_, `scopes, scopes`parent, scopes`child
    {
      && root_ == (if scopes == [] then null else scopes[0])
      && current_ == (if scopes == [] then null else scopes[|scopes| - 1])
      && Chained(scopes)
    }

    /** Every scope owns a proper handle list, and the lists are what the model says. */
    ghost predicate ListsOk()
      reads `scopes, `handles, `frames, handles
      reads scopes`handlePtr, scopes`handleCount, scopes`nodes, scopes`values, scopes`escaped
    {
      |frames| == |scopes| && Lists(scopes, frames, handles) && (scopes != [] ==> !scopes[0].escaped)
    }

    ghost predicate Valid()
      reads this, scopes, handles
    {
      ChainOk() && ListsOk()
    }

    /** What the methods may change beside `this` is old or newly allocated. */
    twostate predicate Grows()
      reads this
    {
      && (forall k :: 0 <= k < |scopes| ==> scopes[k] in old(scopes) || fresh(scopes[k]))
      && (forall h :: h in handles ==> h in old(handles) || fresh(h))
    }

    constructor ()
      ensures Valid() && Model() == ScopeStack.Initial()
      ensures |scopes| == 1 && fresh(scopes[0]) && handles == {}
    {
      var scope := new NativeScope();
      root_ := scope;
      current_ := scope;
      scopes := [scope];
      handles := {};
      frames := [ScopeStack.Frame(false, [])];
      deleted := [];
    }

    method Open() returns (scope: NativeScope?)
      requires Valid()
      modifies this, current_
      ensures Valid()
      ensures if old(current_) == null then scope == null && Model() == old(Model())
              else scope != null && fresh(scope) && scope == current_
                   && Model() == ScopeStack.Open(old(Model()), false) && scopes == old(scopes) + [scope]
      ensures Grows()
    {
      if current_ == null {
        return null;
      }
      var inner := new NativeScope();
      AppendScope(inner);
      return inner;
    }

    method AppendScope(inner: NativeScope)
      requires Valid() && current_ != null && inner !in scopes
      requires inner.ListOk() && inner.nodes == [] && inner.values == [] && !inner.escaped && inner.child == null
      modifies current_`child, inner`parent, `current_, `scopes, `frames
      ensures Valid() && current_ == inner && scopes == old(scopes) + [inner]
      ensures frames == old(frames) + [ScopeStack.Frame(false, [])]
    {
      hide NativeScope.ListOk, Lists, Distinct;
      ghost var was := scopes;
      assert inner !in was;
      DistinctAppend(scopes, inner);
      LastIsOnce(scopes);
      current_.child := inner;
      inner.parent := current_;
      current_ := inner;
      ListsAppend(scopes, frames, handles, inner);
      scopes := scopes + [inner];
      frames := frames + [ScopeStack.Frame(false, [])];
    }

    method OpenEscape() returns (scope: NativeScope?)
      requires Valid()
      modifies this, current_
      ensures Valid()
      ensures if old(current_) == null then scope == null && Model() == old(Model())
              else scope != null && fresh(scope) && scope == current_
                   && Model() == ScopeStack.Open(old(Model()), true) && scopes == old(scopes) + [scope]
      ensures Grows()
    {
      scope := Open();
      if scope != null {
        MarkEscapable();
      }
    }

    method MarkEscapable()
      requires Valid() && |scopes| > 1
      modifies current_`escaped, `frames
      ensures Valid()
      ensures frames == old(frames)[|scopes| - 1 := old(frames)[|scopes| - 1].(escapable := true)]
    {
      hide NativeScope.ListOk, Chained;
      current_.escaped := true;
      frames := frames[|frames| - 1 := frames[|frames| - 1].(escapable := true)];
      CurrentIsLast();
    }

    lemma CurrentIsLast()
      requires ChainOk() && scopes != []
      ensures current_ == scopes[|scopes| - 1]
      ensures forall i :: 0 <= i < |scopes| - 1 ==> scopes[i] != current_
    {
    }

    method CreateHandle(value: NativeValue?)
      requires Valid()
      modifies this, current_
      ensures Valid() && Model() == ScopeStack.Create(old(Model()), value) && scopes == old(scopes)
      ensures Grows()
    {
      hide NativeScope.ListOk, Chained, Lists;
      if current_ == null {
        return;
      }
      RootIsFirst();
      AddTo(current_, value, |scopes| - 1);
    }

    method AddTo(scope: NativeScope, value: NativeValue?, ghost i: nat)
      requires Lists(scopes, frames, handles) && Distinct(scopes) && i < |scopes| && scope == scopes[i]
      modifies scope`handlePtr, scope`handleCount, scope`nodes, scope`values, `handles, `frames
      ensures Lists(scopes, frames, handles)
      ensures frames == old(frames)[i := ScopeStack.Push(old(frames)[i], value)]
      ensures forall h :: h in handles ==> h in old(handles) || fresh(h)
    {
      ListsDisjoint(scopes, frames, handles, i);
      hide NativeScope.ListOk, Distinct;
      scope.AddHandle(value);
      handles := handles + set h | h in scope.nodes;
      frames := frames[i := ScopeStack.Push(frames[i], value)];
    }

    /**
      Closing scope `i` deletes what it owns and takes it out; the root and null are left alone. The chain
      stays well formed only if the scope was the current one: otherwise its child is left linked to a deleted
      scope.
     */
    method Close(scope: NativeScope?, ghost i: nat)
      requires Valid() && (scope != null ==> i < |scopes| && scope == scopes[i])
      modifies this, scopes
      ensures Valid() <==> scope == null || i == 0 || i == |old(scopes)| - 1
      ensures scope == null || i == 0 ==> Model() == old(Model()) && scopes == old(scopes)
      ensures scope != null && i > 0 ==>
                && ListsOk() && Model() == ScopeStack.CloseAt(old(Model()), i)
                && scopes == Without(old(scopes), i)
      ensures scope != null && 0 < i < |old(scopes)| - 1 ==>
                current_ == old(current_) && old(scopes)[i + 1].parent == scope && scope !in scopes
      ensures handles == old(handles)
    {
      hide NativeScope.ListOk, Lists, ChainOk, Distinct;
      if scope == null {
        return;
      }
      RootIsFirst();
      if scope == root_ {
        return;
      }
      ghost var open, held := scopes, frames;
      assert Lists(open, held, handles) && !open[0].escaped;
      ParentIsBefore(i);
      Unchain(scope, i);
      ListsWithout(open, held, handles, i);
      OneList(open, held, handles, i);
      ghost var gone := scope.DeleteHandles();
      deleted := deleted + gone;
      frames := Without(held, i);
    }

    lemma RootIsFirst()
      requires ChainOk() && scopes != []
      ensures root_ == scopes[0] && current_ == scopes[|scopes| - 1] && Distinct(scopes)
      ensures forall i :: 0 < i < |scopes| ==> scopes[i] != scopes[0]
    {
    }

    lemma ParentIsBefore(i: nat)
      requires ChainOk() && 0 < i < |scopes|
      ensures scopes[i].parent == scopes[i - 1] && scopes[i].parent in scopes && scopes[i - 1] != scopes[i]
    {
    }

    /** Take scope `i` out of the chain; that is right only for the last one, whose child is null. */
    method Unchain(scope: NativeScope, ghost i: nat)
      requires ChainOk() && 0 < i < |scopes| && scope == scopes[i]
      modifies scope.parent`child, `current_, `scopes
      ensures scopes == Without(old(scopes), i) && scope !in scopes
      ensures ChainOk() <==> i == |old(scopes)| - 1
      ensures i < |old(scopes)| - 1 ==> current_ == old(current_) && old(scopes)[i + 1].parent == scope
    {
      WithoutFacts(scopes, i);
      WithoutFacts(scopes, i - 1);
      hide Distinct;
      if scope == current_ {
        current_ := scope.parent;
      }
      scope.parent.child := scope.child;
      ghost var was := scopes;
      scopes := Without(scopes, i);
      if i < |was| - 1 {
        assert scopes[i] == was[i + 1] && scopes[i].parent == scope && scopes[i - 1] == was[i - 1];
      }
    }

    method CloseEscape(scope: NativeScope?, ghost i: nat)
      requires Valid() && (scope != null ==> i < |scopes| && scope == scopes[i])
      modifies this, scopes
      ensures Valid() <==> scope == null || i == 0 || i == |old(scopes)| - 1
      ensures scope == null || i == 0 ==> Model() == old(Model()) && scopes == old(scopes)
      ensures scope != null && i > 0 ==>
                && ListsOk() && Model() == ScopeStack.CloseAt(old(Model()), i)
                && scopes == Without(old(scopes), i)
      ensures scope != null && 0 < i < |old(scopes)| - 1 ==>
                current_ == old(current_) && old(scopes)[i + 1].parent == scope && scope !in scopes
      ensures handles == old(handles)
    {
      if scope == null {
        return;
      }
      Close(scope, i);
    }

    /** Only a scope opened as escapable, and holding the value, gives it to its parent. */
    method Escape(scope: NativeScope?, value: NativeValue?, ghost i: nat) returns (result: NativeValue?)
      requires Valid()
      requires scope != null ==> i < |scopes| && scope == scopes[i]
      modifies this, scopes, handles
      ensures Valid() && scopes == old(scopes)
      ensures scope == null || value == null ==> result == null && Model() == old(Model())
      ensures scope != null && value != null ==>
                && Model() == ScopeStack.Escape(old(Model()), i, value)
                && result == if ScopeStack.CanEscape(old(Model()), i, value) then value else null
      ensures handles == old(handles)
    {
      hide NativeScope.ListOk, Lists, Chained;
      result := null;
      if scope == null || value == null {
        return;
      }
      RootIsFirst();
      OneList(scopes, frames, handles, i);
      var handle := UnlinkFrom(scope, value, i);
      if handle != null {
        ParentIsBefore(i);
        result := value;
        LinkInto(scope.parent, handle, i - 1);
      }
    }

    /** The search half of `Escape`: the handle found is in no list any more. */
    method UnlinkFrom(scope: NativeScope, value: NativeValue, ghost i: nat) returns (handle: NativeHandle?)
      requires Lists(scopes, frames, handles) && Distinct(scopes) && i < |scopes| && scope == scopes[i]
      modifies scope`handlePtr, scope`handleCount, scope`nodes, scope`values, scope.nodes, `frames
      ensures Lists(scopes, frames, handles)
      ensures handle != null <==> scope.escaped && value in old(frames)[i].values
      ensures handle == null ==> frames == old(frames)
      ensures handle != null ==>
                && handle in handles && handle.value == value
                && (forall j :: 0 <= j < |scopes| ==> handle !in scopes[j].nodes)
                && frames == old(frames)[i := old(frames)[i].(values :=
                     Without(old(frames)[i].values, ScopeStack.IndexOf(old(frames)[i].values, value)))]
    {
      hide NativeScope.ListOk, Distinct;
      ListsDisjoint(scopes, frames, handles, i);
      ghost var was := scope.nodes;
      handle := scope.UnlinkHandle(value);
      forall j | 0 <= j < |scopes| && j != i
        ensures scopes[j].ListOk()
      {
        assert scopes[j].nodes == old(scopes[j].nodes);
        assert forall k :: 0 <= k < |scopes[j].nodes| ==> scopes[j].nodes[k] !in was;
      }
      frames := frames[i := frames[i].(values := scope.values)];
    }

    /** The other half: the handle goes to the front of the outer scope's list. */
    method LinkInto(scope: NativeScope, handle: NativeHandle, ghost i: nat)
      requires Lists(scopes, frames, handles) && Distinct(scopes) && i < |scopes| && scope == scopes[i]
      requires handle in handles && forall j :: 0 <= j < |scopes| ==> handle !in scopes[j].nodes
      modifies scope`handlePtr, scope`handleCount, scope`nodes, scope`values, handle`sibling, handle`home, `frames
      ensures Lists(scopes, frames, handles)
      ensures frames == old(frames)[i := ScopeStack.Push(old(frames)[i], handle.value)]
    {
      hide NativeScope.ListOk, Distinct;
      ListsDisjoint(scopes, frames, handles, i);
      scope.LinkHandle(handle);
      frames := frames[i := ScopeStack.Push(frames[i], handle.value)];
    }

    /** The destructor: from the root down, delete every handle, then the scope. */
    method Destroy()
      requires Valid()
      modifies this, scopes
      ensures Valid() && Model() == ScopeStack.Destroy(old(Model())) && root_ == null && current_ == null
      ensures scopes == []
    {
      hide NativeScope.ListOk, Lists, Distinct;
      var scope := root_;
      ghost var k: nat := 0;
      ghost var start, open, held := deleted, scopes, frames;
      assert open[0..] == open && held[0..] == held;
      while scope != null
        invariant k <= |open| == |held| && scope == if k < |open| then open[k] else null
        invariant Chained(open) && scopes == open && Lists(open[k..], held[k..], handles)
        invariant deleted + ScopeStack.AllValues(held[k..]) == start + ScopeStack.AllValues(held)
        decreases |open| - k
      {
        TailStep(open, held, handles, k);
        var tempScope := scope.child;
        ghost var gone := DeleteScope(scope, open[k + 1..], held[k + 1..]);
        ScopeStack.Assoc(deleted, gone, ScopeStack.AllValues(held[k + 1..]));
        deleted := deleted + gone;
        k := k + 1;
        scope := tempScope;
      }
      root_ := null;
      current_ := null;
      scopes, frames := [], [];
      DestroyedAll(start, held, k);
    }

    /** The handles of one scope go, those of the scopes after it stay. */
    method DeleteScope(scope: NativeScope, ghost rest: seq<NativeScope>,
                       ghost held: seq<ScopeStack.Frame<NativeValue?>>)
      returns (ghost gone: seq<NativeValue?>)
      requires scope.ListOk() && scope !in rest && Lists(rest, held, handles)
      modifies scope`handlePtr, scope`nodes, scope`values
      ensures gone == old(scope.values) && Lists(rest, held, handles)
    {
      hide NativeScope.ListOk, Distinct;
      gone := scope.DeleteHandles();
      forall i | 0 <= i < |rest|
        ensures rest[i].ListOk() && rest[i].nodes == old(rest[i].nodes) && rest[i].values == old(rest[i].values)
      {
        assert rest[i] in rest && rest[i] != scope;
      }
    }

    lemma DestroyedAll(start: seq<NativeValue?>, held: seq<ScopeStack.Frame<NativeValue?>>, k: nat)
      requires k == |held| && scopes == [] && frames == [] && root_ == null && current_ == null
      requires deleted + ScopeStack.AllValues(held[k..]) == start + ScopeStack.AllValues(held)
      ensures Valid() && deleted == start + ScopeStack.AllValues(held)
    {
      assert deleted + [] == deleted;
    }
  }

  // ----- Whole runs on the linked structure -----

  /** Escaping null does nothing, whatever the scopes hold. */
  function Effective(ops: seq<ScopeStack.Op<NativeValue?>>): seq<ScopeStack.Op<NativeValue?>> {
    if ops == [] then []
    else
      var before, op := Effective(ops[..|ops| - 1]), ops[|ops| - 1];
      if op.EscapeOp? && op.value == null then before else before + [op]
  }

  function Perform(s: ScopeStack.Scopes<NativeValue?>, op: ScopeStack.Op<NativeValue?>)
    : ScopeStack.Scopes<NativeValue?>
  {
    if op.EscapeOp? && op.value == null then s else ScopeStack.Apply(s, op)
  }

  lemma RunStep(ops: seq<ScopeStack.Op<NativeValue?>>, k: nat)
    requires k < |ops|
    ensures ScopeStack.Run(Effective(ops[..k + 1])) == Perform(ScopeStack.Run(Effective(ops[..k])), ops[k])
  {
    var now := ops[..k + 1];
    assert now[..|now| - 1] == ops[..k] && now[k] == ops[k];
    var before := Effective(ops[..k]);
    assert (before + [ops[k]])[..|before|] == before;
  }

  lemma {:induction false} EffectiveCreates(ops: seq<ScopeStack.Op<NativeValue?>>)
    ensures ScopeStack.Created(Effective(ops)) == ScopeStack.Created(ops)
  {
    if ops != [] {
      var front, op := ops[..|ops| - 1], ops[|ops| - 1];
      EffectiveCreates(front);
      assert (Effective(front) + [op])[..|Effective(front)|] == Effective(front);
    }
  }

  /** One call of a client that keeps the scopes it has opened, root first, and closes the current one only. */
  method Call(m: NativeScopeManager, open: seq<NativeScope>, op: ScopeStack.Op<NativeValue?>)
    returns (open': seq<NativeScope>)
    requires m.Valid() && open == m.scopes && open != []
    modifies m, m.scopes, m.handles
    ensures m.Valid() && open' == m.scopes && open' != []
    ensures m.Model() == Perform(old(m.Model()), op)
    ensures forall k :: 0 <= k < |m.scopes| ==> m.scopes[k] in old(m.scopes) || fresh(m.scopes[k])
    ensures forall h :: h in m.handles ==> h in old(m.handles) || fresh(h)
  {
    hide NativeScope.ListOk, Lists, Chained;
    open' := open;
    match op
    case OpenOp(escapable) =>
      var scope: NativeScope?;
      if escapable {
        scope := m.OpenEscape();
      } else {
        scope := m.Open();
      }
      open' := open + [scope];
    case CloseOp =>
      var last: nat := |open| - 1;
      m.Close(open[last], last);
      if last > 0 {
        ScopeStack.CloseIsCloseAt(old(m.Model()));
        open' := open[..last];
      }
    case CreateOp(value) => m.CreateHandle(value);
    case EscapeOp(i, value) =>
      if i < |open| {
        var _ := m.Escape(open[i], value, i);
      } else {
        var _ := m.Escape(null, value, 0);
      }
  }

  /**
    Theorem. Any sequence of calls on a new manager leaves a well-formed linked structure that holds what the
    same run leaves on a stack.
   */
  method Run(ops: seq<ScopeStack.Op<NativeValue?>>) returns (m: NativeScopeManager)
    ensures fresh(m) && m.Valid() && m.Model() == ScopeStack.Run(Effective(ops))
    ensures fresh(m.scopes) && fresh(m.handles)
  {
    hide NativeScopeManager.Valid, ScopeStack.Run, Effective, Perform;
    m := new NativeScopeManager();
    var open := StartOf(m);
    var k: nat := 0;
    NothingRun(ops);
    while k < |ops|
      invariant k <= |ops| && fresh(m) && m.Valid() && open == m.scopes && open != []
      invariant m.Model() == ScopeStack.Run(Effective(ops[..k]))
      invariant fresh(m.scopes) && fresh(m.handles)
    {
      RunStep(ops, k);
      open := Call(m, open, ops[k]);
      k := k + 1;
    }
    assert ops[..k] == ops;
  }

  method StartOf(m: NativeScopeManager) returns (open: seq<NativeScope>)
    requires m.Valid() && |m.scopes| == 1
    ensures open == m.scopes
  {
    open := [m.root_];
  }

  lemma NothingRun(ops: seq<ScopeStack.Op<NativeValue?>>)
    ensures ScopeStack.Run(Effective(ops[..0])) == ScopeStack.Initial()
  {
  }

  /** Theorem. After any such run the destructor has deleted every value created, each as often as it was. */
  method RunAndDestroy(ops: seq<ScopeStack.Op<NativeValue?>>) returns (m: NativeScopeManager)
    ensures fresh(m) && m.scopes == [] && m.root_ == null
    ensures multiset(m.deleted) == multiset(ScopeStack.Created(ops))
    ensures Distinct(ScopeStack.Created(ops)) ==> Distinct(m.deleted)
  {
    hide NativeScopeManager.Valid, ScopeStack.Run, Distinct, Effective;
    m := Run(ops);
    m.Destroy();
    EffectiveCreates(ops);
    ScopeStack.DestroyDeletesEachOnce(Effective(ops));
  }
}
