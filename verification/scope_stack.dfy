/**
  Handle scopes as values: a stack of frames, each owning the values of its handles, newest first.
 */
module ScopeStack {
  import opened Sequences

  datatype Frame<T> = Frame(escapable: bool, values: seq<T>)

  /** The scopes from the root to the current one, and what has been deleted, in order. */
  datatype Scopes<T> = Scopes(frames: seq<Frame<T>>, deleted: seq<T>)

  function Initial<T>(): Scopes<T> {
    Scopes([Frame(false, [])], [])
  }

  function Open<T>(s: Scopes<T>, escapable: bool): Scopes<T> {
    s.(frames := s.frames + [Frame(escapable, [])])
  }

  /** Closing the current scope deletes its values; the root stays. */
  function Close<T>(s: Scopes<T>): Scopes<T> {
    if |s.frames| <= 1 then s
    else Scopes(s.frames[..|s.frames| - 1], s.deleted + s.frames[|s.frames| - 1].values)
  }

  /** Closing scope `i`, wherever it stands, deletes its values and leaves all other scopes as they are. */
  function CloseAt<T>(s: Scopes<T>, i: nat): Scopes<T>
    requires i < |s.frames|
  {
    Scopes(Without(s.frames, i), s.deleted + s.frames[i].values)
  }

  lemma CloseIsCloseAt<T>(s: Scopes<T>)
    requires |s.frames| > 1
    ensures Close(s) == CloseAt(s, |s.frames| - 1)
  {
  }

  function Push<T>(frame: Frame<T>, v: T): Frame<T> {
    frame.(values := [v] + frame.values)
  }

  function Create<T>(s: Scopes<T>, v: T): Scopes<T> {
    if s.frames == [] then s
    else
      var top := |s.frames| - 1;
      s.(frames := s.frames[top := Push(s.frames[top], v)])
  }

  /** Where `v` first occurs in `values`, its length when it does not. */
  function IndexOf<T(==)>(values: seq<T>, v: T): (i: nat)
    ensures i <= |values|
    ensures i < |values| ==> values[i] == v
    ensures v !in values[..i]
    ensures v in values <==> i < |values|
  {
    if values == [] || values[0] == v then 0 else 1 + IndexOf(values[1..], v)
  }

  predicate CanEscape<T(==)>(s: Scopes<T>, i: nat, v: T)
    requires i < |s.frames|
  {
    i > 0 && s.frames[i].escapable && v in s.frames[i].values
  }

  /** `Escape` from scope `i`: the handle of `v` moves to the front of the parent's list. */
  function Escape<T(==)>(s: Scopes<T>, i: nat, v: T): Scopes<T>
    requires i < |s.frames|
  {
    if CanEscape(s, i, v) then
      var inner, outer := s.frames[i], s.frames[i - 1];
      s.(frames := s.frames[i := inner.(values := Without(inner.values, IndexOf(inner.values, v)))]
                           [i - 1 := Push(outer, v)])
    else s
  }

  /** The destructor walks from the root down and deletes everything. */
  function Destroy<T>(s: Scopes<T>): Scopes<T> {
    Scopes([], s.deleted + AllValues(s.frames))
  }

  function AllValues<T>(frames: seq<Frame<T>>): seq<T> {
    if frames == [] then [] else frames[0].values + AllValues(frames[1..])
  }

  // ----- Runs -----

  datatype Op<T> =
    | OpenOp(escapable: bool)
    | CloseOp
    | CreateOp(value: T)
    | EscapeOp(scope: nat, value: T)

  function Apply<T(==)>(s: Scopes<T>, op: Op<T>): Scopes<T> {
    match op
    case OpenOp(escapable) => Open(s, escapable)
    case CloseOp => Close(s)
    case CreateOp(v) => Create(s, v)
    case EscapeOp(i, v) => if i < |s.frames| then Escape(s, i, v) else s
  }

  function Run<T(==)>(ops: seq<Op<T>>): Scopes<T> {
    if ops == [] then Initial() else Apply(Run(ops[..|ops| - 1]), ops[|ops| - 1])
  }

  function Created<T>(ops: seq<Op<T>>): seq<T> {
    if ops == [] then []
    else
      var before, op := Created(ops[..|ops| - 1]), ops[|ops| - 1];
      if op.CreateOp? then before + [op.value] else before
  }

  /** The values owned by some open scope. */
  function Owned<T>(frames: seq<Frame<T>>): multiset<T> {
    multiset(AllValues(frames))
  }

  // ----- Conservation -----

  lemma Assoc<T>(a: seq<T>, b: seq<T>, c: seq<T>)
    ensures a + (b + c) == a + b + c
  {
  }

  lemma {:induction false} AllValuesConcat<T>(a: seq<Frame<T>>, b: seq<Frame<T>>)
    ensures AllValues(a + b) == AllValues(a) + AllValues(b)
  {
    if a == [] {
      assert a + b == b;
    } else {
      var ab := a + b;
      assert ab[0] == a[0] && ab[1..] == a[1..] + b;
      AllValuesConcat(a[1..], b);
      Assoc(a[0].values, AllValues(a[1..]), AllValues(b));
    }
  }

  lemma OwnedSplit<T>(frames: seq<Frame<T>>, i: nat)
    requires i < |frames|
    ensures Owned(frames) == Owned(frames[..i]) + multiset(frames[i].values) + Owned(frames[i + 1..])
  {
    assert frames == frames[..i] + ([frames[i]] + frames[i + 1..]);
    AllValuesConcat(frames[..i], [frames[i]] + frames[i + 1..]);
    AllValuesConcat([frames[i]], frames[i + 1..]);
    assert AllValues([frames[i]]) == frames[i].values;
  }

  lemma Cancel<T>(a: multiset<T>, b: multiset<T>, c: multiset<T>, gained: multiset<T>)
    requires a + c == b + (gained + c)
    ensures a == b + gained
  {
    forall x
      ensures a[x] == (b + gained)[x]
    {
      assert (a + c)[x] == (b + (gained + c))[x];
    }
  }

  /** Replacing one frame changes the owned values by what that frame gains and loses. */
  lemma OwnedUpdate<T>(frames: seq<Frame<T>>, i: nat, f: Frame<T>)
    requires i < |frames|
    ensures Owned(frames[i := f]) + multiset(frames[i].values) == Owned(frames) + multiset(f.values)
  {
    OwnedSplit(frames, i);
    OwnedSplit(frames[i := f], i);
    assert frames[i := f][..i] == frames[..i] && frames[i := f][i + 1..] == frames[i + 1..];
  }

  lemma EscapeKeepsOwned<T>(s: Scopes<T>, i: nat, v: T)
    requires i < |s.frames| && CanEscape(s, i, v)
    ensures Owned(Escape(s, i, v).frames) == Owned(s.frames)
  {
    hide Owned, Without, IndexOf;
    var inner, outer := s.frames[i], s.frames[i - 1];
    var inner' := inner.(values := Without(inner.values, IndexOf(inner.values, v)));
    var mid := s.frames[i := inner'];
    WithoutLosesOne(inner.values, IndexOf(inner.values, v));
    OwnedUpdate(s.frames, i, inner');
    Cancel(Owned(s.frames), Owned(mid), multiset(inner'.values), multiset{v});
    OwnedUpdate(mid, i - 1, Push(outer, v));
    assert multiset([v] + outer.values) == multiset{v} + multiset(outer.values);
    Cancel(Owned(mid[i - 1 := Push(outer, v)]), Owned(mid), multiset(outer.values), multiset{v});
  }

  /**
    Theorem. `Escape` is a move: no value is gained or lost, every other frame is untouched, the moved
    value stands first in the parent and all other values keep their order.
   */
  lemma EscapeIsMove<T>(s: Scopes<T>, i: nat, v: T)
    requires i < |s.frames| && CanEscape(s, i, v)
    ensures var s' := Escape(s, i, v);
            && s'.deleted == s.deleted && |s'.frames| == |s.frames|
            && Owned(s'.frames) == Owned(s.frames)
            && s'.frames[i - 1].values == [v] + s.frames[i - 1].values
            && |s'.frames[i].values| == |s.frames[i].values| - 1
            && (exists k :: 0 <= k < |s.frames[i].values| && s.frames[i].values[k] == v
                            && s'.frames[i].values == s.frames[i].values[..k] + s.frames[i].values[k + 1..])
            && (forall j :: 0 <= j < |s.frames| && j != i && j != i - 1 ==> s'.frames[j] == s.frames[j])
  {
    EscapeKeepsOwned(s, i, v);
    hide Owned;
    var k := IndexOf(s.frames[i].values, v);
    assert s.frames[i].values[k] == v;
  }

  /** Theorem. A value escaped from the current scope survives its closing, at the head of the new current scope. */
  lemma EscapedSurvivesClose<T>(s: Scopes<T>, v: T)
    requires |s.frames| > 1 && CanEscape(s, |s.frames| - 1, v)
    ensures var top := |s.frames| - 1;
            var s' := Close(Escape(s, top, v));
            && s'.frames == s.frames[..top][top - 1 := Push(s.frames[top - 1], v)]
            && multiset(s'.deleted) + multiset{v} == multiset(Close(s).deleted)
  {
    var top := |s.frames| - 1;
    var inner, outer := s.frames[top], s.frames[top - 1];
    var k := IndexOf(inner.values, v);
    WithoutLosesOne(inner.values, k);
    hide IndexOf, Without;
    UpdatedTop(s.frames, inner.(values := Without(inner.values, k)), Push(outer, v));
  }

  lemma UpdatedTop<T>(frames: seq<T>, last: T, before: T)
    requires |frames| > 1
    ensures var top := |frames| - 1;
            var s := frames[top := last][top - 1 := before];
            s[..top] == frames[..top][top - 1 := before] && s[top] == last
  {
  }

  lemma CreateConserves<T>(s: Scopes<T>, v: T)
    requires s.frames != []
    ensures Owned(Create(s, v).frames) == Owned(s.frames) + multiset{v}
  {
    hide Owned;
    var top := |s.frames| - 1;
    OwnedUpdate(s.frames, top, Push(s.frames[top], v));
    assert multiset(Push(s.frames[top], v).values) == multiset{v} + multiset(s.frames[top].values);
    Cancel(Owned(Create(s, v).frames), Owned(s.frames), multiset(s.frames[top].values), multiset{v});
  }

  lemma OpenConserves<T>(s: Scopes<T>, escapable: bool)
    ensures Owned(Open(s, escapable).frames) == Owned(s.frames)
  {
    AllValuesConcat(s.frames, [Frame(escapable, [])]);
  }

  lemma CloseConserves<T>(s: Scopes<T>)
    requires |s.frames| > 1
    ensures Owned(Close(s).frames) + multiset(s.frames[|s.frames| - 1].values) == Owned(s.frames)
  {
    OwnedSplit(s.frames, |s.frames| - 1);
  }

  /** Closing a scope out of order gains and loses no value either. */
  lemma CloseAtConserves<T>(s: Scopes<T>, i: nat)
    requires i < |s.frames|
    ensures var r := CloseAt(s, i);
            Owned(r.frames) + multiset(r.deleted) == Owned(s.frames) + multiset(s.deleted)
  {
    OwnedSplit(s.frames, i);
    AllValuesConcat(s.frames[..i], s.frames[i + 1..]);
  }

  lemma ApplyConserves<T>(s: Scopes<T>, op: Op<T>)
    requires s.frames != []
    ensures Apply(s, op).frames != [] && s.deleted <= Apply(s, op).deleted
    ensures Owned(Apply(s, op).frames) + multiset(Apply(s, op).deleted)
            == Owned(s.frames) + multiset(s.deleted) + (if op.CreateOp? then multiset{op.value} else multiset{})
  {
    hide Owned, IndexOf;
    match op
    case OpenOp(escapable) => OpenConserves(s, escapable);
    case CloseOp =>
      if |s.frames| > 1 {
        CloseConserves(s);
      }
    case CreateOp(v) => CreateConserves(s, v);
    case EscapeOp(i, v) =>
      if i < |s.frames| && CanEscape(s, i, v) {
        EscapeKeepsOwned(s, i, v);
      }
  }

  /** Theorem. In every run, each value created is owned by exactly one open scope or has been deleted, never both. */
  lemma {:induction false} RunConserves<T>(ops: seq<Op<T>>)
    ensures Run(ops).frames != []
    ensures multiset(Created(ops)) == Owned(Run(ops).frames) + multiset(Run(ops).deleted)
  {
    if ops != [] {
      var front, op := ops[..|ops| - 1], ops[|ops| - 1];
      RunConserves(front);
      ApplyConserves(Run(front), op);
    }
  }

  /** Theorem. After the destructor every created value has been deleted, each exactly once if they were distinct. */
  lemma DestroyDeletesEachOnce<T>(ops: seq<Op<T>>)
    ensures multiset(Destroy(Run(ops)).deleted) == multiset(Created(ops))
    ensures Distinct(Created(ops)) ==> Distinct(Destroy(Run(ops)).deleted)
  {
    RunConserves(ops);
    var deleted := Destroy(Run(ops)).deleted;
    assert multiset(deleted) == multiset(Created(ops));
    DistinctByCount(Created(ops));
    DistinctByCount(deleted);
    forall v | v in deleted
      ensures v in Created(ops)
    {
      assert v in multiset(deleted);
    }
  }

  // ----- What the calls do to one another -----

  lemma InitialTells<T>()
    ensures Initial<T>().frames == [Frame(false, [])] && Initial<T>().deleted == []
  {
  }

  /** The values of `vs`, created one after the other. */
  function CreateAll<T>(s: Scopes<T>, vs: seq<T>): (r: Scopes<T>)
    ensures |r.frames| == |s.frames|
  {
    if vs == [] then s else Create(CreateAll(s, vs[..|vs| - 1]), vs[|vs| - 1])
  }

  /** A new scope on top of unchanged ones, with the values created in it, newest first. */
  lemma {:induction false} OpenThenCreate<T>(s: Scopes<T>, escapable: bool, vs: seq<T>)
    requires s.frames != []
    ensures CreateAll(Open(s, escapable), vs)
            == Scopes(s.frames + [Frame(escapable, Reverse(vs))], s.deleted)
  {
    if vs != [] {
      var front, last := vs[..|vs| - 1], vs[|vs| - 1];
      OpenThenCreate(s, escapable, front);
      var before := s.frames + [Frame(escapable, Reverse(front))];
      assert before[|s.frames| := Frame(escapable, [last] + Reverse(front))]
          == s.frames + [Frame(escapable, [last] + Reverse(front))];
    }
  }

  /**
    Theorem. Opening a scope, creating values in it and closing it again restores the scopes as they were, and
    deletes exactly those values, newest first.
   */
  lemma OpenCreateClose<T>(s: Scopes<T>, escapable: bool, vs: seq<T>)
    requires s.frames != []
    ensures Close(CreateAll(Open(s, escapable), vs)) == s.(deleted := s.deleted + Reverse(vs))
  {
    OpenThenCreate(s, escapable, vs);
    assert (s.frames + [Frame(escapable, Reverse(vs))])[..|s.frames|] == s.frames;
  }

  /** Theorem. From a scope that was not opened as escapable nothing escapes, whatever was created in it. */
  lemma NothingEscapesPlainScope<T>(s: Scopes<T>, vs: seq<T>, v: T)
    requires s.frames != []
    ensures var open := CreateAll(Open(s, false), vs); Escape(open, |s.frames|, v) == open
  {
    OpenThenCreate(s, false, vs);
  }

  /**
    Theorem. From a scope opened as escapable, exactly the values created in it escape: the newest handle of the
    value leaves the scope, and the value stands first in the scope that was current before.
   */
  lemma OpenEscapeThenEscape<T>(s: Scopes<T>, vs: seq<T>, v: T)
    requires s.frames != []
    ensures var open, top := CreateAll(Open(s, true), vs), |s.frames| - 1;
            var outer := s.frames[top].(values := [v] + s.frames[top].values);
            if v !in vs then Escape(open, top + 1, v) == open
            else exists k :: 0 <= k < |vs| && Reverse(vs)[k] == v && v !in Reverse(vs)[..k]
                   && Escape(open, top + 1, v)
                      == Scopes(s.frames[..top] + [outer, Frame(true, Without(Reverse(vs), k))], s.deleted)
  {
    OpenThenCreate(s, true, vs);
    ReverseHas(vs);
    if v in vs {
      EscapeFromTop(s, Reverse(vs), v);
    }
  }

  lemma EscapeFromTop<T>(s: Scopes<T>, values: seq<T>, v: T)
    requires s.frames != [] && v in values
    ensures var top, k := |s.frames| - 1, IndexOf(values, v);
            var outer := s.frames[top].(values := [v] + s.frames[top].values);
            && k < |values| && values[k] == v && v !in values[..k]
            && Escape(Scopes(s.frames + [Frame(true, values)], s.deleted), top + 1, v)
               == Scopes(s.frames[..top] + [outer, Frame(true, Without(values, k))], s.deleted)
  {
    hide IndexOf, Without;
    var top, k := |s.frames| - 1, IndexOf(values, v);
    var open := Scopes(s.frames + [Frame(true, values)], s.deleted);
    UpdateLastTwo(s.frames, Frame(true, values), Push(s.frames[top], v), Frame(true, Without(values, k)));
    assert open.frames[top + 1] == Frame(true, values);
    assert open.frames[top] == s.frames[top];
    assert CanEscape(open, top + 1, v);
  }

  lemma UpdateLastTwo<T>(frames: seq<T>, last: T, before: T, last': T)
    requires frames != []
    ensures (frames + [last])[|frames| := last'][|frames| - 1 := before] == frames[..|frames| - 1] + [before, last']
  {
  }

  /** One value: it moves to the front of the scope below, and an empty scope is left on top. */
  lemma EscapeOne<T>(s: Scopes<T>, v: T)
    requires s.frames != []
    ensures var top := |s.frames| - 1;
            Escape(Create(Open(s, true), v), top + 1, v)
            == Scopes(s.frames[..top] + [s.frames[top].(values := [v] + s.frames[top].values), Frame(true, [])],
                      s.deleted)
  {
    assert CreateAll(Open(s, true), [v]) == Create(Open(s, true), v) by {
      assert [v][..0] == [];
    }
    assert Reverse([v]) == [v];
    OpenEscapeThenEscape(s, [v], v);
    assert Without([v], 0) == [];
  }

  /**
    `Escape` changes something if and only if the scope is not the root, was opened as escapable and has the
    value somewhere in its list; the newest handle of the value is the one that moves.
   */
  lemma EscapeMovesExactly<T>(s: Scopes<T>, i: nat, v: T)
    requires i < |s.frames|
    ensures Escape(s, i, v) != s <==> i > 0 && s.frames[i].escapable && v in s.frames[i].values
    ensures Escape(s, i, v) != s ==>
              exists k :: 0 <= k < |s.frames[i].values| && s.frames[i].values[k] == v
                && v !in s.frames[i].values[..k]
                && Escape(s, i, v).frames[i] == Frame(true, Without(s.frames[i].values, k))
                && Escape(s, i, v).frames[i - 1] == s.frames[i - 1].(values := [v] + s.frames[i - 1].values)
  {
    if i > 0 && s.frames[i].escapable && v in s.frames[i].values {
      var k := IndexOf(s.frames[i].values, v);
      assert s.frames[i].values[k] == v;
      assert |Escape(s, i, v).frames[i].values| == |s.frames[i].values| - 1;
    }
  }
}
