/**
  `NativeReferenceManager` and the references that register with it: a singly linked list of handlers,
  whose destructor deletes references that in turn release handlers and delete other references.

  `delete` is recorded in the ghost sequences `destroyed` and `freed`. What a finalizer deletes is its
  reference's `victims`. Deleting a reference that is gone, that is being deleted or whose own finalizer is
  running is undefined behaviour, so a victim is deleted when it is still registered and not `busy`.
 */
module ReferenceManager {
  import opened Sequences

  class ArkNativeReference {
    var refCount_: nat
    var weak: bool
    var callback_: bool
    const victims: seq<ArkNativeReference>
    ghost const owed: nat  // how often the finalizer is to run: once if there is one
    ghost var finalizerRuns: nat

    /** The finalizer has run, or is still pending; the value is weak exactly while nobody counts on it. */
    ghost predicate CountOk()
      reads this
    {
      finalizerRuns + (if callback_ then 1 else 0) == owed <= 1 && (weak <==> refCount_ == 0)
    }

    /** The end of a reference: nothing pending, the finalizer run as often as it should. */
    ghost predicate Settled()
      reads this
    {
      !callback_ && finalizerRuns == owed <= 1 && refCount_ == 0 && weak
    }

    /** A reference that deletes itself registers with the engine's manager, where there is one. */
    constructor (manager: NativeReferenceManager?, initialRefcount: nat, deleteSelf: bool, hasCallback: bool,
                 victims: seq<ArkNativeReference>)
      requires manager != null ==> manager.Valid() && manager.Accounts() && manager.HandlerAccounts()
      modifies if manager != null && deleteSelf then {manager} else {}
      ensures CountOk() && refCount_ == initialRefcount && callback_ == hasCallback && finalizerRuns == 0
      ensures this.victims == victims && owed == if hasCallback then 1 else 0
      ensures manager != null && deleteSelf ==>
                && manager.Valid() && manager.Accounts() && manager.HandlerAccounts()
                && manager.registered == [this] + old(manager.registered)
                && manager.destroyed == old(manager.destroyed) && manager.freed == old(manager.freed)
                && manager.handlers != [] && fresh(manager.handlers[0])
                && manager.handlers[1..] == old(manager.handlers)
    {
      refCount_, weak, callback_, finalizerRuns := initialRefcount, initialRefcount == 0, hasCallback, 0;
      owed := if hasCallback then 1 else 0;
      this.victims := victims;
      new;
      if deleteSelf {
        if manager != null {
          manager.CreateHandler(this);
        }
      }
    }

    method Ref() returns (count: nat)
      requires CountOk()
      modifies this
      ensures CountOk() && count == refCount_ == old(refCount_) + 1
      ensures callback_ == old(callback_) && finalizerRuns == old(finalizerRuns)
    {
      refCount_ := refCount_ + 1;
      if refCount_ == 1 {
        weak := false;
      }
      return refCount_;
    }

    /**
      The last `Unref` of a reference whose finalizer deletes no other. The finalizer is forgotten only after
      it has run, so one that deletes its own reference is run again by the destructor.
     */
    method UnrefLast()
      requires CountOk() && refCount_ == 1
      modifies this
      ensures finalizerRuns == old(finalizerRuns) + if !old(callback_) then 0 else if this in victims then 2 else 1
    {
      refCount_ := refCount_ - 1;
      weak := true;
      FinalizeAlone(false);
    }

    /** `deleted`: the destructor is at work; deleting the reference once more is outside the model. */
    method FinalizeAlone(deleted: bool)
      modifies this
      ensures !callback_
      ensures finalizerRuns == old(finalizerRuns)
              + if !old(callback_) then 0 else if this in victims && !deleted then 2 else 1
      decreases !deleted
    {
      if callback_ {
        finalizerRuns := finalizerRuns + 1;
        if this in victims && !deleted {
          weak := true;
          refCount_ := 0;
          FinalizeAlone(true);
        }
      }
      callback_ := false;
    }
  }

  // ----- What a finalizer takes with it -----

  /**
    `to` is reached from `from` in `n` steps, each from a reference whose finalizer is pending to one of its
    victims that is live.
   */
  ghost predicate ReachesIn(pending: set<ArkNativeReference>, live: set<ArkNativeReference>,
                            from: ArkNativeReference, to: ArkNativeReference, n: nat) {
    if n == 0 then from == to
    else from in pending && exists v :: v in from.victims && v in live && ReachesIn(pending, live, v, to, n - 1)
  }

  ghost predicate Reaches(pending: set<ArkNativeReference>, live: set<ArkNativeReference>,
                          from: ArkNativeReference, to: ArkNativeReference) {
    exists n: nat :: ReachesIn(pending, live, from, to, n)
  }

  /** Whatever is gone has taken its live victims with it. */
  ghost predicate Closed(pending: set<ArkNativeReference>, live: set<ArkNativeReference>,
                         gone: set<ArkNativeReference>) {
    forall x, v :: x in gone && x in pending && v in x.victims && v in live ==> v in gone
  }

  /** Deleting `r` has deleted `gone`: `r`, what it reaches, and nothing else. */
  ghost predicate Cascade(pending: set<ArkNativeReference>, live: set<ArkNativeReference>, r: ArkNativeReference,
                          gone: set<ArkNativeReference>) {
    r in gone && (forall x :: x in gone ==> Reaches(pending, live, r, x)) && Closed(pending, live, gone)
  }

  /** The finalizer of `r` has dealt with its first `i` victims, which took `gone` with them. */
  ghost predicate VictimsGone(pending: set<ArkNativeReference>, live: set<ArkNativeReference>,
                              r: ArkNativeReference, gone: set<ArkNativeReference>, i: nat)
    requires i <= |r.victims|
  {
    && (forall x :: x in gone ==> Reaches(pending, live, r, x)) && Closed(pending, live, gone)
    && forall j :: 0 <= j < i && r.victims[j] in live ==> r.victims[j] in gone
  }

  lemma {:induction false} ReachesMore(pending: set<ArkNativeReference>, live: set<ArkNativeReference>,
                                       pending': set<ArkNativeReference>, live': set<ArkNativeReference>,
                                       from: ArkNativeReference, to: ArkNativeReference, n: nat)
    requires ReachesIn(pending, live, from, to, n) && pending <= pending' && live <= live'
    ensures ReachesIn(pending', live', from, to, n)
  {
    if n > 0 {
      var v :| v in from.victims && v in live && ReachesIn(pending, live, v, to, n - 1);
      ReachesMore(pending, live, pending', live', v, to, n - 1);
    }
  }

  lemma ReachesThrough(pending: set<ArkNativeReference>, live: set<ArkNativeReference>, r: ArkNativeReference,
                       v: ArkNativeReference, to: ArkNativeReference)
    requires r in pending && v in r.victims && v in live && Reaches(pending, live, v, to)
    ensures Reaches(pending, live, r, to)
  {
    var n: nat :| ReachesIn(pending, live, v, to, n);
    assert ReachesIn(pending, live, r, to, n + 1);
  }

  lemma {:induction false} ClosedKeepsReached(pending: set<ArkNativeReference>, live: set<ArkNativeReference>,
                                              gone: set<ArkNativeReference>, from: ArkNativeReference,
                                              to: ArkNativeReference, n: nat)
    requires Closed(pending, live, gone) && from in gone && ReachesIn(pending, live, from, to, n)
    ensures to in gone
  {
    if n > 0 {
      var v :| v in from.victims && v in live && ReachesIn(pending, live, v, to, n - 1);
      ClosedKeepsReached(pending, live, gone, v, to, n - 1);
    }
  }

  /** Theorem. A deletion takes a reference with it if and only if it reaches it through pending finalizers. */
  lemma CascadeExactly(pending: set<ArkNativeReference>, live: set<ArkNativeReference>, r: ArkNativeReference,
                       gone: set<ArkNativeReference>, x: ArkNativeReference)
    requires Cascade(pending, live, r, gone)
    ensures x in gone <==> Reaches(pending, live, r, x)
  {
    if Reaches(pending, live, r, x) {
      var n: nat :| ReachesIn(pending, live, r, x, n);
      ClosedKeepsReached(pending, live, gone, r, x, n);
    }
  }

  /** One victim more: deleting it, among what is still live, has deleted `more`. */
  lemma NextVictimGone(pending: set<ArkNativeReference>, live: set<ArkNativeReference>, r: ArkNativeReference,
                       gone: set<ArkNativeReference>, i: nat, pending': set<ArkNativeReference>,
                       more: set<ArkNativeReference>)
    requires i < |r.victims| && r in pending && VictimsGone(pending, live, r, gone, i)
    requires r.victims[i] in live && pending' <= pending
    requires forall x :: x in more && x in pending ==> x in pending'
    requires Cascade(pending', live - gone, r.victims[i], more)
    ensures VictimsGone(pending, live, r, gone + more, i + 1)
  {
    hide Reaches;
    var v := r.victims[i];
    forall x | x in more
      ensures Reaches(pending, live, r, x)
    {
      ReachedAmongMore(pending', live - gone, pending, live, v, x);
      ReachesThrough(pending, live, r, v, x);
    }
  }

  lemma ReachedAmongMore(pending: set<ArkNativeReference>, live: set<ArkNativeReference>,
                         pending': set<ArkNativeReference>, live': set<ArkNativeReference>,
                         from: ArkNativeReference, to: ArkNativeReference)
    requires Reaches(pending, live, from, to) && pending <= pending' && live <= live'
    ensures Reaches(pending', live', from, to)
  {
    var n: nat :| ReachesIn(pending, live, from, to, n);
    ReachesMore(pending, live, pending', live', from, to, n);
  }

  /** The victim is not live, or already gone: nothing to do for it. */
  lemma VictimSkipped(pending: set<ArkNativeReference>, live: set<ArkNativeReference>, r: ArkNativeReference,
                      gone: set<ArkNativeReference>, i: nat)
    requires i < |r.victims| && VictimsGone(pending, live, r, gone, i)
    requires r.victims[i] in live ==> r.victims[i] in gone
    ensures VictimsGone(pending, live, r, gone, i + 1)
  {
    hide Reaches, Closed;
  }

  lemma ReachesItself(pending: set<ArkNativeReference>, live: set<ArkNativeReference>, r: ArkNativeReference)
    ensures Reaches(pending, live, r, r)
  {
    assert ReachesIn(pending, live, r, r, 0);
  }

  /** Once all victims are dealt with and `r` itself is gone, the deletion is complete. */
  lemma CascadeCompletes(pending: set<ArkNativeReference>, live: set<ArkNativeReference>, r: ArkNativeReference,
                         gone: set<ArkNativeReference>)
    requires r !in live
    requires r in pending ==> VictimsGone(pending, live, r, gone, |r.victims|)
    requires r !in pending ==> gone == {}
    ensures Cascade(pending, live, r, gone + {r})
  {
    ReachesItself(pending, live, r);
    hide Reaches;
  }

  /** It makes no difference whether `r` itself counts as live. */
  lemma CascadeWithItself(pending: set<ArkNativeReference>, live: set<ArkNativeReference>, r: ArkNativeReference,
                          gone: set<ArkNativeReference>)
    requires Cascade(pending, live - {r}, r, gone)
    ensures Cascade(pending, live, r, gone)
  {
    hide Reaches;
    forall x | x in gone
      ensures Reaches(pending, live, r, x)
    {
      ReachedAmongMore(pending, live - {r}, pending, live, r, x);
    }
  }

  class NativeReferenceHandler {
    var reference: ArkNativeReference
    var next: NativeReferenceHandler?

    constructor (reference: ArkNativeReference)
      ensures this.reference == reference && next == null
    {
      this.reference, next := reference, null;
    }
  }

  class NativeReferenceManager {
    var referenceHandlers_: NativeReferenceHandler?
    ghost var handlers: seq<NativeReferenceHandler>
    ghost var registered: seq<ArkNativeReference>
    ghost var destroyed: seq<ArkNativeReference>
    ghost var freed: seq<NativeReferenceHandler>

    ghost function At(k: nat): NativeReferenceHandler?
      reads `handlers
    {
      if k < |handlers| then handlers[k] else null
    }

    /** `handlers` is the list, `registered` what it holds; each reference is registered once. */
    ghost predicate Valid()
      reads `referenceHandlers_, `handlers, `registered, handlers
    {
      && |registered| == |handlers|
      && referenceHandlers_ == At(0)
      && (forall k {:trigger handlers[k].next} :: 0 <= k < |handlers| ==> handlers[k].next == At(k + 1))
      && (forall k {:trigger handlers[k].reference} :: 0 <= k < |handlers| ==> handlers[k].reference == registered[k])
      && Distinct(handlers) && Distinct(registered)
    }

    constructor ()
      ensures Valid() && Accounts() && HandlerAccounts()
      ensures handlers == [] && registered == [] && destroyed == [] && freed == []
    {
      referenceHandlers_, handlers, registered, destroyed, freed := null, [], [], [], [];
    }

    method CreateHandler(reference: ArkNativeReference)
      requires Valid() && reference !in registered
      modifies `referenceHandlers_, `handlers, `registered
      ensures Valid() && registered == [reference] + old(registered)
      ensures handlers != [] && fresh(handlers[0]) && handlers[1..] == old(handlers)
      ensures old(Accounts()) && reference !in destroyed && reference.CountOk() ==> Accounts()
      ensures old(HandlerAccounts()) ==> HandlerAccounts()
    {
      var temp := new NativeReferenceHandler(reference);
      temp.next := referenceHandlers_;
      referenceHandlers_ := temp;
      handlers := [temp] + handlers;
      registered := [reference] + registered;
    }

    /** Unlink and free the handler of `reference`; without one nothing happens. */
    method ReleaseHandler(reference: ArkNativeReference)
      requires Valid()
      modifies `referenceHandlers_, `handlers, `registered, `freed, handlers`next
      ensures Valid()
      ensures reference !in old(registered) ==>
                registered == old(registered) && handlers == old(handlers) && freed == old(freed)
      ensures reference in old(registered) ==>
                exists k :: 0 <= k < |old(registered)|
                            && Released(reference, k, old(registered), old(handlers), old(freed))
    {
      var tmp: NativeReferenceHandler? := null;
      var handler := referenceHandlers_;
      ghost var k: nat := 0;
      while handler != null
        invariant k <= |handlers| && handler == At(k) && Valid()
        invariant tmp == if k == 0 then null else At(k - 1)
        invariant reference !in registered[..k]
        invariant registered == old(registered) && handlers == old(handlers) && freed == old(freed)
        decreases |handlers| - k
      {
        if handler.reference == reference {
          Unlink(tmp, handler, k);
          assert Released(reference, k, old(registered), old(handlers), old(freed));
          break;
        }
        tmp := handler;
        handler := handler.next;
        k := k + 1;
      }
    }

    ghost predicate Released(reference: ArkNativeReference, k: nat, registered0: seq<ArkNativeReference>,
                             handlers0: seq<NativeReferenceHandler>, freed0: seq<NativeReferenceHandler>)
      reads `handlers, `registered, `freed
    {
      && k < |registered0| == |handlers0| && registered0[k] == reference
      && registered == Without(registered0, k) && handlers == Without(handlers0, k)
      && freed == freed0 + [handlers0[k]]
    }

    method Unlink(tmp: NativeReferenceHandler?, handler: NativeReferenceHandler, ghost k: nat)
      requires Valid() && k < |handlers| && handler == handlers[k]
      requires tmp == if k == 0 then null else handlers[k - 1]
      modifies `referenceHandlers_, `handlers, `registered, `freed, handlers`next
      ensures Valid() && Released(old(registered)[k], k, old(registered), old(handlers), old(freed))
    {
      WithoutFacts(handlers, k);
      WithoutFacts(registered, k);
      if tmp != null {
        tmp.next := handler.next;
      } else {
        referenceHandlers_ := handler.next;
      }
      freed := freed + [handler];
      handlers, registered := Without(handlers, k), Without(registered, k);
    }

    /** Every reference known is destroyed and settled, or registered and in order; none is both. */
    ghost predicate Accounts()
      reads `registered, `destroyed, registered, destroyed
    {
      && Distinct(destroyed) && (forall x :: x in destroyed ==> x !in registered)
      && (forall x :: x in registered ==> x.CountOk())
      && (forall x :: x in destroyed ==> x.Settled())
    }

    ghost predicate HandlerAccounts()
      reads `handlers, `freed
    {
      Distinct(freed) && forall h :: h in freed ==> h !in handlers
    }

    ghost function Registered(): set<ArkNativeReference>
      reads `registered
    {
      set x | x in registered
    }

    ghost function Gone(): set<ArkNativeReference>
      reads `destroyed
    {
      set x | x in destroyed
    }

    /** All references there have been, registered or destroyed. */
    ghost function Known(): set<ArkNativeReference>
      reads `registered, `destroyed
    {
      Registered() + Gone()
    }

    /** The registered references whose finalizer has not run. */
    ghost function Pending(): set<ArkNativeReference>
      reads `registered, registered
    {
      set x | x in registered && x.callback_
    }

    /** The registered references that user code can still delete. */
    ghost function Live(busy: ArkNativeReference?): set<ArkNativeReference>
      reads `registered
    {
      LiveIn(Registered(), busy)
    }

    static ghost function LiveIn(registered: set<ArkNativeReference>, busy: ArkNativeReference?)
      : set<ArkNativeReference>
    {
      set x | x in registered && x != busy
    }

    static lemma FewerLive(registered: set<ArkNativeReference>, busy: ArkNativeReference?,
                           gone: set<ArkNativeReference>)
      ensures LiveIn(registered - gone, busy) == LiveIn(registered, busy) - gone
    {
    }

    lemma RegisteredIsInOrder(v: ArkNativeReference)
      requires Accounts() && v in registered
      ensures v !in destroyed && v.CountOk() && v in Registered()
    {
    }

    ghost function KnownHandlers(): set<NativeReferenceHandler>
      reads `handlers, `freed
    {
      (set h | h in handlers) + (set h | h in freed)
    }

    /** The registered references that deleting `r` can still delete. */
    ghost function Others(r: ArkNativeReference, busy: ArkNativeReference?): nat
      reads `registered
    {
      OthersIn(registered, r, busy)
    }

    static ghost function OthersIn(s: seq<ArkNativeReference>, r: ArkNativeReference, busy: ArkNativeReference?): nat {
      |(set x | x in s && x != r && x != busy)|
    }

    lemma FewerOthers(r: ArkNativeReference, v: ArkNativeReference, busy: ArkNativeReference?,
                      before: seq<ArkNativeReference>)
      requires r !in before || r == busy
      requires v in registered && v != busy && forall k :: 0 <= k < |registered| ==> registered[k] in before
      ensures Others(v, busy) < OthersIn(before, r, busy)
    {
      var smaller := set x | x in registered && x != v && x != busy;
      var larger := set x | x in before && x != r && x != busy;
      assert smaller + {v} <= larger;
      assert larger == smaller + {v} + (larger - (smaller + {v}));
    }

    /** What user code knows: whether a reference is still there to be deleted. */
    method IsRegistered(r: ArkNativeReference) returns (live: bool)
      requires Valid()
      ensures live <==> r in registered
    {
      var handler := referenceHandlers_;
      ghost var k: nat := 0;
      while handler != null
        invariant k <= |handlers| && handler == At(k) && r !in registered[..k]
        decreases |handlers| - k
      {
        if handler.reference == r {
          return true;
        }
        handler := handler.next;
        k := k + 1;
      }
      return false;
    }

    /**
      `delete r`, for a reference that is not yet being deleted: it leaves the list if it is still in
      it, then its finalizer runs and may delete registered references, each by a nested `delete`.
      `busy` is a reference whose finalizer is running because its last count was given up, if any.
     */
    method DeleteReference(r: ArkNativeReference, busy: ArkNativeReference?)
      requires Valid() && Accounts() && HandlerAccounts() && r !in destroyed && r.CountOk() && r != busy
      modifies `referenceHandlers_, `handlers, `registered, `destroyed, `freed, handlers`next
      modifies r, set x | x in registered && x != busy
      ensures Valid() && Accounts() && HandlerAccounts() && r in destroyed
      ensures old(destroyed) <= destroyed && forall k :: 0 <= k < |registered| ==> registered[k] in old(registered)
      ensures Known() == old(Known()) + {r} && KnownHandlers() == old(KnownHandlers())
      ensures forall k :: 0 <= k < |handlers| ==> handlers[k] in old(handlers)
      ensures |handlers| <= |old(handlers)|
      ensures busy in old(registered) ==> busy in registered
      ensures old(r.callback_) ==> forall v :: v in r.victims && v in registered ==> v == busy
      ensures Cascade(old(Pending() + if r.callback_ then {r} else {}), old(Live(busy)), r, Gone() - old(Gone()))
      ensures Registered() == old(Registered()) - (Gone() - old(Gone()))
      ensures Pending() == old(Pending()) - (Gone() - old(Gone()))
      ensures forall x :: x in old(registered) && x in registered ==> unchanged(x)
      decreases Others(r, busy), 4
    {
      hide Valid, HandlerAccounts, Accounts, Distinct, KnownHandlers, Cascade;
      ghost var gone, live := Gone(), Live(busy);
      ghost var pending := Pending() + if r.callback_ then {r} else {};
      FewerLive(Registered(), busy, {r});
      Release(r);
      KnownAfterRelease(r, busy, old(registered));
      assert Pending() + (if r.callback_ then {r} else {}) == pending;
      DeleteUnlisted(r, busy);
      CascadeWithItself(pending, live, r, Gone() - gone);
    }

    /** The rest of the destructor, once `r` is in no list. */
    method DeleteUnlisted(r: ArkNativeReference, busy: ArkNativeReference?)
      requires Valid() && Accounts() && HandlerAccounts() && r !in Known() && r.CountOk() && r != busy
      modifies `referenceHandlers_, `handlers, `registered, `destroyed, `freed, handlers`next
      modifies r, set x | x in registered && x != busy
      ensures Valid() && Accounts() && HandlerAccounts() && r in destroyed
      ensures old(destroyed) <= destroyed && forall k :: 0 <= k < |registered| ==> registered[k] in old(registered)
      ensures Known() == old(Known()) + {r} && KnownHandlers() == old(KnownHandlers())
      ensures forall k :: 0 <= k < |handlers| ==> handlers[k] in old(handlers)
      ensures |handlers| <= |old(handlers)|
      ensures busy in old(registered) ==> busy in registered
      ensures old(r.callback_) ==> forall v :: v in r.victims && v in registered ==> v == busy
      ensures Cascade(old(Pending() + if r.callback_ then {r} else {}), old(Live(busy)), r, Gone() - old(Gone()))
      ensures Registered() == old(Registered()) - (Gone() - old(Gone()))
      ensures Pending() == old(Pending()) - (Gone() - old(Gone()))
      ensures forall x :: x in old(registered) && x in registered ==> unchanged(x)
      decreases Others(r, busy), 3
    {
      hide Valid, HandlerAccounts, Accounts, Distinct, KnownHandlers, Cascade, VictimsGone, ArkNativeReference.CountOk;
      ghost var gone, live := Gone(), Live(busy);
      ghost var pending := Pending() + if r.callback_ then {r} else {};
      Settle(r, busy);
      ghost var taken := Gone() - gone;
      CascadeCompletes(pending, live, r, taken);
      RecordDestroyed(r);
      assert Gone() - gone == taken + {r};
    }

    lemma KnownAfterRelease(r: ArkNativeReference, busy: ArkNativeReference?, before: seq<ArkNativeReference>)
      requires forall x :: x in registered <==> x in before && x != r
      ensures Known() + {r} == (set x | x in before) + (set x | x in destroyed) + {r}
      ensures Others(r, busy) == OthersIn(before, r, busy)
    {
      assert (set x | x in registered && x != r && x != busy) == (set x | x in before && x != r && x != busy);
    }

    ghost method RecordDestroyed(r: ArkNativeReference)
      requires Accounts() && r !in Known() && r.Settled()
      modifies `destroyed
      ensures Accounts() && destroyed == old(destroyed) + [r] && Known() == old(Known()) + {r}
      ensures Gone() == old(Gone()) + {r} && r !in old(Gone())
    {
      DistinctAppend(destroyed, r);
      hide Distinct;
      destroyed := destroyed + [r];
    }

    /** The destructor's body: a weak value, no count, and the finalizer if it is still pending. */
    method Settle(r: ArkNativeReference, busy: ArkNativeReference?)
      requires Valid() && Accounts() && HandlerAccounts() && r !in Known() && r.CountOk() && r != busy
      modifies `referenceHandlers_, `handlers, `registered, `destroyed, `freed, handlers`next
      modifies r, set x | x in registered && x != busy
      ensures Valid() && Accounts() && HandlerAccounts() && r.Settled()
      ensures old(destroyed) <= destroyed && forall k :: 0 <= k < |registered| ==> registered[k] in old(registered)
      ensures Known() == old(Known()) && KnownHandlers() == old(KnownHandlers())
      ensures forall k :: 0 <= k < |handlers| ==> handlers[k] in old(handlers)
      ensures |handlers| <= |old(handlers)|
      ensures busy in old(registered) ==> busy in registered
      ensures old(r.callback_) ==> forall v :: v in r.victims && v in registered ==> v == busy
      ensures if old(r.callback_)
              then VictimsGone(old(Pending()) + {r}, old(Live(busy)), r, Gone() - old(Gone()), |r.victims|)
              else destroyed == old(destroyed) && registered == old(registered)
      ensures Registered() == old(Registered()) - (Gone() - old(Gone())) && r !in Gone()
      ensures Pending() == old(Pending()) - (Gone() - old(Gone()))
      ensures forall x :: x in old(registered) && x in registered ==> unchanged(x)
      decreases Others(r, busy), 2
    {
      hide Valid, HandlerAccounts, Distinct, KnownHandlers, Others, VictimsGone;
      if !r.weak {
        r.weak := true;
      }
      r.refCount_ := 0;
      FinalizeCallback(r, busy);
    }

    /** A pending finalizer runs, and only then is forgotten. */
    method FinalizeCallback(r: ArkNativeReference, busy: ArkNativeReference?)
      requires Valid() && Accounts() && HandlerAccounts() && r !in destroyed && r.CountOk()
      requires r !in registered || r == busy
      modifies `referenceHandlers_, `handlers, `registered, `destroyed, `freed, handlers`next
      modifies r`callback_, r`finalizerRuns, set x | x in registered && x != busy
      ensures Valid() && Accounts() && HandlerAccounts() && r.CountOk() && !r.callback_
      ensures r.refCount_ == old(r.refCount_) && r.weak == old(r.weak)
      ensures old(destroyed) <= destroyed && forall k :: 0 <= k < |registered| ==> registered[k] in old(registered)
      ensures Known() == old(Known()) && KnownHandlers() == old(KnownHandlers())
      ensures forall k :: 0 <= k < |handlers| ==> handlers[k] in old(handlers)
      ensures |handlers| <= |old(handlers)|
      ensures busy in old(registered) ==> busy in registered
      ensures old(r.callback_) ==> forall v :: v in r.victims && v in registered ==> v == busy
      ensures if old(r.callback_)
              then VictimsGone(old(Pending()) + {r}, old(Live(busy)), r, Gone() - old(Gone()), |r.victims|)
              else destroyed == old(destroyed) && registered == old(registered)
      ensures Registered() == old(Registered()) - (Gone() - old(Gone())) && r !in Gone()
      ensures Pending() == old(Pending()) - (Gone() - old(Gone())) - {r}
      ensures forall x :: x in old(registered) && x in registered && x != r ==> unchanged(x)
      decreases Others(r, busy), 1
    {
      hide Valid, HandlerAccounts, Distinct, KnownHandlers, Others, VictimsGone;
      if r.callback_ {
        RunFinalizer(r, busy);
        r.finalizerRuns := r.finalizerRuns + 1;
      }
      r.callback_ := false;
    }

    /**
      `Unref`: the last count given up finalizes, and the finalizer may delete other references; giving up
      more than there are does nothing.
     */
    method Unref(r: ArkNativeReference) returns (count: nat)
      requires Valid() && Accounts() && HandlerAccounts() && r !in destroyed && r.CountOk()
      modifies `referenceHandlers_, `handlers, `registered, `destroyed, `freed, handlers`next, r, registered
      ensures Valid() && Accounts() && HandlerAccounts() && r.CountOk() && r !in destroyed
      ensures count == r.refCount_ == if old(r.refCount_) == 0 then 0 else old(r.refCount_) - 1
      ensures old(r.refCount_) == 1 ==> r.Settled()
      ensures old(r.refCount_) != 1 ==>
                && r.callback_ == old(r.callback_) && r.finalizerRuns == old(r.finalizerRuns)
                && registered == old(registered) && destroyed == old(destroyed)
      ensures old(r.refCount_) == 1 && old(r.callback_) ==> forall v :: v in r.victims && v in registered ==> v == r
      ensures if old(r.refCount_ == 1 && r.callback_)
              then VictimsGone(old(Pending()) + {r}, old(Live(r)), r, Gone() - old(Gone()), |r.victims|)
              else destroyed == old(destroyed) && registered == old(registered)
      ensures forall x :: x in old(registered) && x in registered && x != r ==> unchanged(x)
      ensures r in old(registered) <==> r in registered
      ensures Known() == old(Known()) && KnownHandlers() == old(KnownHandlers())
      ensures forall k :: 0 <= k < |registered| ==> registered[k] in old(registered)
      ensures forall k :: 0 <= k < |handlers| ==> handlers[k] in old(handlers)
    {
      hide Valid, HandlerAccounts, Distinct, KnownHandlers, VictimsGone;
      ghost var pending := Pending();
      if r.refCount_ == 0 {
        return r.refCount_;
      }
      r.refCount_ := r.refCount_ - 1;
      if r.refCount_ == 0 {
        r.weak := true;
        assert Pending() == pending;
        ghost var before := Known();
        assert r !in registered ==> r !in before;
        FinalizeCallback(r, r);
        assert r in destroyed ==> r in before && r !in registered;
      }
      return r.refCount_;
    }

    /** `ReleaseHandler`, as far as the accounts are concerned. */
    method Release(r: ArkNativeReference)
      requires Valid() && Accounts() && HandlerAccounts() && r !in destroyed
      modifies `referenceHandlers_, `handlers, `registered, `freed, handlers`next
      ensures Valid() && Accounts() && HandlerAccounts() && r !in registered
      ensures forall x :: x in registered <==> x in old(registered) && x != r
      ensures Registered() == old(Registered()) - {r} && Pending() == old(Pending()) - {r}
      ensures Gone() == old(Gone())
      ensures forall k :: 0 <= k < |registered| ==> registered[k] in old(registered)
      ensures KnownHandlers() == old(KnownHandlers())
      ensures forall k :: 0 <= k < |handlers| ==> handlers[k] in old(handlers)
      ensures |handlers| <= |old(handlers)|
    {
      ReleaseHandler(r);
      if r in old(registered) {
        ghost var k :| 0 <= k < |old(registered)| && Released(r, k, old(registered), old(handlers), old(freed));
        WithoutFacts(old(registered), k);
        WithoutFacts(old(handlers), k);
        DistinctAppend(old(freed), old(handlers)[k]);
      }
    }

    /** The finalizer of `r`: delete those of its victims that can still be deleted, one after the other. */
    method RunFinalizer(r: ArkNativeReference, busy: ArkNativeReference?)
      requires Valid() && Accounts() && HandlerAccounts() && r !in destroyed
      requires r !in registered || r == busy
      modifies `referenceHandlers_, `handlers, `registered, `destroyed, `freed, handlers`next
      modifies set x | x in registered && x != busy
      ensures Valid() && Accounts() && HandlerAccounts()
      ensures old(destroyed) <= destroyed && forall k :: 0 <= k < |registered| ==> registered[k] in old(registered)
      ensures Known() == old(Known()) && KnownHandlers() == old(KnownHandlers())
      ensures forall k :: 0 <= k < |handlers| ==> handlers[k] in old(handlers)
      ensures |handlers| <= |old(handlers)|
      ensures busy in old(registered) ==> busy in registered
      ensures forall v :: v in r.victims && v in registered ==> v == busy
      ensures VictimsGone(old(Pending()) + {r}, old(Live(busy)), r, Gone() - old(Gone()), |r.victims|)
      ensures Registered() == old(Registered()) - (Gone() - old(Gone())) && r !in Gone()
      ensures Pending() == old(Pending()) - (Gone() - old(Gone()))
      ensures forall x :: x in old(registered) && x in registered ==> unchanged(x)
      decreases Others(r, busy), 0
    {
      hide Valid, Accounts, HandlerAccounts, Distinct, KnownHandlers, OthersIn, VictimsGone, Cascade;
      var i: nat := 0;
      NoneGone(Pending() + {r}, Live(busy), r);
      assert Gone() - Gone() == {};
      while i < |r.victims|
        invariant i <= |r.victims|
        invariant Valid() && Accounts() && HandlerAccounts()
        invariant old(destroyed) <= destroyed && forall k :: 0 <= k < |registered| ==> registered[k] in old(registered)
        invariant Known() == old(Known()) && KnownHandlers() == old(KnownHandlers())
        invariant forall k :: 0 <= k < |handlers| ==> handlers[k] in old(handlers)
        invariant |handlers| <= |old(handlers)|
        invariant busy in old(registered) ==> busy in registered
        invariant VictimsGone(old(Pending()) + {r}, old(Live(busy)), r, Gone() - old(Gone()), i)
        invariant Registered() == old(Registered()) - (Gone() - old(Gone())) && r !in Gone()
        invariant Pending() == old(Pending()) - (Gone() - old(Gone()))
        invariant forall x :: x in old(registered) && x in registered ==> unchanged(x)
      {
        var v := r.victims[i];
        var live := IsRegistered(v);
        if live && v != busy {
          FewerOthers(r, v, busy, old(registered));
          ghost var before, gone, pending := Gone(), Gone() - old(Gone()), Pending();
          FewerLive(old(Registered()), busy, gone);
          RegisteredIsInOrder(v);
          assert Pending() + (if v.callback_ then {v} else {}) == pending;
          DeleteReference(v, busy);
          ghost var more := Gone() - before;
          assert Gone() - old(Gone()) == gone + more;
          NextVictimGone(old(Pending()) + {r}, old(Live(busy)), r, gone, i, pending, more);
        } else {
          assert v in registered <==> v in Registered();
          VictimSkipped(old(Pending()) + {r}, old(Live(busy)), r, Gone() - old(Gone()), i);
        }
        i := i + 1;
      }
      VictimsAreGone(old(Pending()) + {r}, old(Live(busy)), r, Gone() - old(Gone()));
      assert forall v :: v in registered ==> v in Registered();
    }

    lemma VictimsAreGone(pending: set<ArkNativeReference>, live: set<ArkNativeReference>, r: ArkNativeReference,
                         gone: set<ArkNativeReference>)
      requires VictimsGone(pending, live, r, gone, |r.victims|)
      ensures forall v :: v in r.victims && v in live ==> v in gone
    {
    }

    lemma NoneGone(pending: set<ArkNativeReference>, live: set<ArkNativeReference>, r: ArkNativeReference)
      ensures VictimsGone(pending, live, r, {}, 0)
    {
    }

    /**
      The manager's destructor. The first handler leaves the list before its reference is deleted, so the
      nested `ReleaseHandler` calls and deletions find a proper list. Every reference that was registered
      is destroyed exactly once and settled, and every handler is freed exactly once.
     */
    method Destroy()
      requires Valid() && Accounts() && HandlerAccounts()
      modifies `referenceHandlers_, `handlers, `registered, `destroyed, `freed, handlers`next, registered
      ensures referenceHandlers_ == null && handlers == [] && registered == []
      ensures Accounts() && HandlerAccounts() && Distinct(destroyed) && Distinct(freed)
      ensures (set x | x in destroyed) == old(Known()) && (set h | h in freed) == old(KnownHandlers())
      ensures forall x :: x in destroyed ==> x.Settled()
    {
      hide Valid, Accounts, HandlerAccounts, Distinct;
      while referenceHandlers_ != null
        invariant Valid() && Accounts() && HandlerAccounts()
        invariant Known() == old(Known()) && KnownHandlers() == old(KnownHandlers())
        invariant forall k :: 0 <= k < |registered| ==> registered[k] in old(registered)
        invariant forall k :: 0 <= k < |handlers| ==> handlers[k] in old(handlers)
        decreases |handlers|
      {
        ghost var before, beforeHandlers := Known(), KnownHandlers();
        var handler := UnlinkFirst();
        DeleteReference(handler.reference, null);
        RecordFreed(handler);
      }
      EmptyList();
    }

    lemma EmptyList()
      requires Valid() && Accounts() && HandlerAccounts() && referenceHandlers_ == null
      ensures handlers == [] && registered == []
      ensures (set x | x in destroyed) == Known() && (set h | h in freed) == KnownHandlers()
      ensures Distinct(destroyed) && Distinct(freed) && forall x :: x in destroyed ==> x.Settled()
    {
    }

    /** `referenceHandlers_ = handler->next`, before the reference is touched. */
    method UnlinkFirst() returns (handler: NativeReferenceHandler)
      requires Valid() && Accounts() && HandlerAccounts() && referenceHandlers_ != null
      modifies `referenceHandlers_, `handlers, `registered
      ensures Valid() && Accounts() && HandlerAccounts()
      ensures |handlers| == |old(handlers)| - 1 && handler in old(handlers) && handler.reference in old(registered)
      ensures handler.reference !in Known() && handler !in KnownHandlers() && handler.reference.CountOk()
      ensures Known() + {handler.reference} == old(Known()) && KnownHandlers() + {handler} == old(KnownHandlers())
      ensures forall k :: 0 <= k < |registered| ==> registered[k] in old(registered)
      ensures forall k :: 0 <= k < |handlers| ==> handlers[k] in old(handlers)
    {
      handler := referenceHandlers_;
      referenceHandlers_ := handler.next;
      assert handlers == [handlers[0]] + handlers[1..] && registered == [registered[0]] + registered[1..];
      handlers, registered := handlers[1..], registered[1..];
    }

    ghost method RecordFreed(handler: NativeReferenceHandler)
      requires HandlerAccounts() && handler !in KnownHandlers()
      modifies `freed
      ensures HandlerAccounts() && freed == old(freed) + [handler]
      ensures KnownHandlers() == old(KnownHandlers()) + {handler}
    {
      DistinctAppend(freed, handler);
      hide Distinct;
      freed := freed + [handler];
    }
  }

  // ----- Whole lives of references -----

  /** What a client does; references are named by the order of their creation, victims have to exist already. */
  datatype Call =
    | CreateCall(initialRefcount: nat, hasCallback: bool, victims: seq<nat>)
    | RefCall(i: nat)
    | UnrefCall(i: nat)
    | DeleteCall(i: nat)

  function Chosen<T>(created: seq<T>, indices: seq<nat>): seq<T> {
    if indices == [] then []
    else (if indices[0] < |created| then [created[indices[0]]] else []) + Chosen(created, indices[1..])
  }

  /** The client's view is right: what it has created is what the manager knows, each reference once. */
  ghost predicate InStep(m: NativeReferenceManager, created: seq<ArkNativeReference>)
    reads m, m.handlers, m.registered, m.destroyed
  {
    && m.Valid() && m.Accounts() && m.HandlerAccounts()
    && Distinct(created) && m.Known() == (set x | x in created)
  }

  method Create(m: NativeReferenceManager, created: seq<ArkNativeReference>, call: Call)
    returns (reference: ArkNativeReference)
    requires InStep(m, created) && call.CreateCall?
    modifies m
    ensures fresh(reference) && InStep(m, created + [reference])
    ensures m.handlers != [] && fresh(m.handlers[0]) && m.handlers[1..] == old(m.handlers)
  {
    hide NativeReferenceManager.Valid, NativeReferenceManager.Accounts, NativeReferenceManager.HandlerAccounts;
    reference := new ArkNativeReference(m, call.initialRefcount, true, call.hasCallback, Chosen(created, call.victims));
    DistinctAppend(created, reference);
  }

  method Perform(m: NativeReferenceManager, created: seq<ArkNativeReference>, call: Call)
    returns (created': seq<ArkNativeReference>)
    requires InStep(m, created)
    modifies m, m.handlers, m.registered
    ensures InStep(m, created') && created <= created' && |created'| <= |created| + 1
    ensures forall k :: |created| <= k < |created'| ==> fresh(created'[k])
    ensures forall k :: 0 <= k < |m.handlers| ==> m.handlers[k] in old(m.handlers) || fresh(m.handlers[k])
  {
    created' := created;
    if call.CreateCall? {
      var reference := Create(m, created, call);
      created' := created + [reference];
    } else if call.i < |created| {
      var r := created[call.i];
      var live := m.IsRegistered(r);
      if live {
        match call
        case RefCall(_) => var _ := r.Ref();
        case UnrefCall(_) => var _ := m.Unref(r);
        case DeleteCall(_) => m.DeleteReference(r, null);
      }
    }
  }

  /**
    Theorem. Whatever a client does, destroying the manager afterwards leaves every reference ever created
    destroyed exactly once and settled, its finalizer run exactly once if it had one.
   */
  method RunAndDestroy(calls: seq<Call>) returns (m: NativeReferenceManager, created: seq<ArkNativeReference>)
    ensures m.referenceHandlers_ == null && m.registered == []
    ensures Distinct(created) && Distinct(m.destroyed)
    ensures (set x | x in m.destroyed) == (set x | x in created)
    ensures forall x :: x in created ==> x.Settled()
  {
    hide NativeReferenceManager.Valid, NativeReferenceManager.Accounts, NativeReferenceManager.HandlerAccounts;
    m := new NativeReferenceManager();
    created := [];
    var k: nat := 0;
    while k < |calls|
      invariant k <= |calls| && fresh(m) && fresh(created) && fresh(m.handlers) && InStep(m, created)
    {
      RegisteredAreCreated(m, created);
      assert fresh(m.registered);
      created := Perform(m, created, calls[k]);
      k := k + 1;
    }
    RegisteredAreCreated(m, created);
    assert fresh(m.registered);
    ghost var known := m.Known();
    m.Destroy();
    assert known == set x | x in m.destroyed;
    assert forall x :: x in created ==> x in known;
  }

  lemma RegisteredAreCreated(m: NativeReferenceManager, created: seq<ArkNativeReference>)
    requires InStep(m, created)
    ensures forall k :: 0 <= k < |m.registered| ==> m.registered[k] in created
  {
    forall k | 0 <= k < |m.registered|
      ensures m.registered[k] in created
    {
      assert m.registered[k] in m.Known();
    }
  }
}
