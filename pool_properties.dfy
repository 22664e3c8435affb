/** What the resource pool promises, stated over its step functions. */
module PoolProperties {
  import opened ResourcePool

  // ---------------------------------------------------------------------------
  // One operation at a time
  // ---------------------------------------------------------------------------

  /** With resources idle, Acquire hands out the oldest one, removes it from
      the store and leaves the allocator uncalled. */
  lemma AcquireTakesOldest(s: State, factory: Allocator)
    requires |s.idle| > 0
    ensures var a := AcquireStep(s, factory);
      a.result == Ok(s.idle[0]) && [s.idle[0]] + a.next.idle == s.idle &&
      a.next.allocations == s.allocations
  {
  }

  /** With the store empty and open, Acquire passes the allocator's outcome
      on, its errors as AllocatorError with the allocator's own code, and the
      store stays as it was. */
  lemma AcquireFallsBackToAllocator(s: State, factory: Allocator)
    requires s.idle == [] && !s.storeClosed
    ensures var a := AcquireStep(s, factory);
      a.result == Passed(factory(s.allocations)) && a.next.idle == [] &&
      a.next.allocations == s.allocations + 1
  {
  }

  /** Once Close has run, Acquire fails with PoolClosed and changes nothing. */
  lemma AcquireAfterClose(s: State, factory: Allocator)
    requires Invariant(s)
    ensures var c := CloseStep(s); AcquireStep(c, factory) == Acquired(c, Err(PoolClosed))
  {
  }

  /** Acquire fails with PoolClosed exactly when the pool is closed: an
      allocator failure is never mistaken for a closed pool. */
  lemma AcquireFailsClosedOnlyWhenClosed(s: State, factory: Allocator)
    requires Invariant(s)
    ensures AcquireStep(s, factory).result == Err(PoolClosed) <==> s.closed
  {
  }

  /** A closed pool closes a released resource and keeps its store. */
  lemma ReleaseIntoClosedPool(s: State, resource: ResourceId)
    requires Invariant(s) && s.closed
    ensures var t := ReleaseStep(s, resource);
      t.closeLog == s.closeLog + [resource] && t.idle == s.idle == []
  {
  }

  /** An open pool stores a released resource exactly when the store is below
      capacity and closes it exactly when the store is full. */
  lemma ReleaseIntoOpenPool(s: State, resource: ResourceId)
    requires Invariant(s) && !s.closed
    ensures var t := ReleaseStep(s, resource);
      (t.idle == s.idle + [resource] && t.closeLog == s.closeLog) <==> |s.idle| < s.size
    ensures var t := ReleaseStep(s, resource);
      (t.idle == s.idle && t.closeLog == s.closeLog + [resource]) <==> |s.idle| == s.size
  {
  }

  /** Close on an open pool closes every idle resource once, in store order;
      a second Close changes nothing and closes nothing more. */
  lemma CloseIsIdempotent(s: State)
    requires Invariant(s)
    ensures CloseStep(CloseStep(s)) == CloseStep(s)
    ensures !s.closed ==> multiset(CloseStep(s).closeLog) == multiset(s.closeLog) + multiset(s.idle)
  {
  }

  // ---------------------------------------------------------------------------
  // Releasing many resources
  // ---------------------------------------------------------------------------

  /** Release each resource of `resources` in turn. */
  function ReleaseAll(s: State, resources: seq<ResourceId>): (t: State)
    requires Invariant(s)
    ensures Invariant(t) && t.closed == s.closed && t.size == s.size
    decreases |resources|
  {
    if resources == [] then s
    else ReleaseAll(ReleaseStep(s, resources[0]), resources[1..])
  }

  function Min(a: int, b: int): int {
    if a <= b then a else b
  }

  /** Releasing resources into an open pool whose store is full closes every
      one of them, in release order, and changes nothing else. */
  lemma {:induction false} ReleaseAllIntoFullStore(s: State, resources: seq<ResourceId>)
    requires Invariant(s) && !s.closed && |s.idle| == s.size
    ensures ReleaseAll(s, resources) == s.(closeLog := s.closeLog + resources)
    decreases |resources|
  {
    if resources != [] {
      var x, rest := resources[0], resources[1..];
      var s' := s.(closeLog := s.closeLog + [x]);
      assert ReleaseStep(s, x) == s';
      ReleaseAllIntoFullStore(s', rest);
      assert s.closeLog + resources == s'.closeLog + rest;
    }
  }

  /** Releasing resources into an open pool fills the free room of the store
      in release order and closes all the rest, in release order. */
  lemma {:induction false} ReleaseAllFillsThenCloses(s: State, resources: seq<ResourceId>)
    requires Invariant(s) && !s.closed
    ensures var k := Min(s.size - |s.idle|, |resources|);
      var t := ReleaseAll(s, resources);
      t.idle == s.idle + resources[..k] && t.closeLog == s.closeLog + resources[k..]
    decreases |resources|, 1
  {
    if |s.idle| == s.size {
      ReleaseAllIntoFullStore(s, resources);
      assert resources[..0] == [] && resources[0..] == resources;
    } else if resources != [] {
      ReleaseAllIntoRoom(s, resources);
    }
  }

  /** The step of ReleaseAllFillsThenCloses where the first resource finds
      room in the store. */
  lemma {:induction false} ReleaseAllIntoRoom(s: State, resources: seq<ResourceId>)
    requires Invariant(s) && !s.closed && |s.idle| < s.size && resources != []
    ensures var k := Min(s.size - |s.idle|, |resources|);
      var t := ReleaseAll(s, resources);
      t.idle == s.idle + resources[..k] && t.closeLog == s.closeLog + resources[k..]
    decreases |resources|, 0
  {
    var x, rest := resources[0], resources[1..];
    var s' := s.(idle := s.idle + [x]);
    assert ReleaseStep(s, x) == s';
    var k := Min(s.size - |s.idle|, |resources|);
    assert Min(s'.size - |s'.idle|, |rest|) == k - 1;
    assert ReleaseAll(s, resources) == ReleaseAll(s', rest);
    ReleaseAllFillsThenCloses(s', rest);
    var t := ReleaseAll(s', rest);
    SplitAfterHead(resources, k);
    assert t.idle == s.idle + resources[..k] by {
      assert t.idle == (s.idle + [x]) + rest[..k - 1];
      assert (s.idle + [x]) + rest[..k - 1] == s.idle + ([x] + rest[..k - 1]);
    }
    assert t.closeLog == s.closeLog + resources[k..];
  }

  lemma SplitAfterHead(xs: seq<ResourceId>, k: nat)
    requires 1 <= k <= |xs|
    ensures xs[..k] == [xs[0]] + xs[1..][..k - 1] && xs[k..] == xs[1..][k - 1..]
  {
  }

  /** A fresh pool of capacity `size` that gets back `size + extra` resources
      keeps the first `size` of them idle and closes the other `extra`. */
  lemma OverflowIsClosed(size: nat, extra: nat, resources: seq<ResourceId>)
    requires 0 < size && |resources| == size + extra
    ensures var t := ReleaseAll(NewState(size).value, resources);
      t.idle == resources[..size] && t.closeLog == resources[size..] && |t.closeLog| == extra
  {
    ReleaseAllFillsThenCloses(NewState(size).value, resources);
  }

  // ---------------------------------------------------------------------------
  // Every resource closed exactly once
  // ---------------------------------------------------------------------------

  /** The resources the allocator has produced in its first `n` calls. */
  ghost function Produced(factory: Allocator, n: nat): set<ResourceId> {
    set i: nat | i < n && factory(i).Allocated? :: factory(i).id
  }

  /** The allocator never produces the same resource twice. */
  ghost predicate FreshAllocator(factory: Allocator) {
    forall i: nat, j: nat :: i != j && factory(i).Allocated? && factory(j).Allocated? ==> factory(i).id != factory(j).id
  }

  /** Every resource the allocator has produced is in exactly one place, once:
      the idle store, the close log, or the hands of a caller (`lent`); and
      nothing the allocator did not produce is anywhere. */
  ghost predicate Accounted(s: State, factory: Allocator, lent: set<ResourceId>) {
    forall x :: Held(s)[x] + (if x in lent then 1 else 0) == (if x in Produced(factory, s.allocations) then 1 else 0)
  }

  lemma ProducedStep(factory: Allocator, n: nat)
    ensures Produced(factory, n + 1) ==
      Produced(factory, n) + (if factory(n).Allocated? then {factory(n).id} else {})
  {
  }

  /** A new pool holds nothing and has produced nothing. */
  lemma NewIsAccounted(size: nat, factory: Allocator)
    requires 0 < size
    ensures Accounted(NewState(size).value, factory, {})
  {
  }

  /** Acquire moves a resource from the store, or from the allocator, into a
      caller's hands; the caller did not hold it already. */
  lemma AcquireKeepsAccounts(s: State, factory: Allocator, lent: set<ResourceId>)
    requires FreshAllocator(factory) && Accounted(s, factory, lent)
    ensures var a := AcquireStep(s, factory);
      a.result.Ok? ==> a.result.value !in lent && Accounted(a.next, factory, lent + {a.result.value})
    ensures var a := AcquireStep(s, factory);
      a.result.Err? ==> Accounted(a.next, factory, lent)
  {
    var a := AcquireStep(s, factory);
    if |s.idle| > 0 {
      var x := s.idle[0];
      assert s.idle == [x] + s.idle[1..];
      assert Held(s) == Held(a.next) + multiset{x};
      assert Held(s)[x] >= 1;
    } else if !s.storeClosed {
      var n := s.allocations;
      ProducedStep(factory, n);
      if factory(n).Allocated? {
        var v := factory(n).id;
        assert v !in Produced(factory, n);
      }
    }
  }

  /** Release takes a resource a caller holds back into the store or the
      close log; nothing else moves. */
  lemma ReleaseKeepsAccounts(s: State, factory: Allocator, lent: set<ResourceId>, resource: ResourceId)
    requires Invariant(s) && Accounted(s, factory, lent) && resource in lent
    ensures Accounted(ReleaseStep(s, resource), factory, lent - {resource})
  {
  }

  /** Close moves the idle resources into the close log; nothing else moves. */
  lemma CloseKeepsAccounts(s: State, factory: Allocator, lent: set<ResourceId>)
    requires Invariant(s) && Accounted(s, factory, lent)
    ensures Accounted(CloseStep(s), factory, lent)
  {
  }

  /** While the accounts hold, no resource is both idle and closed, and none
      is closed twice. */
  lemma StoredOrClosedNeverBoth(s: State, factory: Allocator, lent: set<ResourceId>)
    requires Accounted(s, factory, lent)
    ensures forall x :: x in s.idle ==> x !in s.closeLog
    ensures forall x :: multiset(s.closeLog)[x] <= 1
  {
    forall x | x in s.idle
      ensures x !in s.closeLog
    {
      assert Held(s)[x] <= 1;
    }
    forall x
      ensures multiset(s.closeLog)[x] <= 1
    {
      assert Held(s)[x] <= 1;
    }
  }

  /** Once the pool is closed and every caller has released what it held,
      the close log holds each resource the allocator produced exactly once,
      and nothing else. */
  lemma ClosedPoolClosedEverything(s: State, factory: Allocator)
    requires Invariant(s) && s.closed && Accounted(s, factory, {})
    ensures forall x :: multiset(s.closeLog)[x] == (if x in Produced(factory, s.allocations) then 1 else 0)
  {
  }

  // ---------------------------------------------------------------------------
  // A whole run of a pool by its callers
  // ---------------------------------------------------------------------------

  /** One call a caller makes on the pool. */
  datatype Op = AcquireOp | ReleaseOp(resource: ResourceId) | CloseOp

  /** The pool after a run, what the callers then hold, and whether every
      release handed back a resource a caller held at that point. */
  datatype Outcome = Outcome(pool: State, lent: set<ResourceId>, honest: bool)

  /** Applies the calls of `ops` in order, starting from the pool `s` with
      callers holding `lent`; a caller holds what Acquire gave it until it
      releases it. */
  function Run(s: State, factory: Allocator, lent: set<ResourceId>, ops: seq<Op>): (o: Outcome)
    requires Invariant(s)
    ensures Invariant(o.pool) && o.pool.size == s.size
    decreases |ops|
  {
    if ops == [] then Outcome(s, lent, true)
    else match ops[0]
      case AcquireOp =>
        var a := AcquireStep(s, factory);
        Run(a.next, factory, if a.result.Ok? then lent + {a.result.value} else lent, ops[1..])
      case ReleaseOp(r) =>
        var o := Run(ReleaseStep(s, r), factory, lent - {r}, ops[1..]);
        o.(honest := o.honest && r in lent)
      case CloseOp =>
        Run(CloseStep(s), factory, lent, ops[1..])
  }

  /** The accounts hold after any run in which callers release only what
      they hold. */
  lemma {:induction false} RunKeepsAccounts(s: State, factory: Allocator, lent: set<ResourceId>, ops: seq<Op>)
    requires Invariant(s) && FreshAllocator(factory) && Accounted(s, factory, lent)
    requires Run(s, factory, lent, ops).honest
    ensures var o := Run(s, factory, lent, ops); Accounted(o.pool, factory, o.lent)
    decreases |ops|
  {
    if ops != [] {
      match ops[0]
      case AcquireOp =>
        AcquireKeepsAccounts(s, factory, lent);
        var a := AcquireStep(s, factory);
        RunKeepsAccounts(a.next, factory, if a.result.Ok? then lent + {a.result.value} else lent, ops[1..]);
      case ReleaseOp(r) =>
        ReleaseKeepsAccounts(s, factory, lent, r);
        RunKeepsAccounts(ReleaseStep(s, r), factory, lent - {r}, ops[1..]);
      case CloseOp =>
        CloseKeepsAccounts(s, factory, lent);
        RunKeepsAccounts(CloseStep(s), factory, lent, ops[1..]);
    }
  }

  /** Over the life of a pool whose callers release only what they hold:
      at every point no resource is both idle and closed and none is closed
      twice; and once the pool is closed and the callers have released
      everything, every resource the allocator produced has been closed
      exactly once and nothing else has been closed. */
  lemma EveryResourceClosedOnce(size: nat, factory: Allocator, ops: seq<Op>)
    requires 0 < size && FreshAllocator(factory)
    requires Run(NewState(size).value, factory, {}, ops).honest
    ensures var t := Run(NewState(size).value, factory, {}, ops).pool;
      (forall x :: x in t.idle ==> x !in t.closeLog) && (forall x :: multiset(t.closeLog)[x] <= 1)
    ensures var o := Run(NewState(size).value, factory, {}, ops);
      o.pool.closed && o.lent == {} ==>
        forall x :: multiset(o.pool.closeLog)[x] == (if x in Produced(factory, o.pool.allocations) then 1 else 0)
  {
    var s := NewState(size).value;
    var o := Run(s, factory, {}, ops);
    NewIsAccounted(size, factory);
    RunKeepsAccounts(s, factory, {}, ops);
    StoredOrClosedNeverBoth(o.pool, factory, o.lent);
    if o.pool.closed && o.lent == {} {
      ClosedPoolClosedEverything(o.pool, factory);
    }
  }
}
