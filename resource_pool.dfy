/** A pool of closeable resources shared between consumers: a bounded FIFO
    store of idle resources (a buffered channel in the Go code), an allocator
    to fall back on when the store is empty, and a closed flag.

    Every operation is taken to run atomically (the Go code serialises
    Release and Close with a mutex). Resources are known only by an id, and
    each call of a resource's Close is recorded in a close log. */
module ResourcePool {

  /** A resource, known only by an opaque id. */
  type ResourceId = nat

  datatype PoolError =
    | PoolClosed                 // ErrorPoolClosed: Acquire on a closed, drained pool
    | SizeTooSmall               // New with a zero size
    | AllocatorError(code: int)  // whatever the allocator reported, passed on unchanged

  datatype Result<T> = Ok(value: T) | Err(error: PoolError)

  /** What one call of the allocator yields: a new resource, or an error
      known only by a code. */
  datatype Allocation = Allocated(id: ResourceId) | AllocFailed(code: int)

  /** The allocator as an oracle: its n-th call (counting from 0) yields
      `allocator(n)`. */
  type Allocator = nat -> Allocation

  /** An allocation as Acquire returns it: the resource, or the allocator's
      error passed on as it is. */
  function Passed(a: Allocation): (r: Result<ResourceId>)
    ensures r.Ok? <==> a.Allocated?
    ensures a.Allocated? ==> r.value == a.id
    ensures a.AllocFailed? ==> r.error == AllocatorError(a.code)
  {
    match a
    case Allocated(id) => Ok(id)
    case AllocFailed(code) => Err(AllocatorError(code))
  }

  /** The state of a pool between two operations. */
  datatype State = State(
    idle: seq<ResourceId>,      // the idle store, oldest first
    size: nat,                  // capacity of the idle store
    closed: bool,               // the pool's closed flag
    storeClosed: bool,          // whether the idle store's channel has been closed
    allocations: nat,           // how often the allocator has been called
    closeLog: seq<ResourceId>)  // every resource Close call, in order

  /** What holds between operations: the store is within its capacity, the
      store's channel is closed exactly when the flag is set, and a closed
      pool keeps nothing idle. */
  predicate Invariant(s: State) {
    0 < s.size && |s.idle| <= s.size &&
    s.storeClosed == s.closed &&
    (s.closed ==> s.idle == [])
  }

  /** New: a pool of the given size, or an error for size zero. */
  function NewState(size: nat): (r: Result<State>)
    ensures r.Err? <==> size == 0
    ensures r.Err? ==> r.error == SizeTooSmall
    ensures r.Ok? ==> Invariant(r.value) && r.value.size == size && !r.value.closed
    ensures r.Ok? ==> r.value.idle == [] && r.value.allocations == 0 && r.value.closeLog == []
  {
    if size <= 0 then Err(SizeTooSmall)
    else Ok(State([], size, false, false, 0, []))
  }

  datatype Acquired = Acquired(next: State, result: Result<ResourceId>)

  /** Acquire: the oldest idle resource; once the store's channel is closed
      and empty, PoolClosed; otherwise whatever the allocator yields. */
  function AcquireStep(s: State, factory: Allocator): (a: Acquired)
    ensures Invariant(s) ==> Invariant(a.next)
    ensures a.next.size == s.size && a.next.closed == s.closed && a.next.storeClosed == s.storeClosed
    ensures a.next.closeLog == s.closeLog
    ensures a.result == Err(PoolClosed) <==> s.idle == [] && s.storeClosed
  {
    if |s.idle| > 0 then Acquired(s.(idle := s.idle[1..]), Ok(s.idle[0]))
    else if s.storeClosed then Acquired(s, Err(PoolClosed))
    else Acquired(s.(allocations := s.allocations + 1), Passed(factory(s.allocations)))
  }

  /** The pool's holdings: what sits in the idle store and what it has closed. */
  function Held(s: State): multiset<ResourceId> {
    multiset(s.idle) + multiset(s.closeLog)
  }

  /** Release: a closed pool closes the resource; an open pool stores it if
      there is room and closes it otherwise. */
  function ReleaseStep(s: State, resource: ResourceId): (t: State)
    requires Invariant(s)
    ensures Invariant(t)
    ensures t.size == s.size && t.closed == s.closed && t.allocations == s.allocations
    ensures Held(t) == Held(s) + multiset{resource}
    ensures (t.idle == s.idle + [resource] && t.closeLog == s.closeLog) ||
            (t.idle == s.idle && t.closeLog == s.closeLog + [resource])
  {
    if s.closed then s.(closeLog := s.closeLog + [resource])
    else if |s.idle| < s.size then s.(idle := s.idle + [resource])
    else s.(closeLog := s.closeLog + [resource])
  }

  /** Close: set the flag, close the store's channel, and close every idle
      resource in store order; a closed pool is left as it is. */
  function CloseStep(s: State): (t: State)
    requires Invariant(s)
    ensures Invariant(t) && t.closed && t.idle == []
    ensures t.closeLog == s.closeLog + s.idle
    ensures t.size == s.size && t.allocations == s.allocations
  {
    if s.closed then s
    else s.(closed := true, storeClosed := true, idle := [], closeLog := s.closeLog + s.idle)
  }

  /** The pool itself. The allocator's internal state is the number of calls
      made so far; the close log is ghost, since it only records. */
  class Pool {
    var idle: seq<ResourceId>
    const size: nat
    const factory: Allocator
    var closed: bool
    var storeClosed: bool
    var allocations: nat
    ghost var closeLog: seq<ResourceId>

    ghost function View(): State
      reads this
    {
      State(idle, size, closed, storeClosed, allocations, closeLog)
    }

    ghost predicate Valid()
      reads this
    {
      Invariant(View())
    }

    /** The pool New builds once the size has passed its check. */
    constructor (allocator: Allocator, size: nat)
      requires 0 < size
      ensures Valid() && factory == allocator
      ensures NewState(size) == Ok(View())
    {
      this.idle := [];
      this.size := size;
      this.factory := allocator;
      this.closed := false;
      this.storeClosed := false;
      this.allocations := 0;
      this.closeLog := [];
    }

    method Acquire() returns (r: Result<ResourceId>)
      requires Valid()
      modifies this
      ensures Valid()
      ensures AcquireStep(old(View()), factory) == Acquired(View(), r)
    {
      if |idle| > 0 {
        r := Ok(idle[0]);
        idle := idle[1..];
      } else if storeClosed {
        r := Err(PoolClosed);
      } else {
        r := Passed(factory(allocations));
        allocations := allocations + 1;
      }
    }

    method Release(resource: ResourceId)
      requires Valid()
      modifies this
      ensures Valid()
      ensures View() == ReleaseStep(old(View()), resource)
    {
      if closed {
        closeLog := closeLog + [resource];
        return;
      }
      if |idle| < size {
        idle := idle + [resource];
      } else {
        closeLog := closeLog + [resource];
      }
    }

    method Close()
      requires Valid()
      modifies this
      ensures Valid()
      ensures View() == CloseStep(old(View()))
    {
      if closed {
        return;
      }
      closed := true;
      storeClosed := true;
      // drain what is left in the store, closing each resource
      while |idle| > 0
        invariant closed && storeClosed && allocations == old(allocations)
        invariant closeLog + idle == old(closeLog) + old(idle)
        decreases |idle|
      {
        var resource := idle[0];
        assert closeLog + idle == (closeLog + [resource]) + idle[1..];
        idle := idle[1..];
        closeLog := closeLog + [resource];
      }
      assert idle == [];
    }
  }

  /** New: no pool for a zero size, otherwise an open pool with an empty
      store of the given capacity holding the given allocator. */
  method New(allocator: Allocator, size: nat) returns (r: Result<Pool>)
    ensures r.Err? <==> size == 0
    ensures r.Err? ==> r.error == SizeTooSmall
    ensures r.Ok? ==> fresh(r.value) && r.value.Valid() && r.value.factory == allocator
    ensures r.Ok? ==> NewState(size) == Ok(r.value.View())
  {
    if size <= 0 {
      return Err(SizeTooSmall);
    }
    var pool := new Pool(allocator, size);
    return Ok(pool);
  }
}
