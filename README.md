# Resource pool and index search, modelled in Dafny

This project models two parts of a small Go toolkit of concurrency helpers.

**The resource pool** (`executors/pool/resource/resource_pool.go`) lends out closeable resources. It keeps a bounded FIFO store of idle resources; in Go this store is a buffered channel of capacity `size`. When the store is empty it calls an allocator. It has a `closed` flag. Each operation (`New`, `Acquire`, `Release`, `Close`) is modelled as one atomic step; the Go code uses a mutex to get that effect.

- `resource_pool.dfy` (module `ResourcePool`) gives the pool's state as a value (`State`) and each operation as a step function on it (`NewState`, `AcquireStep`, `ReleaseStep`, `CloseStep`). It also has the class `Pool`, whose fields are updated in place. Each of its methods is proved to change the pool exactly as the matching step function says. `Close` drains the store with a loop, as the Go code does.
- A resource is an opaque id (`ResourceId`). Each call of a resource's `Close` is appended to a close log. The log is a ghost field of `Pool` and a plain field of `State`.
- The allocator is an oracle. Its n-th call (counting from 0) yields `factory(n)`, an `Allocation`: a resource id, or a failure known only by a code. `Acquire` passes a failure on as `AllocatorError` with the same code, so it can never be confused with `PoolClosed`. The pool keeps the allocator and counts how often it has called it (`allocations`). So "Acquire did not call the allocator" can be stated directly.
- The channel is modelled as a sequence with a fixed capacity, plus a flag `storeClosed` for `close(pool.resources)`. A receive from an empty closed channel fails (`PoolClosed`). A receive from an empty open channel falls through to the allocator.
- `pool_properties.dfy` (module `PoolProperties`) proves what the pool promises:
  - the outcome of each operation in each case;
  - what happens when many resources are released in a row;
  - that every resource is closed exactly once. `Accounted` counts where each allocated resource is: in the idle store, in the close log, or held by a caller. Every operation keeps this count. So over any run in which callers release only what they hold, no resource is both stored and closed, and none is closed twice. Once the pool is closed and everything has been released, each resource the allocator produced has been closed exactly once.

**`IndexOf`** (`slices/slices.go`, module `Slices` in `slices.dfy`) is a bounded linear search. It returns the first index in `[0, limit)` that satisfies a predicate, or `INVALID` (-1) when there is none. The predicate is a total function `int -> bool`. A ghost out-parameter lists the indices the predicate was asked about, so "stops at the first hit" and "never asks when `limit <= 0`" can be stated.

## Model

| member | source | states |
|---|---|---|
| `ResourcePool.NewState` | executors/pool/resource/resource_pool.go:36-45 | fails, with the too-small error, exactly when size is 0; otherwise the pool is open, its store is empty with capacity `size`, nothing is allocated or closed, and the invariant holds |
| `ResourcePool.New` | executors/pool/resource/resource_pool.go:36-45 | returns no pool, only the too-small error, exactly when size is 0; otherwise a fresh valid pool that holds the given allocator and is in the state `NewState` describes |
| `ResourcePool.Pool.constructor` | executors/pool/resource/resource_pool.go:41-44 | the new pool holds the given allocator, is valid, and is in the initial state `NewState` gives |
| `ResourcePool.AcquireStep` | executors/pool/resource/resource_pool.go:50-63 | Acquire keeps the pool invariant (store within capacity, closed pool empty), never changes capacity or closed state, never closes a resource, and fails with `PoolClosed` exactly when the store is empty and its channel closed |
| `ResourcePool.Pool.Acquire` | executors/pool/resource/resource_pool.go:50-63 | the returned value and the new state of the pool are exactly those of `AcquireStep` on the old state with the pool's allocator, and the pool stays valid |
| `ResourcePool.ReleaseStep` | executors/pool/resource/resource_pool.go:68-85 | Release keeps the invariant, so the store never exceeds `size`; either the resource is appended to the store and nothing is closed, or it alone is closed and the store is unchanged; so it ends up once, in exactly one of the two |
| `ResourcePool.Pool.Release` | executors/pool/resource/resource_pool.go:68-85 | the new state is exactly `ReleaseStep` of the old one, and the pool stays valid |
| `ResourcePool.CloseStep` | executors/pool/resource/resource_pool.go:90-107 | after Close the pool is closed, its store empty, and the close log has gained exactly the idle resources, in store order; when the pool was already closed, nothing is closed |
| `ResourcePool.Pool.Close` | executors/pool/resource/resource_pool.go:90-107 | the drain loop leaves the pool exactly in the state `CloseStep` gives, and the pool stays valid |
| `PoolProperties.AcquireTakesOldest` | executors/pool/resource/resource_pool.go:51-57 | with resources idle, Acquire returns the oldest one, removes it from the front of the store and does not call the allocator |
| `PoolProperties.AcquireFallsBackToAllocator` | executors/pool/resource/resource_pool.go:59-61 | with the store empty and open, Acquire returns the allocator's outcome, its error passed on as `AllocatorError` with the same code, calls the allocator once and leaves the store empty |
| `PoolProperties.AcquireAfterClose` | executors/pool/resource/resource_pool.go:53-55 | after Close, Acquire fails with `PoolClosed` and changes nothing |
| `PoolProperties.AcquireFailsClosedOnlyWhenClosed` | executors/pool/resource/resource_pool.go:51-62 | on a valid pool, Acquire fails with `PoolClosed` exactly when the pool is closed, so an allocator failure is never reported as a closed pool |
| `ResourcePool.Passed` | executors/pool/resource/resource_pool.go:59-61 | an allocation becomes `Ok` exactly when the allocator produced a resource, with that resource; a failure becomes `AllocatorError` with the allocator's own code |
| `PoolProperties.ReleaseIntoClosedPool` | executors/pool/resource/resource_pool.go:72-75 | a closed pool closes the released resource and leaves its empty store unchanged |
| `PoolProperties.ReleaseIntoOpenPool` | executors/pool/resource/resource_pool.go:77-84 | an open pool stores the resource exactly when the store is below capacity, and closes it instead exactly when the store is full |
| `PoolProperties.CloseIsIdempotent` | executors/pool/resource/resource_pool.go:94-106 | a second Close changes nothing; a first Close adds each idle resource to the close log once |
| `PoolProperties.ReleaseAll` | executors/pool/resource/resource_pool.go:68-85 | releasing resources one after another keeps the invariant, the capacity and the closed state |
| `PoolProperties.ReleaseAllIntoFullStore` | executors/pool/resource/resource_pool.go:82-83 | releasing resources into an open pool whose store is full closes all of them, in release order, and changes nothing else |
| `PoolProperties.ReleaseAllFillsThenCloses` | executors/pool/resource/resource_pool.go:77-84 | releasing resources into an open pool fills the store's free room in release order and closes the rest in release order |
| `PoolProperties.OverflowIsClosed` | executors/pool/resource/resource_pool.go:77-84 | a new pool of capacity `size` that gets `size + extra` resources back keeps the first `size` idle and closes exactly the other `extra` |
| `PoolProperties.NewIsAccounted` | executors/pool/resource/resource_pool.go:41-44 | a new pool holds nothing and has allocated nothing, so the count of every resource's whereabouts starts out right |
| `PoolProperties.AcquireKeepsAccounts` | executors/pool/resource/resource_pool.go:50-63 | with an allocator that never repeats an id, Acquire moves one resource from the store or the allocator into a caller's hands; the caller did not hold it already |
| `PoolProperties.ReleaseKeepsAccounts` | executors/pool/resource/resource_pool.go:68-85 | releasing a held resource moves it into the store or the close log; every other resource stays where it was |
| `PoolProperties.CloseKeepsAccounts` | executors/pool/resource/resource_pool.go:90-107 | Close moves the idle resources into the close log and keeps the count right |
| `PoolProperties.StoredOrClosedNeverBoth` | executors/pool/resource/resource_pool.go:68-107 | while the count is right, no resource is both idle and closed, and none is closed twice |
| `PoolProperties.ClosedPoolClosedEverything` | executors/pool/resource/resource_pool.go:90-107 | a closed pool whose callers hold nothing has closed each allocated resource exactly once and nothing else |
| `PoolProperties.Run` | executors/pool/resource/resource_pool.go:50-107 | any sequence of Acquire, Release and Close calls keeps the pool invariant and the capacity |
| `PoolProperties.RunKeepsAccounts` | executors/pool/resource/resource_pool.go:50-107 | the count of every resource's whereabouts survives any run in which callers release only what they hold |
| `PoolProperties.EveryResourceClosedOnce` | executors/pool/resource/resource_pool.go:50-107 | over a pool's life, with callers that release only what they hold: never stored and closed at once, never closed twice; and once it is closed and everything is released, every allocated resource has been closed exactly once |
| `Slices.IndexOf` | slices/slices.go:11-18 | the result is `INVALID` or an index in `[0, limit)` that satisfies the predicate; it is the least such index; it is `INVALID` exactly when no index in `[0, limit)` qualifies; the predicate is asked about 0, 1, … up to the result, in order, and never when `limit <= 0` |

## Left out

- The mutex (resource_pool.go:22, 69-70, 91-92). Each operation is one atomic step, so interleavings of concurrent callers are not modelled. In particular, `Acquire` takes no lock in the source and could race with `Close`; the model does not capture that race.
- What a resource's `Close` does and the error it returns, which the source ignores. The model records only that `Close` was called on an id.
- The concrete allocator. It is an oracle indexed by call number, and an allocation failure is known only by an integer code. Exactly-once disposal is proved only for allocators that never hand out the same id twice (`FreshAllocator`) and for callers that release only what they hold (`Run`'s `honest` flag). The source cannot enforce either.
- The buffered channel as a ring buffer. It is a sequence with a fixed capacity. Sending on a closed channel (a panic in Go) cannot happen in the model: `Invariant` ties the channel's closed state to the `closed` flag, and `Release` checks that flag first.
- Machine integer widths: `size` is a `uint` and `limit` an `int` in Go. Both are unbounded here. `IndexOf`'s counter never passes `limit`, so it cannot overflow anyway.
- The empty interface type `Any` in slices/slices.go, which nothing uses.
- The work pool (executors/pool/work/work_pool.go) and the timeout runner (executors/runner/timeout_runner.go). All their behaviour is goroutines, rendezvous channels, wait groups, timers and OS signals, with no sequential content to model.
