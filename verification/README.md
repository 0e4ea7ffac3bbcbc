# limitmap in Dafny

A model of the Go package `limitmap`: a map of counting semaphores keyed by
string, used to cap concurrency per key (per host, per shard). Entries are
created by the first `Acquire` of a key, carry a reference count of the
callers currently using the key, and are deleted by the `Release` that drops
that count to zero. A `sync.WaitGroup` counts all outstanding acquisitions so
that `Wait` can drain the map.

Every change to the map and to the reference counts happens under one lock.
The model makes each operation one atomic, pure transition on immutable
values. It also folds into that step the WaitGroup update and the semaphore
release that the Go code performs after unlocking (see "## Left out"):

- `outcomes.dfy` — `Outcomes`: one `Panic` constructor per `panic` call, and
  `Result`/`Option`.
- `mapsum.dfy` — `MapSum`: the sum of a per-entry quantity over a map, with
  the lemmas (remove, update, insert, monotone, non-negative, lower bound)
  that the registry proofs use.
- `semaphore.dfy` — `Semaphore`: the `Sem(refs, max, value)` value and
  `NewSemaphore`, `Acquire` (one pass of the wait loop: `Blocked` or
  `Acquired`), `Release`.
- `registry.dfy` — `Registry`: the `LimitMap(limits, outstanding)` value,
  where `outstanding` is the WaitGroup counter. `LimitMap.Acquire` is split
  into `Register` (lines 82-91: look up or create, `refs++`, `wg.Add(1)`) and
  `Grant` (lines 92-94: the semaphore acquire and its overflow check). A
  caller blocked on the condition variable is a `Grant` that returns
  `Waiting`. `Release`, `Wait` and `Size` follow. The invariant `Inv` says
  that every live entry has `refs >= 1`, `1 <= max`, `value <= max` and
  `value <= refs`, and that `outstanding` is the sum of `refs`.
- `trace.dfy` — `Trace`: interleavings of `Register`, `Grant` and `Release`
  steps by any number of callers, with refcount conservation and draining.

## Model

| member | source | states |
|---|---|---|
| Semaphore.NewSemaphore | limitmap.go:36-44 | capacity 0 panics; any other capacity gives a valid semaphore with that capacity, nothing granted and no references |
| Semaphore.Acquire | limitmap.go:46-56 | a slot is taken only while one more fits under `max`, and the new count is returned; on a valid semaphore the caller blocks exactly when all slots are taken, and a granted count lies in 1..max |
| Semaphore.Release | limitmap.go:58-67 | panics exactly when nothing is granted; otherwise frees exactly one slot, keeps the semaphore valid and returns 0, since the named result is never assigned |
| Semaphore.AcquireThenRelease | limitmap.go:46-67 | a granted slot that is given back restores the semaphore exactly |
| Semaphore.ReleaseThenAcquire | limitmap.go:46-67 | a slot freed on a valid semaphore can be taken again at once, which restores the semaphore |
| Registry.NewLimitMap | limitmap.go:75-79 | the new map has no keys, a zero wait group, and satisfies the invariant |
| Registry.Register | limitmap.go:81-91 | fails only when an absent key is given capacity 0; an absent key gets `Sem(1, max, 0)`; a present key gains one reference with `max` and `value` unchanged; the wait group gains one; no other key changes |
| Registry.Grant | limitmap.go:92-94 | on a valid entry the caller waits exactly when the entry is full and the overflow panic never fires; a grant adds one slot to that key only, still within `max` |
| Registry.Release | limitmap.go:97-116 | an absent key panics; with a referenced entry it fails exactly when nothing is granted; otherwise the key loses one reference and one slot, the entry is deleted exactly when its last reference goes, and no other key changes |
| Registry.Wait | limitmap.go:118-121 | under the invariant, Wait returns exactly when no key is live |
| Registry.OutstandingCountsLiveKeys | limitmap.go:81-121 | the wait group count is at least the number of live keys and is zero exactly when the map is empty |
| Registry.Size | limitmap.go:123-131 | returns the number of keys and the sum of granted slots over all entries; under the invariant the total is between 0 and the wait group count |
| Registry.SizeBounds | limitmap.go:123-131 | under the invariant the granted total is non-negative and at most the number of outstanding acquisitions |
| Registry.RegisterPreservesInv | limitmap.go:81-91 | Register keeps every entry valid and the wait group equal to the sum of references |
| Registry.GrantStep | limitmap.go:92-94 | for a registered caller still waiting: no overflow panic, waiting exactly when the entry is full, and a grant keeps the invariant with a count in 1..max |
| Registry.ReleaseStep | limitmap.go:97-116 | under the invariant only the two misuse panics (absent key, nothing granted) can happen, never `refs < 0` or the overflow check; a successful Release keeps the invariant |
| Registry.FirstWriterWins | limitmap.go:83-88 | a second Register of a live key succeeds and leaves the capacity set by the Register that created the entry |
| Registry.RegisterIgnoresMax | limitmap.go:83-88 | on a live key Register's result does not depend on its `max` argument |
| Registry.AcquireBelowMaxIsGranted | limitmap.go:81-94 | a caller registering on an absent key, or on a key with a free slot, is granted without waiting |
| Registry.AcquireThenReleaseRestores | limitmap.go:81-116 | Acquire followed by Release of the same key gives back exactly the starting registry, deleting an entry the Acquire created |
| Trace.StepKeepsInv | limitmap.go:27-29 | every enabled step keeps the invariant and changes a key's references only by its own Register (+1) or Release (-1) |
| Trace.RunKeepsInv | limitmap.go:27-29 | along any execution the invariant holds and each key's references equal the initial ones plus its Registers minus its Releases |
| Trace.BalancedKeyIsRemoved | limitmap.go:103-109 | a key without an entry that is acquired n times and released n times ends without an entry, whatever other keys do |
| Trace.BalancedRunDrains | limitmap.go:118-131 | from a new map, an execution that releases every key as often as it registers it ends with no keys, no granted slots and a zero wait group, so Wait returns |
| Trace.DrainsExactlyWhenBalanced | limitmap.go:118-121 | after an execution from a new map, Wait returns exactly when every key has been released as often as it was registered, and keeps blocking while any key is unbalanced |
| Trace.CapacityTwoThreeWorkers | limitmap.go:46-116 | with capacity 2 and three workers on one key, two are granted and the third waits; one Release lets it through; three Releases empty the map |

## Left out

- Goroutines, `sync.Mutex`, `sync.Cond` and `sync.WaitGroup` blocking. Each
  critical section is one atomic step. Blocking in `Semaphore.Acquire` is a
  step that returns `Blocked`/`Waiting`, and `Wait` is the test that the
  counter is zero.
- Release as separate steps. The Go code updates the map under the lock
  (lines 98-110), releases the semaphore after unlocking (line 112), and
  only then calls `wg.Done()` (line 115). The model takes all three in one
  step. Between lines 110 and 112 a concurrent `Size`, or an `Acquire` on a
  still-live key, sees the old `value`. Between the map update and line 115,
  `Wait` keeps blocking although the map may already be empty.
- Register as separate steps. `wg.Add(1)` (line 91) runs after the unlock at
  line 89, so in Go `Wait` can return while a key just registered is live.
- Registry.Wait: `done <==> limits == map[]` is a promise about the model's
  step boundaries, not about every instant of a Go execution. The invariant
  `outstanding == Sum(refs)` it rests on holds only because `Register` and
  `Release` merge the WaitGroup update into the locked step; the Go counter
  can lag the references in both directions.
- The panic order inside Release. In Go the map is already updated when
  `Semaphore.Release` panics. A panic is fatal, so the model returns `Fail`
  and drops the state.
- The unsynchronised read of `l.value` in `Size` (line 127). This is a data
  race; the model reads a consistent snapshot.
- The usage example in the package comment (lines 3-14). It is illustrative
  HTTP code.
- Semaphore.Acquire: Go `uint` wrap-around is not modelled; counts are `nat`.
  The one place it could matter is `value == max == 2^64-1`, where
  `value+1` wraps to 0 and the guard passes. That needs 2^64-1 concurrent
  holders.
- Registry.Grant: requires the key to be live, because in Go the caller
  holds the semaphore pointer it registered. `GrantStep` also requires
  `value < refs`, meaning some registered caller is still waiting. Under
  the invariant an entry with a waiting caller is never deleted.
- The WaitGroup's own panic on a negative counter is not modelled. Under the
  invariant `outstanding` is the sum of `refs` and never goes negative.

The overflow check at limitmap.go:112 compares the named result `result` of
`Semaphore.Release` with `max`. That result is never assigned, so it is always
0 and the check can never fire.
