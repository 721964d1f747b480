# jconcur core, modelled in Dafny

A model of the parts of the `jconcur` Java teaching repository whose behaviour
is sequential enough to be stated and proved:

- **ThreadPool** (`day2Morning/tpool`, `class2Morning/tpool` and `tpool`, three
  copies with the same behaviour). A fixed crew of `PoolWorker` threads serves an
  unbounded FIFO `jobQueue`. Each `synchronized (jobQueue)` block is one atomic
  method call:
  - `Execute` appends at the tail.
  - `PoolWorker.Step` is one pass of the worker's `while (true)` loop: it removes
    the head of a non-empty queue, and on an empty queue it changes nothing (the
    worker would `wait()`).
  - `RunRounds` drives that loop with the outcomes of the jobs it runs.

  Ghost histories `submitted` and `taken` state exactly-once FIFO delivery
  (`taken + jobQueue == submitted`). A trace model (`Transition`, `Replay`,
  `Deliveries`) states the same over any interleaving of submissions and worker
  turns. The constructor keeps its quirk: it starts `n` workers but leaves every
  entry of `poolWorkers` null, because the start loop assigns each new worker
  only to the loop variable. `PoolWorker` is a private inner class, so the
  pool's ghost `workers` records the crew the constructor started, and only a
  member of that crew may take a turn. A worker's life is `New`, `Running` or
  `Ended`: `Start` succeeds only on a new thread, and an Error ends it for good.
- **Semaphore pools**. Both pools are classes whose in-place updates are modelled
  as such. The counting semaphore is the integer `permits`: `acquire` is the
  precondition `permits > 0` followed by a decrement, and `release` is an
  increment. The invariant `Valid()` says the permits equal the free slots. It is
  preserved by every get, and by every put of a resource that belongs to the pool
  or is already available, and it is why the first-fit scan never comes back
  empty. `putResource` does not check where a resource comes from: returning a
  checked-out `Resource` of another pool releases a permit with no free resource
  behind it, and `PutResource` states that the invariant then fails.
  - `ResourcePool` (`class2Afternoon/sema`) is an array of `Resource` objects,
    each with an `available` flag.
  - `Pool` (`sema`) is an array of item strings with a parallel `used` array.
    Items are compared by reference, so they are objects (`Item`).
- **ImmutableRGB** (two copies). It is a value, so it is a datatype. Its
  constructor is `New`, which either yields an instance or the
  `IllegalArgumentException` that `check` throws. `getName` is the datatype's
  `name` field. A constructed component lies in 0..255, so each one is kept as
  the byte (`bv8`) holding it, and `getRGB` is 32-bit shift-and-or arithmetic
  (`RgbBits.Pack`).
- **BasicCounter / CallableBasicCounter** (four copies). Summation loops,
  specified by the reference sum `SumRange` and its closed form
  `count * (count - 1) / 2`.

The worker's `catch` covers only `RuntimeException`. Any other `Throwable` thrown
by a job (typically a `java.lang.Error`) therefore escapes `run()` and ends that
worker thread. The model
follows the code here (`Outcome.ErrorThrown`, `ErrorEndsWorker`), even though
the pool's design intent is that no job failure ever stops a worker.

## Model

| member | source | states |
|---|---|---|
| TPool.ThreadPool.constructor | day2Morning/tpool/ThreadPool.java:38-47 | empty queue and histories, `threadCount == n`, a fresh worker array of length `n` whose entries all stay null, and `n` distinct fresh workers, all running and all serving this pool |
| TPool.ThreadPool.ZeroThreadsNoWorkers | day2Morning/tpool/ThreadPool.java:36-47 | a valid pool of zero threads has no worker at all, so no worker turn can drain its queue |
| TPool.NewThreadPool | tpool/ThreadPool.java:31-39 | construction fails with `NegativeArraySizeException` exactly when `n < 0`; otherwise a fresh valid pool with `n` workers and an empty queue |
| TPool.ThreadPool.Execute | day2Morning/tpool/ThreadPool.java:57-61 | appends the job at the tail of the queue and of the `submitted` history, with no capacity check; changes nothing else, and the FIFO invariant is kept |
| TPool.PoolWorker.constructor | day2Morning/tpool/ThreadPool.java:45 | a new thread bound to `pool`, in state `New` (not yet started) |
| TPool.PoolWorker.Start | day2Morning/tpool/ThreadPool.java:46 | a new thread starts running; a thread already started or ended gets `IllegalThreadStateException` and stays as it was |
| TPool.PoolWorker.Step | day2Morning/tpool/ThreadPool.java:75-96 | only a running worker of the pool's own crew takes a turn. A non-empty queue loses exactly its head, which is returned and appended to `taken`. An empty queue is left unchanged, nothing is removed, and the worker keeps running. The worker ends only when a job throws an Error. The FIFO invariant is kept |
| TPool.PoolWorker.RunRounds | class2Morning/tpool/ThreadPool.java:62-83 | a running worker of the pool's crew takes exactly the first `Served(...)` jobs of the queue, in order. The queue keeps the rest, `taken` grows by exactly those jobs, and the worker is still running if none of their outcomes was an Error and has ended otherwise |
| TPool.TransitionConserves | class2Morning/tpool/ThreadPool.java:49-77 | one transition neither loses nor invents a job: removed jobs followed by the new queue equal the old queue followed by the appended job |
| TPool.FifoExactlyOnce | class2Morning/tpool/ThreadPool.java:49-77 | over any interleaving of submissions and worker turns, the delivered jobs followed by the remaining queue equal the initial queue followed by the submitted jobs, in order |
| TPool.DeliveriesDistinct | tpool/ThreadPool.java:41-64 | if the queued and submitted jobs are distinct, no job is delivered twice |
| TPool.NoWorkersQueueGrows | day2Morning/tpool/ThreadPool.java:36-61 | with no worker turns, the only traces a zero-thread pool admits (`ZeroThreadsNoWorkers`), nothing is delivered, and the queue is the initial queue plus every submission |
| TPool.Served | tpool/ThreadPool.java:55-71 | a worker never takes more jobs than are pending or than it runs |
| TPool.RuntimeFailuresContained | tpool/ThreadPool.java:65-73 | when no job throws an Error, RuntimeExceptions never stop the worker: it takes `min(pending, runs)` jobs |
| TPool.ErrorEndsWorker | day2Morning/tpool/ThreadPool.java:93-96 | the first job that throws an Error is the last one its worker takes |
| TPool.JobRun | tpool/ThreadPool.java:86-101 | the sample job prints its line `max_runs + 1` = 9 times, each line being its name followed by " executing." |
| Sema.Resource.constructor | class2Afternoon/sema/Semaphores.java:95-98 | a new resource has the given name and is available |
| Sema.DecimalString | class2Afternoon/sema/Semaphores.java:129 | Java's decimal rendering of the index in `"Resource" + i`: one or more digits, no leading zero unless the index is 0, and a single digit exactly for indices below 10 |
| Sema.ResourcePool.constructor | class2Afternoon/sema/Semaphores.java:120-130 | ten fresh, distinct resources named "Resource0".."Resource9", all available, with ten permits; the invariant holds |
| Sema.ResourcePool.CheckedOutBound | class2Afternoon/sema/Semaphores.java:120-125 | under the invariant, permits plus checked-out resources equal `MaxPermits`, so permits stay in 0..10 |
| Sema.ResourcePool.GetResource | class2Afternoon/sema/Semaphores.java:132-135 | with a permit in hand the result is never null. It is the lowest-indexed available resource, only that resource's flag is cleared, one permit is taken, and the invariant is kept |
| Sema.ResourcePool.PutResource | class2Afternoon/sema/Semaphores.java:138-142 | the resource ends up available. A permit is released only if it was checked out, so a double return releases once. Only its own flag changes. The invariant survives exactly when the resource belongs to the pool or was already available |
| Sema.ResourcePool.GetAvailableResource | class2Afternoon/sema/Semaphores.java:146-154 | first fit: returns the lowest-indexed available resource and clears only its flag; returns null and changes nothing when none is available |
| Sema.ResourcePool.ResourceHasBeenReturned | class2Afternoon/sema/Semaphores.java:158-168 | returns true exactly when the resource was checked out; afterwards it is available, and no other flag changes |
| Sema.Pool.constructor | sema/Semaphores.java:79-87 | ten fresh, distinct items "Item0".."Item9", every `used` flag false, ten permits; the invariant holds |
| Sema.Item.constructor | sema/Semaphores.java:86 | the run-time `String` object built by `"Item" + i`, holding exactly the given text |
| Sema.Pool.InUseBound | sema/Semaphores.java:79-82 | under the invariant, permits plus items in use equal `MAX_AVAILABLE`, so permits stay in 0..10 |
| Sema.Pool.GetItem | sema/Semaphores.java:89-92 | with a permit in hand the result is never null. It is the first unused item, only its `used` flag is set, one permit is taken, and the invariant is kept |
| Sema.Pool.PutItem | sema/Semaphores.java:94-96 | a permit is released exactly when the item (by identity) is in the table and in use. Then only its flag is cleared; otherwise nothing changes. The invariant is kept |
| Sema.Pool.GetNextAvailableItem | sema/Semaphores.java:98-106 | sets the lowest clear `used` flag and returns that item; returns null with nothing changed only when every item is in use |
| Sema.Pool.MarkAsUnused | sema/Semaphores.java:108-120 | returns true exactly when the item is in the table by identity and in use, and then clears only its flag. An unused or foreign item gives false and changes nothing |
| Slots.FirstIndex | class2Afternoon/sema/Semaphores.java:147-153 | the index a first-fit scan stops at: the slot carries the flag and no earlier slot does; none only when no slot carries it |
| Slots.FirstIndexNoneIffCountZero | sema/Semaphores.java:98-105 | the scan finds nothing exactly when no slot is free, so the "not reached" null is unreachable while a permit is held |
| Slots.CountFlipAway | class2Afternoon/sema/Semaphores.java:148-149 | checking out one free slot lowers the free count by exactly one |
| Slots.CountFlipTo | class2Afternoon/sema/Semaphores.java:161-166 | returning one checked-out slot raises the free count by exactly one |
| Slots.CountAll | class2Afternoon/sema/Semaphores.java:128-129 | a table whose slots are all free counts every slot as free |
| Slots.CountComplement | sema/Semaphores.java:80-82 | free slots plus used slots make up the whole table |
| Immut.Check | class1Afternoon/immut/ImmutableRGB.java:48-56 | throws nothing exactly when every component is in 0..255 |
| Immut.New | class1Afternoon/immut/ImmutableRGB.java:19-28 | yields an instance iff all components are in 0..255, holding exactly the given components and name; otherwise `IllegalArgumentException` |
| Immut.GetRGB | class1Afternoon/immut/ImmutableRGB.java:31-33 | the shift-or packing `(red << 16) \| (green << 8) \| blue` of the three bytes; its top byte is clear, so the int is never negative (its value is given by `GetRGBValue`) |
| Immut.GetRGBValue | class1Afternoon/immut/ImmutableRGB.java:31-33 | the packed int is `red * 65536 + green * 256 + blue` and lies in 0..0xFFFFFF |
| Immut.PackRoundTrip | class1Afternoon/ImmutableRGB.java:42-44 | shifting right by 16, 8 and 0 and masking with 0xFF recovers red, green and blue |
| Immut.ByteComplement | class1Afternoon/ImmutableRGB.java:52-54 | storing `255 - c` gives the complement of the byte `c` |
| Immut.Invert | class1Afternoon/immut/ImmutableRGB.java:40-45 | never throws on a constructed instance; each component becomes `255 -` it, and the name becomes "Inverse of " + name |
| Immut.InvertTwice | class1Afternoon/ImmutableRGB.java:51-56 | inverting twice restores every component; the name records both inversions |
| Immut.InvertPacked | class1Afternoon/immut/ImmutableRGB.java:31-45 | the inverse's packed value is `0xFFFFFF` minus the original's |
| RgbBits.PackValue | class1Afternoon/ImmutableRGB.java:43 | the shift-or packing of three bytes is their base-256 numeral, at most 0xFFFFFF |
| RgbBits.Unpack | class1Afternoon/immut/ImmutableRGB.java:32 | each byte is recovered from the packed int by shift and mask |
| RgbBits.ComplementValue | class1Afternoon/immut/ImmutableRGB.java:41-43 | on a byte, `0xFF - x` does not wrap: its value is `255 - x` |
| RgbBits.PackComplement | class1Afternoon/immut/ImmutableRGB.java:41-43 | packing the complemented bytes gives `0xFFFFFF` minus the packed original |
| BasicC.BasicCounterRun | class1Morning/basicC/BasicCounter.java:25-29 | the loop's sum is 1 + ... + (count - 1), which is `count * (count - 1) / 2` for `count >= 1` and 0 otherwise, and fits in a `long` |
| BasicC.CallableBasicCounterCall | day1Morning/basicC/CallableBasicCounter.java:19-26 | the returned sum is 0 + ... + (count - 1), which is `count * (count - 1) / 2` for `count >= 0` and 0 otherwise, and fits in a `long` |
| BasicC.SumRangeClosedForm | basics/basicC/CallableBasicCounter.java:14-18 | 0 + 1 + ... + (n - 1) equals `n * (n - 1) / 2` |
| BasicC.ZeroTermAddsNothing | day1Morning/basicC/CallableBasicCounter.java:22-23 | starting the sum at 0 (`call`) or at 1 (`run`) gives the same total |
| BasicC.SumFitsInLong | basics/basicC/BasicCounter.java:11-18 | for every count up to 2^32 the closed form is at most `Long.MAX_VALUE` |
| BasicC.SampleRun | class1Morning/basicC/RunBasicCounter1.java:51-52 | counts 10,000,000 and 10,000,001 give 49999995000000 and 50000005000000, as in the recorded sample run |

## Left out

- Threads, `start()` scheduling, `synchronized`, `wait`/`notify` and `InterruptedException`: each locked block is one atomic method call, and a worker's wait on an empty queue is a step that changes nothing.
- Job bodies: a job is opaque, and only how its `run()` ends (`Outcome`) is given. A job's own side effects, including a job that submits more jobs, are not modelled.
- TPool.PoolWorker.RunRounds: the `while (true)` loop is bounded by the sequence of outcomes supplied, so a run stops when they run out; an infinite run is not modelled.
- TPool.JobRun: the random 10 or 15 ms sleeps are left out, and the printed lines are returned as a sequence rather than written to standard output.
- `log_exception` has an empty body; catching a `RuntimeException` and calling it are both modelled as "nothing changes".
- The `int` width of the pool size is not modelled; `n` is an unbounded integer.
- `java.util.concurrent.Semaphore` fairness and blocking: `acquire` is the precondition `permits > 0`, and `release` is an increment.
- The `Executors` resource-user loops, `Thread.sleep`, `Math.random` and all `printf`/`println` output.
- Sema.ResourcePool.PutResource: the parameter is a non-null `Resource`; with `null`, Java would throw a `NullPointerException` in `resourceHasBeenReturned`.
- Sema.Pool.PutItem: `null`, or a string equal to an item's text but not the same object, is simply not found, as in the code; string interning is not modelled.
- ImmutableRGB object identity: an instance is a value, so "invert returns a new object and leaves the original unchanged" holds trivially and is not stated separately.
- BasicC.BasicCounterRun: requires `count <= 2^32`, the largest count whose sum fits in a `long`; the `long` wrap-around beyond that is not modelled.
- BasicC.CallableBasicCounterCall: requires `count <= 2^32` for the same reason; the `long` wrap-around beyond that is not modelled.
- The thread names printed by the counters, and the `ExecutorService` drivers that run them.
