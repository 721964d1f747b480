/**
 * The worker pool: a fixed crew of `PoolWorker` threads that take jobs from
 * an unbounded FIFO `jobQueue`. Every `synchronized (jobQueue)` block is one
 * atomic call: `Execute` appends a job at the tail, and a worker's turn
 * removes the head when there is one. A worker that finds the queue empty
 * would `wait()`; here its turn changes nothing. A job's body is opaque and
 * only its `Outcome` is given.
 *
 * The ghost histories `submitted` and `taken` record every job ever appended
 * and every job ever removed; the pool invariant `taken + jobQueue ==
 * submitted` is FIFO, exactly-once delivery.
 */
module TPool {
  import opened Options

  /** How a job's `run()` ends. */
  datatype Outcome =
    | Returned        // run() returned normally
    | RuntimeFailure  // a RuntimeException: the worker catches it and carries on
    | ErrorThrown     // any Throwable that is not a RuntimeException (typically an Error): not caught, so it ends the worker thread

  /** What `new ThreadPool(n)` throws instead of returning a pool. */
  datatype ConstructionError = NegativeArraySizeException

  /** A worker thread's life: created, started, ended. */
  datatype ThreadState = New | Running | Ended

  /** What `Thread.start()` throws on a thread that was already started. */
  datatype StartError = IllegalThreadStateException

  /** One atomic transition of the job queue. */
  datatype Transition<Job> = Submit(job: Job) | WorkerTurn

  /** The queue after one transition. */
  function After<Job>(queue: seq<Job>, t: Transition<Job>): (next: seq<Job>)
  {
    match t
    case Submit(job) => queue + [job]
    case WorkerTurn => if queue == [] then queue else queue[1..]
  }

  /** The jobs one transition hands to a worker: the head on a worker's turn, if any. */
  function Removed<Job>(queue: seq<Job>, t: Transition<Job>): (taken: seq<Job>)
  {
    if t.WorkerTurn? && queue != [] then [queue[0]] else []
  }

  /** The jobs appended by a run of transitions, in order. */
  function Submissions<Job>(ts: seq<Transition<Job>>): (jobs: seq<Job>)
  {
    if ts == [] then []
    else (if ts[0].Submit? then [ts[0].job] else []) + Submissions(ts[1..])
  }

  /** The queue after a run of transitions. */
  function Replay<Job>(queue: seq<Job>, ts: seq<Transition<Job>>): (final: seq<Job>)
    decreases ts
  {
    if ts == [] then queue else Replay(After(queue, ts[0]), ts[1..])
  }

  /** The jobs handed to workers during a run of transitions, in order. */
  function Deliveries<Job>(queue: seq<Job>, ts: seq<Transition<Job>>): (delivered: seq<Job>)
    decreases ts
  {
    if ts == [] then [] else Removed(queue, ts[0]) + Deliveries(After(queue, ts[0]), ts[1..])
  }

  /** One transition neither loses nor invents a job: what it removes, then the queue after it, is the queue plus what it appends. */
  lemma TransitionConserves<Job>(queue: seq<Job>, t: Transition<Job>)
    ensures Removed(queue, t) + After(queue, t) == queue + (if t.Submit? then [t.job] else [])
  {
    if t.WorkerTurn? && queue != [] {
      assert [queue[0]] + queue[1..] == queue;
    }
  }

  /**
   * FIFO, exactly once: over any interleaving of submissions and worker turns,
   * the jobs delivered followed by the jobs still queued are exactly the jobs
   * queued at the start followed by the jobs submitted, in order.
   */
  lemma {:induction false} FifoExactlyOnce<Job>(queue: seq<Job>, ts: seq<Transition<Job>>)
    ensures Deliveries(queue, ts) + Replay(queue, ts) == queue + Submissions(ts)
    decreases ts
  {
    if ts != [] {
      var t, rest := ts[0], ts[1..];
      var added := if t.Submit? then [t.job] else [];
      var next := After(queue, t);
      var later := Submissions(rest);
      FifoExactlyOnce(next, rest);
      TransitionConserves(queue, t);
      Regroup(Removed(queue, t), Deliveries(next, rest), Replay(next, rest));
      Regroup(Removed(queue, t), next, later);
      Regroup(queue, added, later);
    }
  }

  /** Concatenation is associative. */
  lemma Regroup<T>(a: seq<T>, b: seq<T>, c: seq<T>)
    ensures (a + b) + c == a + (b + c)
  {
  }

  /** No job is delivered twice: if the jobs queued and submitted are distinct, so are the deliveries. */
  lemma DeliveriesDistinct<Job>(queue: seq<Job>, ts: seq<Transition<Job>>)
    requires forall i, j :: 0 <= i < j < |queue + Submissions(ts)| ==> (queue + Submissions(ts))[i] != (queue + Submissions(ts))[j]
    ensures forall i, j :: 0 <= i < j < |Deliveries(queue, ts)| ==> Deliveries(queue, ts)[i] != Deliveries(queue, ts)[j]
  {
    FifoExactlyOnce(queue, ts);
    var d := Deliveries(queue, ts);
    forall i, j | 0 <= i < j < |d|
      ensures d[i] != d[j]
    {
      assert d[i] == (d + Replay(queue, ts))[i] && d[j] == (d + Replay(queue, ts))[j];
    }
  }

  /** With no worker turns (a pool of zero workers), nothing is delivered and the queue only grows. */
  lemma {:induction false} NoWorkersQueueGrows<Job>(queue: seq<Job>, ts: seq<Transition<Job>>)
    requires forall i :: 0 <= i < |ts| ==> ts[i].Submit?
    ensures Deliveries(queue, ts) == []
    ensures Replay(queue, ts) == queue + Submissions(ts)
    decreases ts
  {
    if ts != [] {
      NoWorkersQueueGrows(After(queue, ts[0]), ts[1..]);
      assert queue + [ts[0].job] + Submissions(ts[1..]) == queue + ([ts[0].job] + Submissions(ts[1..]));
    }
  }

  /**
   * How many jobs one worker takes from a queue of `pending` jobs when their
   * runs end with `outcomes` in turn: it stops when the queue is empty, when
   * the outcomes run out, or after the first job that throws an Error.
   */
  function Served(pending: nat, outcomes: seq<Outcome>): (k: nat)
    ensures k <= pending && k <= |outcomes|
  {
    if pending == 0 || outcomes == [] then 0
    else if outcomes[0] == ErrorThrown then 1
    else 1 + Served(pending - 1, outcomes[1..])
  }

  /** Failure containment: jobs that throw RuntimeExceptions never stop a worker from taking the next job. */
  lemma {:induction false} RuntimeFailuresContained(pending: nat, outcomes: seq<Outcome>)
    requires ErrorThrown !in outcomes
    ensures Served(pending, outcomes) == if pending <= |outcomes| then pending else |outcomes|
  {
    if pending != 0 && outcomes != [] {
      assert outcomes[0] in outcomes;
      RuntimeFailuresContained(pending - 1, outcomes[1..]);
    }
  }

  /** A job that throws an Error is the last one its worker takes. */
  lemma {:induction false} ErrorEndsWorker(pending: nat, outcomes: seq<Outcome>, j: nat)
    requires j < pending && j < |outcomes| && outcomes[j] == ErrorThrown
    requires ErrorThrown !in outcomes[..j]
    ensures Served(pending, outcomes) == j + 1
  {
    if j > 0 {
      assert outcomes[0] in outcomes[..j];
      assert outcomes[1..][..j - 1] == outcomes[..j][1..];
      ErrorEndsWorker(pending - 1, outcomes[1..], j - 1);
    }
  }

  /** Advancing a split point by one moves one element from the suffix to the prefix. */
  lemma SplitStep<T>(s: seq<T>, i: nat)
    requires i < |s|
    ensures s[..i + 1] == s[..i] + [s[i]]
    ensures s[i..][1..] == s[i + 1..]
  {
  }

  class ThreadPool<Job> {
    const threadCount: int
    /** Allocated with one slot per worker, but the start loop never stores a worker in it. */
    const poolWorkers: array<PoolWorker?<Job>>
    var jobQueue: seq<Job>
    /** Every job ever passed to `Execute`, in order. */
    ghost var submitted: seq<Job>
    /** Every job ever removed by a worker, in order. */
    ghost var taken: seq<Job>
    /** The worker threads the constructor started; the Java object keeps no reference to them. */
    ghost var workers: seq<PoolWorker<Job>>

    /** The pool invariant: FIFO, exactly-once delivery. */
    ghost predicate Valid()
      reads this
    {
      poolWorkers.Length == threadCount &&
      |workers| == threadCount && (forall w :: w in workers ==> w.pool == this) &&
      taken + jobQueue == submitted
    }

    /** A pool of zero threads has no worker, so no worker turn can ever drain its queue. */
    lemma ZeroThreadsNoWorkers()
      requires Valid() && threadCount == 0
      ensures forall w: PoolWorker<Job> :: w !in workers
    {
    }

    /** Creates the empty queue and the worker array, then creates and starts `n` workers. */
    constructor (n: nat)
      ensures Valid()
      ensures threadCount == n && fresh(poolWorkers) && poolWorkers.Length == n
      ensures forall i :: 0 <= i < n ==> poolWorkers[i] == null
      ensures jobQueue == [] && submitted == [] && taken == []
      ensures |workers| == n
      ensures forall k :: 0 <= k < n ==> fresh(workers[k]) && workers[k].pool == this && workers[k].state == Running
      ensures forall k, l :: 0 <= k < l < n ==> workers[k] != workers[l]
    {
      threadCount := n;
      poolWorkers := new PoolWorker?<Job>[n](_ => null);
      jobQueue, submitted, taken := [], [], [];
      workers := [];
      new;
      for i := 0 to poolWorkers.Length
        invariant |workers| == i
        invariant forall k :: 0 <= k < i ==> fresh(workers[k]) && workers[k].pool == this && workers[k].state == Running
        invariant forall k, l :: 0 <= k < l < i ==> workers[k] != workers[l]
        invariant forall k :: 0 <= k < n ==> poolWorkers[k] == null
        invariant threadCount == n && jobQueue == [] && submitted == [] && taken == []
      {
        var pw := new PoolWorker(this);
        var thrown := pw.Start();
        workers := workers + [pw];
      }
    }

    /** Appends `job` at the tail of the queue; no capacity check, so it succeeds at any length. */
    method Execute(job: Job)
      requires Valid()
      modifies this`jobQueue, this`submitted
      ensures Valid()
      ensures jobQueue == After(old(jobQueue), Submit(job))
      ensures submitted == old(submitted) + [job]
    {
      jobQueue := jobQueue + [job];
      submitted := submitted + [job];
    }
  }

  /** `new ThreadPool(n)`: a negative size makes the array allocation throw. */
  method NewThreadPool<Job>(n: int) returns (r: Result<ThreadPool<Job>, ConstructionError>)
    ensures r.Err? <==> n < 0
    ensures r.Ok? ==> fresh(r.value) && r.value.Valid() && r.value.threadCount == n
    ensures r.Ok? ==> r.value.jobQueue == [] && |r.value.workers| == n
  {
    if n < 0 {
      return Err(NegativeArraySizeException);
    }
    var pool := new ThreadPool<Job>(n);
    return Ok(pool);
  }

  class PoolWorker<Job> {
    /** The enclosing pool whose queue this worker serves. */
    const pool: ThreadPool<Job>
    /** Where the thread is in its life; `Ended` is final. */
    var state: ThreadState

    constructor (pool: ThreadPool<Job>)
      ensures this.pool == pool && state == New
    {
      this.pool := pool;
      state := New;
    }

    /** `Thread.start()`: a new thread begins its run loop; a thread can be started only once. */
    method Start() returns (thrown: Option<StartError>)
      modifies this`state
      ensures old(state) == New ==> thrown == None && state == Running
      ensures old(state) != New ==> thrown == Some(IllegalThreadStateException) && state == old(state)
    {
      if state != New {
        return Some(IllegalThreadStateException);
      }
      state := Running;
      return None;
    }

    /**
     * One pass of the run loop. Under the queue's lock, a non-empty queue loses
     * exactly its head; an empty one is left alone while the worker waits. The
     * job then runs outside the lock: a RuntimeException is caught and changes
     * nothing, an Error ends the thread.
     */
    method Step(outcome: Outcome) returns (job: Option<Job>)
      requires state == Running && pool.Valid() && this in pool.workers
      modifies this`state, pool`jobQueue, pool`taken
      ensures pool.Valid()
      ensures pool.jobQueue == After(old(pool.jobQueue), WorkerTurn)
      ensures pool.taken == old(pool.taken) + Removed(old(pool.jobQueue), WorkerTurn)
      ensures old(pool.jobQueue) == [] ==> job == None && pool.jobQueue == [] && state == Running
      ensures old(pool.jobQueue) != [] ==>
        job == Some(old(pool.jobQueue)[0]) && pool.jobQueue == old(pool.jobQueue)[1..]
      ensures state == if old(pool.jobQueue) != [] && outcome == ErrorThrown then Ended else Running
    {
      if pool.jobQueue == [] {
        return None;
      }
      var head := pool.jobQueue[0];
      pool.jobQueue := pool.jobQueue[1..];
      pool.taken := pool.taken + [head];
      match outcome {
        case Returned =>
        case RuntimeFailure =>
        case ErrorThrown => state := Ended;
      }
      return Some(head);
    }

    /**
     * The run loop driven by the outcomes of the jobs it takes, until the queue
     * is empty (the worker would wait), the outcomes run out, or the thread ends.
     */
    method RunRounds(outcomes: seq<Outcome>) returns (ran: seq<Job>)
      requires state == Running && pool.Valid() && this in pool.workers
      modifies this`state, pool`jobQueue, pool`taken
      ensures pool.Valid()
      ensures ran == old(pool.jobQueue)[..Served(|old(pool.jobQueue)|, outcomes)]
      ensures pool.jobQueue == old(pool.jobQueue)[Served(|old(pool.jobQueue)|, outcomes)..]
      ensures pool.taken == old(pool.taken) + ran
      ensures state == if ErrorThrown in outcomes[..Served(|old(pool.jobQueue)|, outcomes)] then Ended else Running
    {
      ghost var q0 := pool.jobQueue;
      ghost var total := Served(|q0|, outcomes);
      ran := [];
      var i := 0;
      while i < |outcomes| && state == Running && pool.jobQueue != []
        invariant 0 <= i <= |outcomes| && i <= |q0|
        invariant pool.Valid()
        invariant pool.jobQueue == q0[i..] && ran == q0[..i]
        invariant pool.taken == old(pool.taken) + ran
        invariant state == if ErrorThrown in outcomes[..i] then Ended else Running
        invariant state == Running ==> total == i + Served(|q0| - i, outcomes[i..])
        invariant state == Ended ==> total == i
        decreases |outcomes| - i
      {
        var job := Step(outcomes[i]);
        SplitStep(outcomes, i);
        SplitStep(q0, i);
        ran := ran + [job.value];
        i := i + 1;
      }
    }
  }

  /** Times a sample `Job` prints its name per run (`max_runs`). */
  const MaxRuns := 8

  /**
   * The sample job's `run()`: it prints "<name> executing." and counts, and
   * since the count is raised before the `> max_runs` test it prints
   * `MaxRuns + 1` lines. The random sleeps between lines are left out.
   */
  method JobRun(name: string) returns (output: seq<string>)
    ensures |output| == MaxRuns + 1
    ensures forall k :: 0 <= k < |output| ==> output[k] == name + " executing."
  {
    output := [];
    var i := 0;
    while true
      invariant 0 <= i <= MaxRuns && |output| == i
      invariant forall k :: 0 <= k < i ==> output[k] == name + " executing."
      decreases MaxRuns - i
    {
      output := output + [name + " executing."];
      i := i + 1;
      if i > MaxRuns {
        break;
      }
    }
  }
}
