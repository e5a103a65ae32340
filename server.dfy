/** The shared state of the server: the bounded job queue through which the
    accept loop hands connections to the workers, and the file-access
    semaphore that the GET and POST handlers take around file I/O. Both are
    modelled sequentially: a blocking wait becomes a precondition. */
module Server {

  const MAX_QUEUE: nat := 256
  /** The number of permits the file semaphore starts with: at most three
      handlers touch files at once. */
  const FILE_PERMITS: nat := 3

  /** job_queue_t: a ring buffer of client sockets. `Contents` is the queue
      from front to rear, the order in which pop hands the sockets out. */
  class JobQueue {
    const jobs: array<int>
    var front: int
    var rear: int
    var count: int
    ghost var Contents: seq<int>

    ghost predicate Valid()
      reads this, jobs
    {
      jobs.Length == MAX_QUEUE &&
      0 <= front < MAX_QUEUE && 0 <= rear < MAX_QUEUE &&
      0 <= count <= MAX_QUEUE &&
      rear == (front + count) % MAX_QUEUE &&
      |Contents| == count &&
      forall i :: 0 <= i < count ==> Contents[i] == jobs[(front + i) % MAX_QUEUE]
    }

    /** The queue object with job_queue_init applied: all three cursors zero,
        which is the empty queue. */
    constructor Init()
      ensures Valid() && fresh(jobs)
      ensures front == 0 && rear == 0 && count == 0
      ensures Contents == []
    {
      jobs := new int[MAX_QUEUE];
      front, rear, count := 0, 0, 0;
      Contents := [];
    }

    /** job_queue_push once the queue is not full: the socket goes into the
        slot at `rear`, which then advances; no other slot changes. */
    method Push(clientSocket: int)
      requires Valid() && count < MAX_QUEUE
      modifies this, jobs
      ensures Valid()
      ensures Contents == old(Contents) + [clientSocket]
      ensures jobs[old(rear)] == clientSocket
      ensures forall i :: 0 <= i < MAX_QUEUE && i != old(rear) ==> jobs[i] == old(jobs[i])
      ensures front == old(front) && rear == (old(rear) + 1) % MAX_QUEUE && count == old(count) + 1
    {
      jobs[rear] := clientSocket;
      rear := (rear + 1) % MAX_QUEUE;
      count := count + 1;
      Contents := Contents + [clientSocket];
      forall i | 0 <= i < count
        ensures Contents[i] == jobs[(front + i) % MAX_QUEUE]
      {
        if i < count - 1 {
          assert (front + i) % MAX_QUEUE != old(rear);
        }
      }
    }

    /** job_queue_pop once the queue is not empty: the socket at `front` is
        the oldest one still queued; `front` advances and the slots are left
        as they are. */
    method Pop() returns (clientSocket: int)
      requires Valid() && count > 0
      modifies this
      ensures Valid()
      ensures clientSocket == old(Contents)[0] && Contents == old(Contents)[1..]
      ensures clientSocket == jobs[old(front)]
      ensures front == (old(front) + 1) % MAX_QUEUE && rear == old(rear) && count == old(count) - 1
    {
      clientSocket := jobs[front];
      front := (front + 1) % MAX_QUEUE;
      count := count - 1;
      Contents := Contents[1..];
      forall i | 0 <= i < count
        ensures Contents[i] == jobs[(front + i) % MAX_QUEUE]
      {
        if old(front) + 1 < MAX_QUEUE {
          assert front == old(front) + 1;
        } else {
          assert front == 0;
        }
      }
    }
  }

  datatype QueueOp = PushOp(clientSocket: int) | PopOp

  function PushedSockets(ops: seq<QueueOp>): seq<int>
  {
    if ops == [] then []
    else PushedSockets(ops[..|ops| - 1]) + (if ops[|ops| - 1].PushOp? then [ops[|ops| - 1].clientSocket] else [])
  }

  function PopCount(ops: seq<QueueOp>): nat
  {
    if ops == [] then 0 else PopCount(ops[..|ops| - 1]) + (if ops[|ops| - 1].PopOp? then 1 else 0)
  }

  /** A schedule of pushes and pops in which no call would block: no pop on
      an empty queue, no push on a full one. */
  predicate NeverBlocks(ops: seq<QueueOp>)
  {
    forall n :: 0 <= n < |ops| ==>
      var before := |PushedSockets(ops[..n])| - PopCount(ops[..n]);
      if ops[n].PopOp? then 0 < before else before < MAX_QUEUE
  }

  /** Runs a schedule of pushes and pops on a fresh queue. The sockets popped
      are exactly the sockets pushed, in push order (FIFO): the queue neither
      drops, duplicates nor reorders a job. */
  method Replay(ops: seq<QueueOp>) returns (popped: seq<int>)
    requires NeverBlocks(ops)
    ensures PopCount(ops) <= |PushedSockets(ops)|
    ensures popped == PushedSockets(ops)[..PopCount(ops)]
  {
    var q := new JobQueue.Init();
    popped := [];
    var n := 0;
    while n < |ops|
      invariant 0 <= n <= |ops|
      invariant q.Valid()
      invariant PopCount(ops[..n]) <= |PushedSockets(ops[..n])|
      invariant popped == PushedSockets(ops[..n])[..PopCount(ops[..n])]
      invariant q.Contents == PushedSockets(ops[..n])[PopCount(ops[..n])..]
    {
      assert ops[..n + 1][..n] == ops[..n];
      ghost var pushed, pops := PushedSockets(ops[..n]), PopCount(ops[..n]);
      match ops[n] {
        case PushOp(s) =>
          assert PushedSockets(ops[..n + 1]) == pushed + [s] && PopCount(ops[..n + 1]) == pops by {
            assert ops[..n + 1][n] == ops[n];
          }
          q.Push(s);
          assert (pushed + [s])[..pops] == pushed[..pops];
          assert (pushed + [s])[pops..] == pushed[pops..] + [s];
        case PopOp =>
          assert PushedSockets(ops[..n + 1]) == pushed && PopCount(ops[..n + 1]) == pops + 1 by {
            assert ops[..n + 1][n] == ops[n];
          }
          var s := q.Pop();
          popped := popped + [s];
          assert pushed[..pops + 1] == pushed[..pops] + [pushed[pops]];
      }
      n := n + 1;
    }
    assert ops[..n] == ops;
  }

  datatype GateEvent = Acquired | Released

  /** file_semaphore as a counter of free permits, with the history of
      sem_wait and sem_post calls made on it. */
  class FileGate {
    var permits: int
    ghost var History: seq<GateEvent>

    ghost predicate Valid()
      reads this
    {
      0 <= permits <= FILE_PERMITS
    }

    constructor Init()
      ensures Valid() && permits == FILE_PERMITS && History == []
    {
      permits := FILE_PERMITS;
      History := [];
    }

    /** sem_wait once a permit is free. */
    method Acquire()
      requires Valid() && permits > 0
      modifies this
      ensures Valid() && permits == old(permits) - 1
      ensures History == old(History) + [Acquired]
    {
      permits := permits - 1;
      History := History + [Acquired];
    }

    /** sem_post: gives one permit back. */
    method Release()
      requires Valid() && permits < FILE_PERMITS
      modifies this
      ensures Valid() && permits == old(permits) + 1
      ensures History == old(History) + [Released]
    {
      permits := permits + 1;
      History := History + [Released];
    }
  }
}
