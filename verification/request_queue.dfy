/** The server's request queue: a singly linked list with `head` and `tail` pointers, read here
    as the sequence of pending requests from `head` to `tail`. Only its sequential behaviour is
    modelled; the mutex and the condition variable that make `pop` wait are not. */
module RequestQueue {
  import opened Base

  /** One queued request: the client's socket and the raw request line. */
  datatype Request = Request(clientSock: int, request: string)

  /** The pending requests, oldest first. */
  datatype Queue = Queue(pending: seq<Request>)

  /** The node `head` points to, or null. */
  function Head(q: Queue): (h: Option<Request>)
    ensures h.None? <==> |q.pending| == 0
    ensures h.Some? ==> h.value == q.pending[0]
  {
    if |q.pending| == 0 then None else Some(q.pending[0])
  }

  /** The node `tail` points to, or null. */
  function Tail(q: Queue): (t: Option<Request>)
    ensures t.None? <==> |q.pending| == 0
    ensures t.Some? ==> t.value == q.pending[|q.pending| - 1]
  {
    if |q.pending| == 0 then None else Some(q.pending[|q.pending| - 1])
  }

  /** The constructor: `head` and `tail` both null. */
  function New(): (q: Queue)
    ensures Head(q).None? && Tail(q).None?
  {
    Queue([])
  }

  /** `push`: link a new node after `tail`, or make it both `head` and `tail` of an empty queue. */
  function Push(q: Queue, clientSock: int, request: string): (r: Queue)
    ensures r.pending == q.pending + [Request(clientSock, request)]
    ensures Tail(r) == Some(Request(clientSock, request))
    ensures Head(q).Some? ==> Head(r) == Head(q)
    ensures (Head(r).None? <==> Tail(r).None?)
  {
    Queue(q.pending + [Request(clientSock, request)])
  }

  /** `pop` on a non-empty queue: copy the `head` node, advance `head`, and clear `tail` when the
      queue becomes empty. (On an empty queue the source waits for a push instead.) */
  function Pop(q: Queue): (r: (Request, Queue))
    requires |q.pending| > 0
    ensures Head(q) == Some(r.0)
    ensures [r.0] + r.1.pending == q.pending
    ensures (Head(r.1).None? <==> Tail(r.1).None?)
    ensures Tail(r.1).None? <==> |q.pending| == 1
  {
    (q.pending[0], Queue(q.pending[1..]))
  }

  /** Push every request of `rs` in order. */
  function PushAll(q: Queue, rs: seq<Request>): (r: Queue)
    ensures r.pending == q.pending + rs
    decreases |rs|
  {
    if rs == [] then q
    else
      var r := PushAll(Push(q, rs[0].clientSock, rs[0].request), rs[1..]);
      assert q.pending + [rs[0]] + rs[1..] == q.pending + rs;
      r
  }

  /** Pop until the queue is empty, collecting the requests in the order popped. */
  function Drain(q: Queue): (rs: seq<Request>)
    decreases |q.pending|
  {
    if |q.pending| == 0 then [] else
      var (req, rest) := Pop(q);
      [req] + Drain(rest)
  }

  /** FIFO: requests come out of the queue in the order they were pushed, each with the socket
      and text it was pushed with. */
  lemma {:induction false} FifoOrder(rs: seq<Request>)
    ensures Drain(PushAll(New(), rs)) == rs
  {
    DrainIsPending(PushAll(New(), rs));
  }

  /** Draining yields exactly the pending sequence. */
  lemma {:induction false} DrainIsPending(q: Queue)
    ensures Drain(q) == q.pending
    decreases |q.pending|
  {
    if |q.pending| > 0 {
      DrainIsPending(Pop(q).1);
    }
  }
}
