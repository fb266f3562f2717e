/** The MPSC channel of panama: one shared queue and sender count (behind a
    mutex in the Rust code), and the Receiver's private buffer. Each operation
    is one atomic step on the whole state; the condition variable becomes
    the distinct `WouldBlock` outcome of `recv`. Sender handles are named by
    ids so that the live ones can be counted. */
module Channel {

  type SenderId = nat

  datatype Chan<T> = Chan(
    queue: seq<T>,        // `Inner::queue`, shared by all handles
    senders: nat,         // `Inner::senders`
    buffer: seq<T>,       // `Receiver::buffer`, private to the receiver
    live: set<SenderId>,  // Sender handles not yet dropped
    nextId: SenderId,     // id the next cloned Sender gets
    receiverAlive: bool   // the Receiver has not been dropped
  )

  /** What `recv` can do: hand out an item, report the channel closed, or
      park on the condition variable. */
  datatype Outcome<T> = Item(value: T) | Closed | WouldBlock

  datatype RecvStep<T> = RecvStep(outcome: Outcome<T>, next: Chan<T>)

  /** Items sent and not yet received, oldest first: everything in the
      receiver's buffer was sent before anything still in the queue. */
  function Pending<T>(c: Chan<T>): seq<T> {
    c.buffer + c.queue
  }

  /** The reachable states: `senders` counts exactly the live Sender handles,
      ids are never reused, and a dropped receiver has dropped its buffer. */
  predicate Valid<T>(c: Chan<T>) {
    && c.senders == |c.live|
    && (forall id :: id in c.live ==> id < c.nextId)
    && (!c.receiverAlive ==> c.buffer == [])
  }

  /** `_channel()`: one Sender (the returned id) and one Receiver. */
  function New<T>(): (r: (Chan<T>, SenderId))
    ensures Pending(r.0) == [] && r.0.queue == [] && r.0.buffer == []
    ensures r.0.senders == 1 && r.0.live == {r.1}
    ensures r.0.receiverAlive && Valid(r.0)
  {
    (Chan([], 1, [], {0}, 1, true), 0)
  }

  /** `Sender::send`: the value joins the tail of the shared queue. Whether
      the Receiver is still alive is not checked. */
  function Send<T>(c: Chan<T>, tx: SenderId, val: T): (r: Chan<T>)
    requires tx in c.live
    ensures Pending(r) == Pending(c) + [val]
    ensures r.queue == c.queue + [val] && r.buffer == c.buffer
    ensures r.senders == c.senders && r.live == c.live
    ensures r.nextId == c.nextId && r.receiverAlive == c.receiverAlive
    ensures Valid(c) ==> Valid(r)
  {
    c.(queue := c.queue + [val])
  }

  /** `Sender::clone`: one more live Sender, counted under the lock. */
  function CloneSender<T>(c: Chan<T>, tx: SenderId): (r: (Chan<T>, SenderId))
    requires Valid(c) && tx in c.live
    ensures r.0.senders == c.senders + 1
    ensures r.1 !in c.live && r.0.live == c.live + {r.1}
    ensures r.0.queue == c.queue && r.0.buffer == c.buffer && r.0.receiverAlive == c.receiverAlive
    ensures Valid(r.0)
  {
    var id := c.nextId;
    (c.(senders := c.senders + 1, live := c.live + {id}, nextId := id + 1), id)
  }

  /** `Drop for Sender`: one fewer live Sender; the count reaches zero
      exactly when the last one goes. */
  function DropSender<T>(c: Chan<T>, tx: SenderId): (r: Chan<T>)
    requires Valid(c) && tx in c.live
    ensures r.senders == c.senders - 1 && r.live == c.live - {tx}
    ensures r.senders == 0 <==> c.live == {tx}
    ensures r.queue == c.queue && r.buffer == c.buffer && r.receiverAlive == c.receiverAlive
    ensures Valid(r)
  {
    assert c.live == (c.live - {tx}) + {tx};
    c.(senders := c.senders - 1, live := c.live - {tx})
  }

  /** Dropping the Receiver drops its private buffer with it; the shared
      queue lives on while Senders hold it. */
  function DropReceiver<T>(c: Chan<T>): (r: Chan<T>)
    requires c.receiverAlive
    ensures !r.receiverAlive && r.buffer == []
    ensures r.queue == c.queue && r.senders == c.senders && r.live == c.live
    ensures Valid(c) ==> Valid(r)
  {
    c.(receiverAlive := false, buffer := [])
  }

  /** `Receiver::recv`. The fast path pops the private buffer without
      touching the shared state. The slow path pops the shared queue and, if
      items remain, swaps the whole remainder into the buffer; the buffer is
      empty at that point, so the queue is left empty and no item is lost,
      duplicated or reordered. With nothing pending, the channel is closed
      when no Sender is alive and would block otherwise. */
  function Recv<T>(c: Chan<T>): (r: RecvStep<T>)
    requires c.receiverAlive
    ensures r.outcome.Item? <==> |Pending(c)| > 0
    ensures r.outcome.Item? ==> r.outcome.value == Pending(c)[0] && Pending(r.next) == Pending(c)[1..]
    ensures r.outcome.Closed? <==> |Pending(c)| == 0 && c.senders == 0
    ensures r.outcome.WouldBlock? <==> |Pending(c)| == 0 && c.senders > 0
    ensures !r.outcome.Item? ==> r.next == c
    ensures r.next.senders == c.senders && r.next.live == c.live
    ensures r.next.nextId == c.nextId && r.next.receiverAlive
    ensures |c.buffer| > 0 ==> r.next.queue == c.queue
    ensures |c.buffer| == 0 && |c.queue| > 0 ==> r.next.queue == [] && r.next.buffer == c.queue[1..]
    ensures Valid(c) ==> Valid(r.next)
  {
    if |c.buffer| > 0 then
      RecvStep(Item(c.buffer[0]), c.(buffer := c.buffer[1..]))
    else if |c.queue| > 0 then
      var t := c.queue[0];
      var rest := c.queue[1..];
      if |rest| > 0 then
        // The remaining queue is swapped into the (empty) buffer.
        RecvStep(Item(t), c.(queue := c.buffer, buffer := rest))
      else
        RecvStep(Item(t), c.(queue := rest))
    else if c.senders == 0 then
      RecvStep(Closed, c)
    else
      RecvStep(WouldBlock, c)
  }
}
