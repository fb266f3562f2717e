/** Runs of the panama channel: any interleaving of the handles' operations,
    one atomic step at a time, with a record of what was sent and what was
    received. Conservation, FIFO order and the stickiness of closure are
    stated over every run. */
module ChannelRuns {
  import opened Channel

  datatype Action<T> =
    | SendOp(tx: SenderId, value: T)
    | CloneOp(tx: SenderId)
    | DropSenderOp(tx: SenderId)
    | RecvOp
    | DropReceiverOp

  datatype System<T> = System(chan: Chan<T>, sent: seq<T>, received: seq<T>)

  /** Only live handles act: a Sender that was dropped, or a Receiver that
      was dropped, can no longer be used. */
  predicate Enabled<T>(c: Chan<T>, a: Action<T>) {
    match a
    case SendOp(tx, _) => tx in c.live
    case CloneOp(tx) => tx in c.live
    case DropSenderOp(tx) => tx in c.live
    case RecvOp => c.receiverAlive
    case DropReceiverOp => c.receiverAlive
  }

  /** One step; an action that is not enabled, or a `recv` that would
      block, leaves the system as it is. */
  function Apply<T>(s: System<T>, a: Action<T>): (r: System<T>)
    requires Valid(s.chan)
    ensures Valid(r.chan)
  {
    if !Enabled(s.chan, a) then s
    else
      match a
      case SendOp(tx, v) => s.(chan := Send(s.chan, tx, v), sent := s.sent + [v])
      case CloneOp(tx) => s.(chan := CloneSender(s.chan, tx).0)
      case DropSenderOp(tx) => s.(chan := DropSender(s.chan, tx))
      case RecvOp =>
        var step := Recv(s.chan);
        if step.outcome.Item? then
          s.(chan := step.next, received := s.received + [step.outcome.value])
        else s.(chan := step.next)
      case DropReceiverOp => s.(chan := DropReceiver(s.chan))
  }

  /** The conservation invariant: what was received is a prefix of what was
      sent, and while the Receiver lives the rest is exactly what is
      pending, in sending order. */
  ghost predicate Inv<T>(s: System<T>) {
    && Valid(s.chan)
    && s.received <= s.sent
    && (s.chan.receiverAlive ==> s.sent == s.received + Pending(s.chan))
  }

  /** A fresh channel with nothing sent. */
  function Start<T>(): (s: System<T>)
    ensures Inv(s) && s.chan.live == {0}
  {
    System(New<T>().0, [], [])
  }

  lemma ApplyPreservesInv<T>(s: System<T>, a: Action<T>)
    requires Inv(s)
    ensures Inv(Apply(s, a))
  {
    if Enabled(s.chan, a) && a.RecvOp? {
      var step := Recv(s.chan);
      if step.outcome.Item? {
        var p := Pending(s.chan);
        assert p == [p[0]] + p[1..];
      }
    }
  }

  /** The actions applied one after the other. */
  function Run<T>(s: System<T>, acts: seq<Action<T>>): (r: System<T>)
    requires Valid(s.chan)
    ensures Valid(r.chan)
    decreases |acts|
  {
    if |acts| == 0 then s else Run(Apply(s, acts[0]), acts[1..])
  }

  /** Every run conserves items: received items come out in the order they
      were sent, none lost and none duplicated. */
  lemma {:induction false} RunConserves<T>(s: System<T>, acts: seq<Action<T>>)
    requires Inv(s)
    ensures Inv(Run(s, acts))
    decreases |acts|
  {
    if |acts| > 0 {
      ApplyPreservesInv(s, acts[0]);
      RunConserves(Apply(s, acts[0]), acts[1..]);
    }
  }

  /** No Sender is alive and nothing is pending. */
  predicate IsClosed<T>(c: Chan<T>) {
    c.senders == 0 && |Pending(c)| == 0
  }

  /** Closure is terminal: once `recv` returns `None`, no Sender is left to
      send or to clone, so every later `recv` on any run returns `None` too. */
  lemma ClosedIsTerminal<T>(s: System<T>, acts: seq<Action<T>>)
    requires Valid(s.chan) && s.chan.receiverAlive && Recv(s.chan).outcome.Closed?
    ensures Run(s, acts).chan.receiverAlive ==> Recv(Run(s, acts).chan).outcome.Closed?
  {
    ClosedStaysClosed(s, acts);
  }

  /** A closed channel stays closed on every run, whether or not the
      Receiver is still there to observe it. */
  lemma {:induction false} ClosedStaysClosed<T>(s: System<T>, acts: seq<Action<T>>)
    requires Valid(s.chan) && IsClosed(s.chan)
    ensures IsClosed(Run(s, acts).chan)
    decreases |acts|
  {
    if |acts| > 0 {
      assert s.chan.live == {};
      ClosedStaysClosed(Apply(s, acts[0]), acts[1..]);
    }
  }

  /** When `recv` reports the channel closed, every item ever sent has been
      received. */
  lemma ClosedMeansAllDelivered<T>(s: System<T>)
    requires Inv(s) && s.chan.receiverAlive && Recv(s.chan).outcome.Closed?
    ensures s.received == s.sent
  {
  }

  /** The test `ping_pong`: send 42, then `recv` gives `Some(42)`. */
  lemma PingPong()
    ensures Recv(Run(Start<int>(), [SendOp(0, 42)]).chan).outcome == Item(42)
  {
  }

  /** The test `closed_tx`: drop the only Sender, then `recv` gives `None`. */
  lemma ClosedTx()
    ensures Recv(Run(Start<int>(), [DropSenderOp(0)]).chan).outcome == Closed
  {
  }

  /** The test `closed_rx`: sending after the Receiver is gone still
      succeeds and queues the value. */
  lemma ClosedRx()
    ensures Run(Start<int>(), [DropReceiverOp, SendOp(0, 42)]).chan.queue == [42]
    ensures Run(Start<int>(), [DropReceiverOp, SendOp(0, 42)]).sent == [42]
  {
  }

  /** Buffered data survives the last Sender's drop: send 1 and 2, drop the
      Sender, then receive 1, 2 and finally `None`. */
  lemma DrainBeforeClose()
    ensures var s := Run(Start<int>(), [SendOp(0, 1), SendOp(0, 2), DropSenderOp(0)]);
      && Recv(s.chan).outcome == Item(1)
      && Recv(Recv(s.chan).next).outcome == Item(2)
      && Recv(Recv(Recv(s.chan).next).next).outcome == Closed
  {
  }
}
