/**
 * A subscriber/subscription pair.
 *
 * `pair` creates a `Subscriber` (the sending half, kept by the bus) and a `Subscription` (the
 * receiving half, returned to the caller) that share a channel and a liveness flag. Both halves are
 * kept here in one record: the flag is a single field because every write to it stores `false`,
 * so it does not matter which half performed the write. `id` stands for the identity of the shared
 * allocation, which is what lets a `Subscription` name its own registry entry.
 *
 * Type erasure (`AnySubscriber`) only forwards `send` and `is_alive`; since every value here is
 * already erased, `Send` and `IsAlive` serve both the typed and the erased interface.
 */
module Sub {
  import opened Options
  import opened Erased
  import Channel

  datatype Pair = Pair(id: nat, channel: Channel.Channel, alive: bool, convert: Converter)

  /** How one `send` ends. */
  datatype Delivery = NoMatch | Enqueued | Full | Disconnected

  datatype Sent = Sent(delivery: Delivery, pair: Pair) {
    /** The boolean `Subscriber::send` returns. */
    predicate Accepted() {
      delivery == Enqueued
    }
  }

  /** `pair(backlog, convert)`: a live pair with an empty channel of capacity `backlog`. */
  function NewPair(id: nat, backlog: nat, convert: Converter): (p: Pair)
    ensures p.id == id && p.convert == convert
    ensures p.alive
    ensures p.channel.queue == [] && p.channel.cap == backlog
    ensures p.channel.senderConnected && p.channel.receiverConnected
  {
    Pair(id, Channel.SyncChannel(backlog), true, convert)
  }

  /** `Subscriber::is_alive`. */
  function IsAlive(p: Pair): bool {
    p.alive
  }

  /**
   * `Subscriber::send`: filter-map the event; on a match try to enqueue it without blocking, and
   * on a gone receiver mark the pair dead.
   */
  function Send(p: Pair, e: Value): (r: Sent)
    // no match: nothing changes
    ensures p.convert(e).None? ==> r == Sent(NoMatch, p)
    // match and room: appended at the back
    ensures p.convert(e).Some? && p.channel.receiverConnected && |p.channel.queue| < p.channel.cap ==>
      r.delivery == Enqueued &&
      r.pair == p.(channel := p.channel.(queue := p.channel.queue + [p.convert(e).value]))
    // match but full (always so for backlog 0): dropped, flag untouched
    ensures p.convert(e).Some? && p.channel.receiverConnected && |p.channel.queue| >= p.channel.cap ==>
      r == Sent(Full, p)
    // match but receiver gone: dropped, flag set to dead
    ensures p.convert(e).Some? && !p.channel.receiverConnected ==>
      r == Sent(Disconnected, p.(alive := false))
    ensures r.Accepted() <==>
      p.convert(e).Some? && p.channel.receiverConnected && |p.channel.queue| < p.channel.cap
    ensures r.pair.id == p.id && r.pair.convert == p.convert && r.pair.channel.cap == p.channel.cap
    ensures r.pair.channel.senderConnected == p.channel.senderConnected
    ensures r.pair.channel.receiverConnected == p.channel.receiverConnected
  {
    match p.convert(e)
    case None => Sent(NoMatch, p)
    case Some(v) =>
      match Channel.TrySend(p.channel, v)
      case Ok(c) => Sent(Enqueued, p.(channel := c))
      case Err(Full) => Sent(Full, p)
      case Err(Disconnected) => Sent(Disconnected, p.(alive := false))
  }

  /**
   * Dropping the `Subscription`: the flag is set to dead, then its receiver is dropped. The values
   * still buffered are kept here although std discards them: with the receiver gone nothing can
   * read them any more.
   */
  function Unsubscribe(p: Pair): (r: Pair)
    ensures !IsAlive(r)
    ensures !r.channel.receiverConnected
    ensures r.id == p.id && r.convert == p.convert && r.channel.cap == p.channel.cap
  {
    p.(alive := false, channel := Channel.DropReceiver(p.channel))
  }

  /** `Subscription::try_recv` (through `Deref` to the receiver). */
  function Receive(p: Pair): (r: (Result<Value, Channel.TryRecvError>, Pair))
    ensures r.0.Ok? <==> |p.channel.queue| > 0
    ensures r.0.Ok? ==> [r.0.value] + r.1.channel.queue == p.channel.queue
    ensures r.0.Ok? ==> r.1 == p.(channel := p.channel.(queue := p.channel.queue[1..]))
    ensures r.0 == Err(Channel.RecvDisconnected) <==> p.channel.queue == [] && !p.channel.senderConnected
    ensures r.0.Err? ==> r.1 == p
    ensures r.1.alive == p.alive && r.1.id == p.id && r.1.convert == p.convert
  {
    match Channel.TryRecv(p.channel)
    case Ok((v, c)) => (Ok(v), p.(channel := c))
    case Err(err) => (Err(err), p)
  }

  /**
   * On a valid pair, `is_alive` (also what `AnySubscriber::is_alive` forwards to) reports exactly
   * whether the `Subscription` is still held.
   */
  lemma AliveIffHeld(p: Pair)
    requires Valid(p)
    ensures IsAlive(p) <==> p.channel.receiverConnected
  {
  }

  // ---------------------------------------------------------------------------------------------
  // Runs of operations on one pair

  /** Everything that can happen to a pair: a publish reaches it, its owner receives, or drops it. */
  datatype Op = Deliver(e: Value) | Recv | Drop

  function Apply(p: Pair, op: Op): Pair {
    match op
    case Deliver(e) => Send(p, e).pair
    case Recv => Receive(p).1
    case Drop => Unsubscribe(p)
  }

  function Run(p: Pair, ops: seq<Op>): Pair
    decreases |ops|
  {
    if |ops| == 0 then p else Run(Apply(p, ops[0]), ops[1..])
  }

  /** The flag is dead exactly when the receiving half has been dropped. */
  predicate Coherent(p: Pair) {
    p.alive == p.channel.receiverConnected
  }

  /** The invariant every reachable pair keeps: bounded queue, coherent flag, sender still held. */
  predicate Valid(p: Pair) {
    && Channel.Bounded(p.channel)
    && Coherent(p)
    && p.channel.senderConnected
  }

  lemma NewPairValid(id: nat, backlog: nat, convert: Converter)
    ensures Valid(NewPair(id, backlog, convert))
  {
  }

  lemma ApplyKeepsValid(p: Pair, op: Op)
    requires Valid(p)
    ensures Valid(Apply(p, op))
    ensures Apply(p, op).channel.cap == p.channel.cap
  {
  }

  /** Under any sequence of operations the queue stays within `backlog` and the flag stays coherent. */
  lemma {:induction false} RunKeepsValid(p: Pair, ops: seq<Op>)
    requires Valid(p)
    ensures Valid(Run(p, ops))
    ensures |Run(p, ops).channel.queue| <= p.channel.cap
    decreases |ops|
  {
    if |ops| > 0 {
      ApplyKeepsValid(p, ops[0]);
      RunKeepsValid(Apply(p, ops[0]), ops[1..]);
    }
  }

  /** The flag never goes from dead back to live. */
  lemma {:induction false} DeadStaysDead(p: Pair, ops: seq<Op>)
    requires !p.alive
    ensures !Run(p, ops).alive
    decreases |ops|
  {
    if |ops| > 0 {
      DeadStaysDead(Apply(p, ops[0]), ops[1..]);
    }
  }

  /** On a valid pair a `send` never changes the flag: only dropping the subscription kills it. */
  lemma SendKeepsFlag(p: Pair, e: Value)
    requires Valid(p)
    ensures Send(p, e).pair.alive == p.alive
  {
  }

  lemma {:induction false} DroppedStaysDisconnected(p: Pair, ops: seq<Op>)
    requires !p.channel.receiverConnected
    ensures !Run(p, ops).channel.receiverConnected
    decreases |ops|
  {
    if |ops| > 0 {
      DroppedStaysDisconnected(Apply(p, ops[0]), ops[1..]);
    }
  }

  /** After the subscription is dropped the pair reports dead and accepts nothing more. */
  lemma DroppedRejects(p: Pair, ops: seq<Op>, e: Value)
    ensures !IsAlive(Run(Unsubscribe(p), ops))
    ensures !Send(Run(Unsubscribe(p), ops), e).Accepted()
  {
    DeadStaysDead(Unsubscribe(p), ops);
    DroppedStaysDisconnected(Unsubscribe(p), ops);
  }

  // ---------------------------------------------------------------------------------------------
  // FIFO delivery of a sequence of events

  /** The values a converter produces for a sequence of events, in order, skipping non-matches. */
  function Matches(convert: Converter, es: seq<Value>): seq<Value>
  {
    if |es| == 0 then []
    else match convert(es[0])
      case Some(v) => [v] + Matches(convert, es[1..])
      case None => Matches(convert, es[1..])
  }

  /** The pair after each event of `es` has been sent to it in turn. */
  function SendAll(p: Pair, es: seq<Value>): Pair
    decreases |es|
  {
    if |es| == 0 then p else SendAll(Send(p, es[0]).pair, es[1..])
  }

  /** How many of the sends in `SendAll(p, es)` returned true. */
  function AcceptedCount(p: Pair, es: seq<Value>): nat
    decreases |es|
  {
    if |es| == 0 then 0
    else (if Send(p, es[0]).Accepted() then 1 else 0) + AcceptedCount(Send(p, es[0]).pair, es[1..])
  }

  /**
   * FIFO: with the receiver connected and room for every matching event, the queue grows by
   * exactly the converted matching events, in publish order, and each of those sends returned true.
   */
  lemma {:induction false} SendAllFifo(p: Pair, es: seq<Value>)
    requires p.channel.receiverConnected
    requires |p.channel.queue| + |Matches(p.convert, es)| <= p.channel.cap
    ensures SendAll(p, es) == p.(channel := p.channel.(queue := p.channel.queue + Matches(p.convert, es)))
    ensures AcceptedCount(p, es) == |Matches(p.convert, es)|
    decreases |es|
  {
    if |es| > 0 {
      var q := Send(p, es[0]).pair;
      match p.convert(es[0])
      case Some(v) =>
        SendAllFifo(q, es[1..]);
        assert p.channel.queue + Matches(p.convert, es) == q.channel.queue + Matches(p.convert, es[1..]);
      case None =>
        SendAllFifo(q, es[1..]);
    }
  }
}
