/**
 * A bounded `std::sync::mpsc::sync_channel` seen sequentially.
 *
 * The channel holds a FIFO queue of at most `cap` values. Capacity 0 is a rendezvous channel: a
 * `try_send` succeeds only when a receiver is already blocked in `recv`, which never happens in a
 * sequential model, so with capacity 0 every `try_send` to a connected receiver reports `Full`.
 */
module Channel {
  import opened Options
  import opened Erased

  datatype Channel = Channel(queue: seq<Value>, cap: nat, senderConnected: bool, receiverConnected: bool)

  datatype TrySendError = Full | Disconnected

  datatype TryRecvError = Empty | RecvDisconnected

  /** The state `sync_channel(cap)` creates: empty, both halves connected. */
  function SyncChannel(cap: nat): (c: Channel)
    ensures c.queue == [] && c.cap == cap
    ensures c.senderConnected && c.receiverConnected
  {
    Channel([], cap, true, true)
  }

  /** The queue never holds more than the capacity. */
  predicate Bounded(c: Channel) {
    |c.queue| <= c.cap
  }

  /**
   * `SyncSender::try_send`: never blocks. A gone receiver is reported first, then a full queue;
   * otherwise the value joins the back of the queue.
   */
  function TrySend(c: Channel, v: Value): (r: Result<Channel, TrySendError>)
    ensures !c.receiverConnected <==> r == Err(Disconnected)
    ensures c.receiverConnected && |c.queue| >= c.cap <==> r == Err(Full)
    ensures r.Ok? ==> r.value == c.(queue := c.queue + [v])
    ensures r.Ok? ==> r.value.queue[|r.value.queue| - 1] == v
    ensures Bounded(c) && r.Ok? ==> Bounded(r.value)
    ensures c.cap == 0 && c.receiverConnected ==> r == Err(Full)
  {
    if !c.receiverConnected then Err(Disconnected)
    else if |c.queue| >= c.cap then Err(Full)
    else Ok(c.(queue := c.queue + [v]))
  }

  /**
   * `Receiver::try_recv`: takes the oldest queued value; with an empty queue it reports
   * `Disconnected` once the sending half is gone and `Empty` otherwise.
   */
  function TryRecv(c: Channel): (r: Result<(Value, Channel), TryRecvError>)
    ensures r.Ok? <==> |c.queue| > 0
    ensures r.Ok? ==> [r.value.0] + r.value.1.queue == c.queue
    ensures r.Ok? ==> r.value.1 == c.(queue := c.queue[1..])
    ensures r == Err(RecvDisconnected) <==> c.queue == [] && !c.senderConnected
    ensures Bounded(c) && r.Ok? ==> Bounded(r.value.1)
  {
    if |c.queue| > 0 then Ok((c.queue[0], c.(queue := c.queue[1..])))
    else if !c.senderConnected then Err(RecvDisconnected)
    else Err(Empty)
  }

  /** The receiving half is dropped. */
  function DropReceiver(c: Channel): (r: Channel)
    ensures !r.receiverConnected
    ensures r.queue == c.queue && r.cap == c.cap && r.senderConnected == c.senderConnected
  {
    c.(receiverConnected := false)
  }

  /** The sending half is dropped. */
  function DropSender(c: Channel): (r: Channel)
    ensures !r.senderConnected
    ensures r.queue == c.queue && r.cap == c.cap && r.receiverConnected == c.receiverConnected
  {
    c.(senderConnected := false)
  }
}
