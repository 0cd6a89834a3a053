/**
 * The crate's two behavioural tests, replayed on the model.
 *
 * `tests/pubsub.rs` subscribes twice to `usize`, publishes 1, 4 and 7, receives them back in order
 * on both subscriptions, and then finds both channels disconnected once the bus is dropped.
 * The test's blocking `recv` is replayed as `try_recv`: on a non-empty queue both return its front,
 * and on an empty queue whose sender is gone both fail.
 * `tests/filtermap.rs` subscribes once through an `aggregate_enum!` filter-map and receives four
 * events of three different types back, wrapped in the right variants, in publish order.
 */
module Scenarios {
  import opened Options
  import opened Erased
  import Channel
  import Sub
  import FilterMap
  import Bus

  function Usize(n: int): Value {
    Value("usize", Num(n))
  }

  /** Two `usize` subscribers with backlog 64 on a new bus. */
  function TwoUsizeSubscribers(): Bus.EventBus {
    Bus.Subscribe(Bus.Subscribe(Bus.New(), 64, "usize").0, 64, "usize").0
  }

  lemma TwoUsizeSubscribersShape()
    ensures var b := TwoUsizeSubscribers();
      |b.registry| == 2 &&
      b.registry[0].id == 0 && b.registry[1].id == 1 &&
      (forall i :: 0 <= i < 2 ==>
        b.registry[i].convert == Bus.Exactly("usize") && b.registry[i].channel.queue == [] &&
        b.registry[i].channel.cap == 64 && b.registry[i].channel.receiverConnected &&
        b.registry[i].channel.senderConnected)
  {
  }

  /** A `usize` subscriber with room takes a `usize` event. */
  lemma UsizeAccepted(bus: Bus.EventBus, n: int)
    requires |bus.registry| == 2
    requires forall i :: 0 <= i < 2 ==>
      bus.registry[i].convert == Bus.Exactly("usize") && bus.registry[i].channel.receiverConnected &&
      |bus.registry[i].channel.queue| < bus.registry[i].channel.cap
    ensures Bus.Publish(bus, Usize(n)).0 == 2
  {
    assert Bus.AcceptingIndices(bus.registry, Usize(n)) == {0, 1} by {
      Bus.SubscribeAcceptsExactly(bus.registry[0], "usize", Usize(n));
      Bus.SubscribeAcceptsExactly(bus.registry[1], "usize", Usize(n));
    }
  }

  /**
   * Publishing three `usize` values (the test uses 1, 4 and 7) to the two subscribers: every
   * publish reaches both.
   */
  lemma PubSubCounts(x: int, y: int, z: int)
    ensures var b0 := TwoUsizeSubscribers();
      var (c1, b1) := Bus.Publish(b0, Usize(x));
      var (c2, b2) := Bus.Publish(b1, Usize(y));
      var (c3, b3) := Bus.Publish(b2, Usize(z));
      c1 == 2 && c2 == 2 && c3 == 2
  {
    TwoUsizeSubscribersShape();
    var b0 := TwoUsizeSubscribers();
    UsizeAccepted(b0, x);
    var b1 := Bus.Publish(b0, Usize(x)).1;
    Bus.SubscribeAcceptsExactly(b0.registry[0], "usize", Usize(x));
    Bus.SubscribeAcceptsExactly(b0.registry[1], "usize", Usize(x));
    UsizeAccepted(b1, y);
    var b2 := Bus.Publish(b1, Usize(y)).1;
    Bus.SubscribeAcceptsExactly(b1.registry[0], "usize", Usize(y));
    Bus.SubscribeAcceptsExactly(b1.registry[1], "usize", Usize(y));
    UsizeAccepted(b2, z);
  }

  /** Both subscriptions then hold the three values in publish order. */
  lemma PubSubQueues(x: int, y: int, z: int)
    ensures var b := Bus.PublishAll(TwoUsizeSubscribers(), [Usize(x), Usize(y), Usize(z)]);
      |b.registry| == 2 &&
      b.registry[0].channel.queue == [Usize(x), Usize(y), Usize(z)] &&
      b.registry[1].channel.queue == [Usize(x), Usize(y), Usize(z)]
  {
    TwoUsizeSubscribersShape();
    var b0 := TwoUsizeSubscribers();
    var es := [Usize(x), Usize(y), Usize(z)];
    assert Sub.Matches(Bus.Exactly("usize"), es) == es by {
      assert Sub.Matches(Bus.Exactly("usize"), es[2..]) == [Usize(z)];
      assert Sub.Matches(Bus.Exactly("usize"), es[1..]) == [Usize(y), Usize(z)];
    }
    Bus.PublishAllFifo(b0, es, 0);
    Bus.PublishAllFifo(b0, es, 1);
  }

  /**
   * The receiving half of tests/pubsub.rs: while the bus is alive, subscription 0 and then
   * subscription 1 each receive the three values in publish order; once the bus is dropped, a
   * further receive on either fails because the channel is disconnected.
   */
  ghost predicate ReceivesThenDisconnects(b: Bus.EventBus, x: int, y: int, z: int) {
    Bus.Holds(b.registry, 0) &&
    var a := Bus.ReceiveTimes(b.registry, 0, 3);
    a.0 == [Ok(Usize(x)), Ok(Usize(y)), Ok(Usize(z))] &&
    Bus.Holds(a.1, 1) &&
    var c := Bus.ReceiveTimes(a.1, 1, 3);
    c.0 == [Ok(Usize(x)), Ok(Usize(y)), Ok(Usize(z))] &&
    BothDisconnected(Bus.Close(b.(registry := c.1)))
  }

  /** A receive on subscription 0, then one on subscription 1, both fail as disconnected. */
  ghost predicate BothDisconnected(closed: seq<Sub.Pair>) {
    Bus.Holds(closed, 0) &&
    Bus.Receive(closed, 0).0 == Err(Channel.RecvDisconnected) &&
    Bus.Holds(Bus.Receive(closed, 0).1, 1) &&
    Bus.Receive(Bus.Receive(closed, 0).1, 1).0 == Err(Channel.RecvDisconnected)
  }

  /** The test's receives, on the bus after its three publishes. */
  lemma PubSubReceive(x: int, y: int, z: int)
    ensures ReceivesThenDisconnects(Bus.PublishAll(TwoUsizeSubscribers(), [Usize(x), Usize(y), Usize(z)]), x, y, z)
  {
    TwoUsizeSubscribersShape();
    PubSubQueues(x, y, z);
    ReceiveThenClose(Bus.PublishAll(TwoUsizeSubscribers(), [Usize(x), Usize(y), Usize(z)]), x, y, z);
  }

  /**
   * Subscriptions 0 and 1, in that order, both held: subscription 0 holds `q0`, subscription 1
   * holds `q1`.
   */
  ghost predicate TwoHeld(entries: seq<Sub.Pair>, q0: seq<Value>, q1: seq<Value>) {
    && |entries| == 2 && entries[0].id == 0 && entries[1].id == 1
    && entries[0].channel.queue == q0 && entries[1].channel.queue == q1
    && entries[0].channel.receiverConnected && entries[1].channel.receiverConnected
  }

  /** Two held subscriptions, 0 and 1, each holding x, y, z, receive them and then disconnect. */
  lemma ReceiveThenClose(b: Bus.EventBus, x: int, y: int, z: int)
    requires TwoHeld(b.registry, [Usize(x), Usize(y), Usize(z)], [Usize(x), Usize(y), Usize(z)])
    ensures ReceivesThenDisconnects(b, x, y, z)
  {
    var xyz := [Usize(x), Usize(y), Usize(z)];
    DrainFirst(b.registry, x, y, z, xyz);
    var a := Bus.ReceiveTimes(b.registry, 0, 3);
    DrainSecond(a.1, x, y, z);
    Closed(b.(registry := Bus.ReceiveTimes(a.1, 1, 3).1));
  }

  lemma DrainFirst(entries: seq<Sub.Pair>, x: int, y: int, z: int, q1: seq<Value>)
    requires TwoHeld(entries, [Usize(x), Usize(y), Usize(z)], q1)
    ensures Bus.Holds(entries, 0)
    ensures var a := Bus.ReceiveTimes(entries, 0, 3);
      a.0 == [Ok(Usize(x)), Ok(Usize(y)), Ok(Usize(z))] && TwoHeld(a.1, [], q1)
  {
    assert Bus.HasId(entries, 0) && Bus.IndexOf(entries, 0) == 0;
    DrainThree(entries, 0, x, y, z);
  }

  lemma DrainSecond(entries: seq<Sub.Pair>, x: int, y: int, z: int)
    requires TwoHeld(entries, [], [Usize(x), Usize(y), Usize(z)])
    ensures Bus.Holds(entries, 1)
    ensures var c := Bus.ReceiveTimes(entries, 1, 3);
      c.0 == [Ok(Usize(x)), Ok(Usize(y)), Ok(Usize(z))] && TwoHeld(c.1, [], [])
  {
    assert Bus.HasId(entries, 1) && Bus.IndexOf(entries, 1) == 1;
    DrainThree(entries, 1, x, y, z);
  }

  /**
   * Three receives on a subscription holding three values return them in order and leave its
   * queue empty; every other entry stays as it was.
   */
  lemma DrainThree(entries: seq<Sub.Pair>, id: nat, x: int, y: int, z: int)
    requires Bus.Holds(entries, id)
    requires entries[Bus.IndexOf(entries, id)].channel.queue == [Usize(x), Usize(y), Usize(z)]
    ensures var i := Bus.IndexOf(entries, id);
      var r := Bus.ReceiveTimes(entries, id, 3);
      && r.0 == [Ok(Usize(x)), Ok(Usize(y)), Ok(Usize(z))]
      && |r.1| == |entries|
      && r.1[i].id == id && r.1[i].channel.queue == []
      && r.1[i].channel.receiverConnected == entries[i].channel.receiverConnected
      && (forall j :: 0 <= j < |entries| && j != i ==> r.1[j] == entries[j])
  {
    Bus.ReceiveTimesPops(entries, id, 3);
  }

  /**
   * The drained registry of the two subscriptions: dropping the bus leaves each of them with an
   * empty, disconnected channel.
   */
  lemma Closed(b: Bus.EventBus)
    requires TwoHeld(b.registry, [], [])
    ensures BothDisconnected(Bus.Close(b))
  {
    var closed := Bus.Close(b);
    assert Bus.HasId(closed, 0) && Bus.IndexOf(closed, 0) == 0;
    assert Bus.HasId(closed, 1) && Bus.IndexOf(closed, 1) == 1;
    Bus.ClosedDrainedDisconnects(b, 0);
    Bus.ClosedDrainedDisconnects(b, 1);
  }

  // ---------------------------------------------------------------------------------------------

  const Variants: seq<TypeTag> := ["EventA", "EventB", "EventC"]

  function EventA(): Value { Value("EventA", Unit) }
  function EventB(): Value { Value("EventB", Unit) }
  function EventC(n: int): Value { Value("EventC", Num(n)) }

  /** `AggregateEvent::<variant>(e)`. */
  function Aggregate(e: Value): Value {
    Value("AggregateEvent", Variant(e))
  }

  /** The aggregate filter-map wraps each of the four test events in its own variant. */
  lemma AggregateMatches(n: int, m: int)
    ensures Sub.Matches(FilterMap.AggregateFilter("AggregateEvent", Variants),
                        [EventC(n), EventA(), EventC(m), EventB()]) ==
      [Aggregate(EventC(n)), Aggregate(EventA()), Aggregate(EventC(m)), Aggregate(EventB())]
  {
    var es := [EventC(n), EventA(), EventC(m), EventB()];
    var convert := FilterMap.AggregateFilter("AggregateEvent", Variants);
    var expected := [Aggregate(EventC(n)), Aggregate(EventA()), Aggregate(EventC(m)), Aggregate(EventB())];
    assert forall k :: 0 <= k < 4 ==> es[k].ty in Variants && convert(es[k]) == Some(expected[k]);
    assert Sub.Matches(convert, es[3..]) == expected[3..];
    assert Sub.Matches(convert, es[2..]) == expected[2..];
    assert Sub.Matches(convert, es[1..]) == expected[1..];
  }

  /**
   * An `AggregateEvent` subscriber with backlog 16, fed EventC(n), EventA, EventC(m), EventB (the
   * test uses n = 4 and m = 7),
   * holds the four events in that order, each in the variant of its own type.
   */
  lemma AggregateDelivery(n: int, m: int)
    ensures var es := [EventC(n), EventA(), EventC(m), EventB()];
      var b := Bus.SubscribeWhere(Bus.New(), 16, FilterMap.AggregateFilter("AggregateEvent", Variants)).0;
      Bus.PublishAll(b, es).registry[0].channel.queue ==
        [Aggregate(EventC(n)), Aggregate(EventA()), Aggregate(EventC(m)), Aggregate(EventB())]
  {
    var es := [EventC(n), EventA(), EventC(m), EventB()];
    var b := Bus.SubscribeWhere(Bus.New(), 16, FilterMap.AggregateFilter("AggregateEvent", Variants)).0;
    AggregateMatches(n, m);
    Bus.PublishAllFifo(b, es, 0);
  }
}
