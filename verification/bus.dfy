/**
 * The event bus: an ordered registry of type-erased subscribers.
 *
 * `subscribe_where` appends a new subscriber, `publish` offers an event to every subscriber in
 * registration order and counts the ones that took it, and `shrink_to_fit` drops the subscribers
 * whose subscription has gone away. The registry lock only serialises these calls; sequentially
 * each call is a function from one registry to the next. `nextId` hands out the identities that
 * let a `Subscription` find its own entry.
 */
module Bus {
  import opened Options
  import opened Erased
  import Channel
  import Sub

  type Pair = Sub.Pair

  datatype EventBus = EventBus(registry: seq<Pair>, nextId: nat)

  /** `EventBus::new`: an empty registry. */
  function New(): (b: EventBus)
    ensures |b.registry| == 0
  {
    EventBus([], 0)
  }

  // ---------------------------------------------------------------------------------------------
  // publish

  /** The positions of the entries whose `send` of `e` returns true. */
  ghost function AcceptingIndices(entries: seq<Pair>, e: Value): set<int> {
    set i | 0 <= i < |entries| && Sub.Send(entries[i], e).Accepted()
  }

  /** The positions of the entries whose flag is live. */
  ghost function AliveIndices(entries: seq<Pair>): set<int> {
    set i | 0 <= i < |entries| && entries[i].alive
  }

  /** Adding a last entry adds its position when, and only when, it accepts `e`. */
  lemma AcceptingSnoc(entries: seq<Pair>, e: Value)
    requires |entries| > 0
    ensures var n := |entries| - 1;
      |AcceptingIndices(entries, e)| ==
      |AcceptingIndices(entries[..n], e)| + (if Sub.Send(entries[n], e).Accepted() then 1 else 0)
  {
    var n := |entries| - 1;
    var all, front := AcceptingIndices(entries, e), AcceptingIndices(entries[..n], e);
    forall i | i in all && i != n ensures i in front {
      assert entries[..n][i] == entries[i];
    }
    forall i | i in front ensures i in all && i != n {
      assert entries[..n][i] == entries[i];
    }
    assert all == front + (if Sub.Send(entries[n], e).Accepted() then {n} else {});
  }

  /** Adding a last entry adds its position when, and only when, it is live. */
  lemma AliveSnoc(entries: seq<Pair>)
    requires |entries| > 0
    ensures var n := |entries| - 1;
      |AliveIndices(entries)| == |AliveIndices(entries[..n])| + (if entries[n].alive then 1 else 0)
  {
    var n := |entries| - 1;
    var all, front := AliveIndices(entries), AliveIndices(entries[..n]);
    forall i | i in all && i != n ensures i in front {
      assert entries[..n][i] == entries[i];
    }
    forall i | i in front ensures i in all && i != n {
      assert entries[..n][i] == entries[i];
    }
    assert all == front + (if entries[n].alive then {n} else {});
  }

  /**
   * The fold of `publish`: send `e` to each entry in registration order, counting the sends that
   * returned true.
   */
  function Broadcast(entries: seq<Pair>, e: Value): (r: (nat, seq<Pair>))
    ensures |r.1| == |entries|
    ensures forall i :: 0 <= i < |entries| ==> r.1[i] == Sub.Send(entries[i], e).pair
    ensures r.0 == |AcceptingIndices(entries, e)|
    ensures r.0 <= |entries|
    decreases |entries|
  {
    if |entries| == 0 then (0, [])
    else
      var n := |entries| - 1;
      var (count, done) := Broadcast(entries[..n], e);
      var sent := Sub.Send(entries[n], e);
      AcceptingSnoc(entries, e);
      (count + (if sent.Accepted() then 1 else 0), done + [sent.pair])
  }

  /**
   * `EventBus::publish`: returns how many subscribers accepted `e`. The registry keeps its
   * entries, their order and their identities; only queues and flags move.
   */
  function Publish(bus: EventBus, e: Value): (r: (nat, EventBus))
    ensures r.0 == |AcceptingIndices(bus.registry, e)|
    ensures r.0 <= |bus.registry|
    ensures |r.1.registry| == |bus.registry| && r.1.nextId == bus.nextId
    ensures forall i :: 0 <= i < |bus.registry| ==> r.1.registry[i] == Sub.Send(bus.registry[i], e).pair
    ensures forall i :: 0 <= i < |bus.registry| ==>
      r.1.registry[i].id == bus.registry[i].id && r.1.registry[i].convert == bus.registry[i].convert
  {
    var (count, entries) := Broadcast(bus.registry, e);
    (count, bus.(registry := entries))
  }

  /** Publishing to a new bus reaches nobody. */
  lemma PublishOnNew(e: Value)
    ensures Publish(New(), e).0 == 0
  {
  }

  /** The bus after publishing each event of `es` in turn. */
  function PublishAll(bus: EventBus, es: seq<Value>): (r: EventBus)
    ensures |r.registry| == |bus.registry| && r.nextId == bus.nextId
    ensures forall i :: 0 <= i < |bus.registry| ==>
      && r.registry[i].id == bus.registry[i].id
      && r.registry[i].channel.senderConnected == bus.registry[i].channel.senderConnected
      && r.registry[i].channel.receiverConnected == bus.registry[i].channel.receiverConnected
    decreases |es|
  {
    if |es| == 0 then bus else PublishAll(Publish(bus, es[0]).1, es[1..])
  }

  /** Publishing a sequence of events treats every entry on its own, as if sent to it alone. */
  lemma {:induction false} PublishAllPerEntry(bus: EventBus, es: seq<Value>)
    ensures |PublishAll(bus, es).registry| == |bus.registry|
    ensures PublishAll(bus, es).nextId == bus.nextId
    ensures forall i :: 0 <= i < |bus.registry| ==>
      PublishAll(bus, es).registry[i] == Sub.SendAll(bus.registry[i], es)
    decreases |es|
  {
    if |es| > 0 {
      var next := Publish(bus, es[0]).1;
      PublishAllPerEntry(next, es[1..]);
    }
  }

  /**
   * Per-subscriber FIFO: an entry with its receiver held and room for every match receives exactly
   * the converted events it matches, in publish order, whatever else was published in between.
   */
  lemma PublishAllFifo(bus: EventBus, es: seq<Value>, i: nat)
    requires i < |bus.registry|
    requires bus.registry[i].channel.receiverConnected
    requires |bus.registry[i].channel.queue| + |Sub.Matches(bus.registry[i].convert, es)| <= bus.registry[i].channel.cap
    ensures PublishAll(bus, es).registry[i].channel.queue ==
      bus.registry[i].channel.queue + Sub.Matches(bus.registry[i].convert, es)
  {
    PublishAllPerEntry(bus, es);
    Sub.SendAllFifo(bus.registry[i], es);
  }

  // ---------------------------------------------------------------------------------------------
  // subscribe

  /**
   * `EventBus::subscribe_where`: appends one live subscriber with an empty queue of capacity
   * `backlog`, leaving every earlier entry as it was, and returns the new subscription's identity.
   */
  function SubscribeWhere(bus: EventBus, backlog: nat, convert: Converter): (r: (EventBus, nat))
    ensures |r.0.registry| == |bus.registry| + 1
    ensures r.0.registry[..|bus.registry|] == bus.registry
    ensures var p := r.0.registry[|bus.registry|];
      p.id == r.1 && p.alive && p.convert == convert &&
      p.channel.queue == [] && p.channel.cap == backlog &&
      p.channel.senderConnected && p.channel.receiverConnected
  {
    var p := Sub.NewPair(bus.nextId, backlog, convert);
    assert (bus.registry + [p])[..|bus.registry|] == bus.registry;
    (EventBus(bus.registry + [p], bus.nextId + 1), bus.nextId)
  }

  /** The identity filter-map of `subscribe::<T>`: a downcast to exactly `t`, then a clone. */
  function Exactly(t: TypeTag): (c: Converter)
    ensures forall e :: c(e) == (if e.ty == t then Some(e) else None)
  {
    e => Downcast(e, t)
  }

  /** `EventBus::subscribe::<T>`: `subscribe_where` with the identity filter-map for `t`. */
  function Subscribe(bus: EventBus, backlog: nat, t: TypeTag): (r: (EventBus, nat))
    ensures |r.0.registry| == |bus.registry| + 1
    ensures r.0.registry[..|bus.registry|] == bus.registry
    ensures var p := r.0.registry[|bus.registry|];
      p.id == r.1 && p.alive && p.channel.queue == [] && p.channel.cap == backlog &&
      p.channel.senderConnected && p.channel.receiverConnected && p.convert == Exactly(t) &&
      forall e :: p.convert(e) == (if e.ty == t then Some(e) else None)
  {
    SubscribeWhere(bus, backlog, Exactly(t))
  }

  /**
   * A `subscribe::<T>` subscriber with room accepts an event exactly when its type is `t`, and then
   * enqueues an equal copy at the back.
   */
  lemma SubscribeAcceptsExactly(p: Pair, t: TypeTag, e: Value)
    requires p.convert == Exactly(t)
    requires p.channel.receiverConnected && |p.channel.queue| < p.channel.cap
    ensures Sub.Send(p, e).Accepted() <==> e.ty == t
    ensures e.ty == t ==> Sub.Send(p, e).pair.channel.queue == p.channel.queue + [e]
    ensures e.ty != t ==> Sub.Send(p, e).pair == p
  {
  }

  // ---------------------------------------------------------------------------------------------
  // shrink_to_fit

  /** `a` is `b` with some entries left out, the rest in their original order. */
  ghost predicate SubsequenceOf<T>(a: seq<T>, b: seq<T>)
    decreases |b|
  {
    if |a| == 0 then true
    else if |b| == 0 then false
    else
      (a[|a| - 1] == b[|b| - 1] && SubsequenceOf(a[..|a| - 1], b[..|b| - 1]))
      || SubsequenceOf(a, b[..|b| - 1])
  }

  /** `Vec::retain(|s| s.is_alive())`. */
  function Retain(entries: seq<Pair>): (r: seq<Pair>)
    ensures forall i :: 0 <= i < |r| ==> Sub.IsAlive(r[i])
    ensures SubsequenceOf(r, entries)
    ensures |r| == |AliveIndices(entries)|
    decreases |entries|
  {
    if |entries| == 0 then []
    else
      var n := |entries| - 1;
      var kept := Retain(entries[..n]);
      AliveSnoc(entries);
      if Sub.IsAlive(entries[n]) then
        var r := kept + [entries[n]];
        assert r[..|kept|] == kept && r[|kept|] == entries[n];
        r
      else kept
  }

  /** `retain` keeps every live entry and brings in nothing new. */
  /** `retain` over a registry is `retain` over all but its last entry, then that entry if live. */
  lemma RetainSnoc(entries: seq<Pair>)
    requires |entries| > 0
    ensures var n := |entries| - 1;
      Retain(entries) == Retain(entries[..n]) + (if entries[n].alive then [entries[n]] else [])
  {
  }

  lemma {:induction false} RetainMembers(entries: seq<Pair>)
    ensures forall i :: 0 <= i < |entries| && entries[i].alive ==> entries[i] in Retain(entries)
    ensures forall p :: p in Retain(entries) ==> p in entries
    decreases |entries|
  {
    if |entries| > 0 {
      var n := |entries| - 1;
      RetainMembers(entries[..n]);
      RetainSnoc(entries);
      SnocMembers(entries, Retain(entries[..n]), Retain(entries));
    }
  }

  /**
   * The inductive step of `RetainMembers`, on plain sequences: `r` extends `kept`, a retain of all
   * but the last entry, with that entry exactly when it is live.
   */
  lemma SnocMembers(entries: seq<Pair>, kept: seq<Pair>, r: seq<Pair>)
    requires |entries| > 0
    requires var n := |entries| - 1;
      r == kept + (if entries[n].alive then [entries[n]] else [])
    requires forall i :: 0 <= i < |entries| - 1 && entries[i].alive ==> entries[..|entries| - 1][i] in kept
    requires forall p :: p in kept ==> p in entries[..|entries| - 1]
    ensures forall i :: 0 <= i < |entries| && entries[i].alive ==> entries[i] in r
    ensures forall p :: p in r ==> p in entries
  {
    var n := |entries| - 1;
    forall i | 0 <= i < |entries| && entries[i].alive
      ensures entries[i] in r
    {
      if i < n {
        assert entries[..n][i] == entries[i];
      }
    }
    forall p | p in r
      ensures p in entries
    {
      if p in kept {
        var j :| 0 <= j < n && entries[..n][j] == p;
        assert entries[j] == p;
      }
    }
  }



  /**
   * `EventBus::shrink_to_fit`: keeps exactly the live entries, in their original order. (Releasing
   * the vector's spare capacity has no counterpart here.)
   */
  function ShrinkToFit(bus: EventBus): (r: EventBus)
    ensures forall i :: 0 <= i < |r.registry| ==> r.registry[i].alive
    ensures forall i :: 0 <= i < |bus.registry| && bus.registry[i].alive ==> bus.registry[i] in r.registry
    ensures forall p :: p in r.registry ==> p in bus.registry
    ensures SubsequenceOf(r.registry, bus.registry)
    ensures |r.registry| == |AliveIndices(bus.registry)|
    ensures r.nextId == bus.nextId
  {
    RetainMembers(bus.registry);
    bus.(registry := Retain(bus.registry))
  }

  /** Retaining the live entries of an all-live registry keeps every entry. */
  lemma {:induction false} RetainAllAlive(entries: seq<Pair>)
    requires forall i :: 0 <= i < |entries| ==> entries[i].alive
    ensures Retain(entries) == entries
    decreases |entries|
  {
    if |entries| > 0 {
      var n := |entries| - 1;
      RetainAllAlive(entries[..n]);
      assert entries[..n] + [entries[n]] == entries;
    }
  }

  /** `shrink_to_fit` is idempotent. */
  lemma ShrinkIdempotent(bus: EventBus)
    ensures ShrinkToFit(ShrinkToFit(bus)) == ShrinkToFit(bus)
  {
    RetainAllAlive(ShrinkToFit(bus).registry);
  }

  // ---------------------------------------------------------------------------------------------
  // The registry invariant

  /**
   * Every reachable bus: identities strictly increase along the registry and lie below `nextId`,
   * and every entry is a valid pair.
   */
  ghost predicate Valid(bus: EventBus) {
    && (forall i, j :: 0 <= i < j < |bus.registry| ==> bus.registry[i].id < bus.registry[j].id)
    && (forall i :: 0 <= i < |bus.registry| ==> bus.registry[i].id < bus.nextId)
    && (forall i :: 0 <= i < |bus.registry| ==> Sub.Valid(bus.registry[i]))
  }

  // ---------------------------------------------------------------------------------------------
  // The subscription side

  /** Whether a registry entry with identity `id` exists. */
  predicate HasId(entries: seq<Pair>, id: nat) {
    exists i :: 0 <= i < |entries| && entries[i].id == id
  }

  /** The position of the entry with identity `id`. */
  function IndexOf(entries: seq<Pair>, id: nat): (i: nat)
    requires HasId(entries, id)
    ensures i < |entries| && entries[i].id == id
    ensures forall j :: 0 <= j < i ==> entries[j].id != id
  {
    if entries[0].id == id then 0
    else
      assert HasId(entries[1..], id) by {
        var k :| 0 <= k < |entries| && entries[k].id == id;
        assert entries[1..][k - 1].id == id;
      }
      1 + IndexOf(entries[1..], id)
  }

  /** The subscription `id` has not been dropped: its entry is present with its receiver held. */
  predicate Holds(entries: seq<Pair>, id: nat) {
    HasId(entries, id) && entries[IndexOf(entries, id)].channel.receiverConnected
  }

  /** Dropping the `Subscription` with identity `id`. Nothing else in the registry changes. */
  function DropSubscription(bus: EventBus, id: nat): (r: EventBus)
    requires Holds(bus.registry, id)
    ensures |r.registry| == |bus.registry| && r.nextId == bus.nextId
    ensures var i := IndexOf(bus.registry, id);
      var p := r.registry[i];
      !Sub.IsAlive(p) && !p.channel.receiverConnected &&
      p.id == id && p.convert == bus.registry[i].convert && p.channel.queue == bus.registry[i].channel.queue &&
      p.channel.cap == bus.registry[i].channel.cap &&
      forall j :: 0 <= j < |bus.registry| && j != i ==> r.registry[j] == bus.registry[j]
  {
    var i := IndexOf(bus.registry, id);
    bus.(registry := bus.registry[i := Sub.Unsubscribe(bus.registry[i])])
  }

  /** `try_recv` on the subscription with identity `id`; no other entry is touched. */
  function Receive(entries: seq<Pair>, id: nat): (r: (Result<Value, Channel.TryRecvError>, seq<Pair>))
    requires Holds(entries, id)
    ensures |r.1| == |entries|
    ensures var i := IndexOf(entries, id);
      && (r.0.Ok? <==> |entries[i].channel.queue| > 0)
      && (r.0.Ok? ==> [r.0.value] + r.1[i].channel.queue == entries[i].channel.queue)
      && (r.0.Ok? ==> r.1[i] == entries[i].(channel := entries[i].channel.(queue := entries[i].channel.queue[1..])))
      && (r.0 == Err(Channel.RecvDisconnected) <==>
          entries[i].channel.queue == [] && !entries[i].channel.senderConnected)
      && (r.0.Err? ==> r.1 == entries)
      && r.1[i].id == id && r.1[i].channel.receiverConnected == entries[i].channel.receiverConnected
      && (forall j :: 0 <= j < |entries| && j != i ==> r.1[j] == entries[j])
  {
    var i := IndexOf(entries, id);
    var (res, p) := Sub.Receive(entries[i]);
    (res, entries[i := p])
  }

  /** A receive leaves the subscription held, at the same place in the registry. */
  lemma ReceiveKeepsPlace(entries: seq<Pair>, id: nat)
    requires Holds(entries, id)
    ensures Holds(Receive(entries, id).1, id)
    ensures IndexOf(Receive(entries, id).1, id) == IndexOf(entries, id)
  {
    assert Receive(entries, id).1[IndexOf(entries, id)].id == id;
  }

  /**
   * `k` receives in a row on the subscription `id`: their results, and the registry afterwards.
   * Only the subscription's own entry changes, and it stays held at the same place.
   */
  function ReceiveTimes(entries: seq<Pair>, id: nat, k: nat): (r: (seq<Result<Value, Channel.TryRecvError>>, seq<Pair>))
    requires Holds(entries, id)
    ensures |r.0| == k && |r.1| == |entries|
    ensures Holds(r.1, id) && IndexOf(r.1, id) == IndexOf(entries, id)
    ensures forall j :: 0 <= j < |entries| && j != IndexOf(entries, id) ==> r.1[j] == entries[j]
    decreases k
  {
    if k == 0 then ([], entries)
    else
      var (x, after) := Receive(entries, id);
      ReceiveKeepsPlace(entries, id);
      var (xs, rest) := ReceiveTimes(after, id, k - 1);
      ([x] + xs, rest)
  }

  /**
   * FIFO on the receiving side: `k` receives on a subscription holding at least `k` values return
   * the first `k` of them in order and leave the rest queued.
   */
  lemma {:induction false} ReceiveTimesPops(entries: seq<Pair>, id: nat, k: nat)
    requires Holds(entries, id)
    requires k <= |entries[IndexOf(entries, id)].channel.queue|
    ensures var i := IndexOf(entries, id);
      var q := entries[i].channel.queue;
      var r := ReceiveTimes(entries, id, k);
      && (forall j :: 0 <= j < k ==> r.0[j] == Ok(q[j]))
      && r.1[i] == entries[i].(channel := entries[i].channel.(queue := q[k..]))
    decreases k
  {
    if k > 0 {
      var i := IndexOf(entries, id);
      var q := entries[i].channel.queue;
      var (x, after) := Receive(entries, id);
      ReceiveKeepsPlace(entries, id);
      var rest := ReceiveTimes(after, id, k - 1);
      assert ReceiveTimes(entries, id, k) == ([x] + rest.0, rest.1);
      assert x == Ok(q[0]) && after[i].channel.queue == q[1..];
      ReceiveTimesPops(after, id, k - 1);
      assert q[1..][k - 1..] == q[k..];
    }
  }

  /**
   * Dropping the bus drops every subscriber it still holds: what remains are the subscriptions,
   * whose channels have lost their sending half.
   */
  function Close(bus: EventBus): (r: seq<Pair>)
    ensures |r| == |bus.registry|
    ensures forall i :: 0 <= i < |r| ==>
      !r[i].channel.senderConnected && r[i].id == bus.registry[i].id &&
      r[i].channel.queue == bus.registry[i].channel.queue &&
      r[i].channel.receiverConnected == bus.registry[i].channel.receiverConnected
  {
    seq(|bus.registry|, i requires 0 <= i < |bus.registry| =>
      bus.registry[i].(channel := Channel.DropSender(bus.registry[i].channel)))
  }

  /** After the bus is gone, a drained subscription reports a disconnected channel. */
  lemma ClosedDrainedDisconnects(bus: EventBus, id: nat)
    requires Holds(Close(bus), id)
    requires Close(bus)[IndexOf(Close(bus), id)].channel.queue == []
    ensures Receive(Close(bus), id).0 == Err(Channel.RecvDisconnected)
  {
  }

  /** Each call the bus offers, as seen from outside. */
  datatype Call =
    | PublishCall(e: Value)
    | SubscribeWhereCall(backlog: nat, convert: Converter)
    | ShrinkCall
    | DropCall(id: nat)
    | RecvCall(id: nat)

  /** One call; dropping or receiving on a subscription that is not held changes nothing. */
  function Step(bus: EventBus, c: Call): EventBus {
    match c
    case PublishCall(e) => Publish(bus, e).1
    case SubscribeWhereCall(backlog, convert) => SubscribeWhere(bus, backlog, convert).0
    case ShrinkCall => ShrinkToFit(bus)
    case DropCall(id) => if Holds(bus.registry, id) then DropSubscription(bus, id) else bus
    case RecvCall(id) => if Holds(bus.registry, id) then bus.(registry := Receive(bus.registry, id).1) else bus
  }

  lemma NewValid()
    ensures Valid(New())
  {
  }

  /** Strictly increasing identities stay so under `retain`. */
  lemma {:induction false} RetainKeepsIncreasing(entries: seq<Pair>)
    requires forall i, j :: 0 <= i < j < |entries| ==> entries[i].id < entries[j].id
    ensures forall i, j :: 0 <= i < j < |Retain(entries)| ==> Retain(entries)[i].id < Retain(entries)[j].id
    decreases |entries|
  {
    if |entries| > 0 {
      var n := |entries| - 1;
      RetainKeepsIncreasing(entries[..n]);
      RetainMembers(entries[..n]);
      var kept := Retain(entries[..n]);
      forall k | 0 <= k < |kept|
        ensures kept[k].id < entries[n].id
      {
        assert kept[k] in entries[..n];
      }
    }
  }

  lemma PublishKeepsValid(bus: EventBus, e: Value)
    requires Valid(bus)
    ensures Valid(Publish(bus, e).1)
  {
    var r := Publish(bus, e).1;
    forall i | 0 <= i < |bus.registry|
      ensures Sub.Valid(r.registry[i])
    {
      Sub.ApplyKeepsValid(bus.registry[i], Sub.Deliver(e));
    }
  }

  /** Any run of publishes keeps the invariant. */
  lemma {:induction false} PublishAllKeepsValid(bus: EventBus, es: seq<Value>)
    requires Valid(bus)
    ensures Valid(PublishAll(bus, es))
    decreases |es|
  {
    if |es| > 0 {
      PublishKeepsValid(bus, es[0]);
      PublishAllKeepsValid(Publish(bus, es[0]).1, es[1..]);
    }
  }

  /**
   * A dropped subscription is purged: however many events are published after the drop, its entry
   * is counted by no later `publish`, and the next `shrink_to_fit` removes it, so that no entry with
   * its identity remains.
   */
  lemma DroppedIsPurged(bus: EventBus, id: nat, es: seq<Value>, e: Value)
    requires Valid(bus) && Holds(bus.registry, id)
    ensures IndexOf(bus.registry, id) !in AcceptingIndices(PublishAll(DropSubscription(bus, id), es).registry, e)
    ensures !HasId(ShrinkToFit(PublishAll(DropSubscription(bus, id), es)).registry, id)
  {
    var i := IndexOf(bus.registry, id);
    var dropped := DropSubscription(bus, id);
    DropKeepsValid(bus, id);
    PublishAllKeepsValid(dropped, es);
    var later := PublishAll(dropped, es);
    assert later.registry[i].id == id;
    DisconnectedNeverAccepts(later, i, e);
    ShrinkRemovesDisconnected(later, i);
  }

  /** An entry whose receiver is gone accepts no event. */
  lemma DisconnectedNeverAccepts(bus: EventBus, i: nat, e: Value)
    requires i < |bus.registry| && !bus.registry[i].channel.receiverConnected
    ensures i !in AcceptingIndices(bus.registry, e)
  {
  }

  /** On a valid bus, `shrink_to_fit` removes every trace of an entry whose receiver is gone. */
  lemma ShrinkRemovesDisconnected(bus: EventBus, i: nat)
    requires Valid(bus)
    requires i < |bus.registry| && !bus.registry[i].channel.receiverConnected
    ensures !HasId(ShrinkToFit(bus).registry, bus.registry[i].id)
  {
    var kept := ShrinkToFit(bus).registry;
    forall k | 0 <= k < |kept|
      ensures kept[k].id != bus.registry[i].id
    {
      assert kept[k] in bus.registry;
      var j :| 0 <= j < |bus.registry| && bus.registry[j] == kept[k];
      if j != i {
        assert bus.registry[j].id != bus.registry[i].id;
      }
    }
  }

  lemma SubscribeKeepsValid(bus: EventBus, backlog: nat, convert: Converter)
    requires Valid(bus)
    ensures Valid(SubscribeWhere(bus, backlog, convert).0)
  {
  }

  lemma ShrinkKeepsValid(bus: EventBus)
    requires Valid(bus)
    ensures Valid(ShrinkToFit(bus))
  {
    RetainKeepsIncreasing(bus.registry);
    var r := ShrinkToFit(bus).registry;
    forall k | 0 <= k < |r|
      ensures r[k].id < bus.nextId && Sub.Valid(r[k])
    {
      assert r[k] in bus.registry;
    }
  }

  lemma DropKeepsValid(bus: EventBus, id: nat)
    requires Valid(bus) && Holds(bus.registry, id)
    ensures Valid(DropSubscription(bus, id))
  {
  }

  lemma ReceiveKeepsValid(bus: EventBus, id: nat)
    requires Valid(bus) && Holds(bus.registry, id)
    ensures Valid(bus.(registry := Receive(bus.registry, id).1))
  {
  }

  lemma StepKeepsValid(bus: EventBus, c: Call)
    requires Valid(bus)
    ensures Valid(Step(bus, c))
  {
    match c
    case PublishCall(e) => PublishKeepsValid(bus, e);
    case SubscribeWhereCall(backlog, convert) => SubscribeKeepsValid(bus, backlog, convert);
    case ShrinkCall => ShrinkKeepsValid(bus);
    case DropCall(id) =>
      if Holds(bus.registry, id) {
        DropKeepsValid(bus, id);
      }
    case RecvCall(id) =>
      if Holds(bus.registry, id) {
        ReceiveKeepsValid(bus, id);
      }
  }

  function Steps(bus: EventBus, cs: seq<Call>): EventBus
    decreases |cs|
  {
    if |cs| == 0 then bus else Steps(Step(bus, cs[0]), cs[1..])
  }

  /**
   * Every bus reachable from `new()` is valid: in particular no queue ever exceeds its backlog,
   * and a flag is dead exactly when its subscription was dropped.
   */
  lemma {:induction false} ReachableValid(cs: seq<Call>)
    ensures Valid(Steps(New(), cs))
  {
    NewValid();
    StepsKeepValid(New(), cs);
  }

  lemma {:induction false} StepsKeepValid(bus: EventBus, cs: seq<Call>)
    requires Valid(bus)
    ensures Valid(Steps(bus, cs))
    decreases |cs|
  {
    if |cs| > 0 {
      StepKeepsValid(bus, cs[0]);
      StepsKeepValid(Step(bus, cs[0]), cs[1..]);
    }
  }
}
