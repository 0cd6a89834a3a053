# eventbus-tiny, modelled in Dafny

A model of the sequential behaviour of `eventbus-tiny`, an in-process publish/subscribe bus.
Publishers emit values of any type. Each subscriber declares, through a filter-map, which values
it wants and what it receives for them. Every subscriber has its own bounded queue.

The model has seven modules, one file each:

- `Options` (`options.dfy`): `Option` and `Result`.
- `Erased` (`erased.dfy`): type-erased values. A `&dyn Any` becomes a `Value` that carries its
  concrete type as a tag. `downcast_ref::<T>()` becomes `Downcast`, which succeeds exactly on tag
  `T`. A filter-map is a `Converter`, i.e. a function `Value -> Option<Value>`.
- `Channel` (`channel.dfy`): the bounded `std::sync::mpsc::sync_channel`, reduced to the
  non-blocking `try_send` and `try_recv`. A full queue and a gone receiver are distinct failures.
  A gone receiver is reported first. Backlog 0 is a rendezvous channel: no receiver is ever blocked
  waiting in a sequential run, so every `try_send` to it reports `Full` while its receiver is held.
- `Sub` (`sub.dfy`): the `Subscriber`/`Subscription` pair. Both halves live in one record
  (`Pair`). The shared `Arc<AtomicBool>` is a single `alive` field, and the `id` field stands for
  the identity of that shared allocation. `Send` has four outcomes: no match, enqueued, full, and
  disconnected. `Unsubscribe` is the `Drop` of the `Subscription`.
- `FilterMap` (`filtermap.dfy`): the filter-maps that `where_into!`, `where_try_into!` and
  `aggregate_enum!` generate. Each is a first-match search over a list of type tags. The user's
  `Into` and `TryInto` impls are parameters.
- `Bus` (`bus.dfy`): the `EventBus` registry as a `seq<Pair>`. `Publish` is the fold of `send`
  over the registry. It also has `SubscribeWhere`, `Subscribe` (the identity filter-map),
  `ShrinkToFit` (`retain(is_alive)`), and the subscription side: dropping a subscription, receiving
  from it, and dropping the bus. It also defines a registry invariant (`Valid`) that holds for
  every bus reachable from `new()`.
- `Scenarios` (`scenarios.dfy`): the crate's two behavioural tests, replayed on the model.

On every reachable pair, the flag is dead exactly when the `Subscription` has been dropped: the
flag is false iff the receiver is disconnected (`Sub.Coherent`, kept by `Sub.RunKeepsValid` and
`Bus.ReachableValid`). So the `alive.store(false)` in `send`'s disconnected branch never changes
the flag in a sequential run; `Sub.SendKeepsFlag` states this. The branch stays in the model
because it is in the code.

Two facts from the source:
- `sync_channel(backlog)` accepts 0 (src/sub.rs:123), so the model allows backlog 0.
- The flag has two writers: `Subscription::drop` (src/sub.rs:113) and the disconnected branch of
  `send` (src/sub.rs:66). The model has both.

## Model

| member | source | states |
|---|---|---|
| `Erased.Downcast` | src/bus.rs:60-65 | A downcast to `t` succeeds exactly when the event's type is `t`, and then yields an equal copy. |
| `Channel.SyncChannel` | src/sub.rs:123 | A new channel is empty, has capacity `backlog`, and both halves are connected. |
| `Channel.TrySend` | src/sub.rs:63-67 | A send to a gone receiver fails as Disconnected. A full queue (always the case for capacity 0) fails as Full. Otherwise the value is appended at the back and the capacity bound still holds. |
| `Channel.TryRecv` | src/sub.rs:98-104 | A receive succeeds exactly when the queue is non-empty, and then returns the front value and keeps the rest. It reports Disconnected exactly when the queue is empty and the sender is gone. |
| `Sub.NewPair` | src/sub.rs:118-130 | `pair` gives a live pair with an empty channel of capacity `backlog`, both halves connected, and the given converter. |
| `Sub.Send` | src/sub.rs:55-71 | No match: returns false and nothing changes. Match with room: returns true and the queue becomes old queue + [converted value]. Full: returns false and the flag is untouched. Receiver gone: returns false and the flag becomes dead. Neither half is ever connected or disconnected by a send. It returns true iff there is a match, the receiver is held and the queue has room. |
| `Sub.Unsubscribe` | src/sub.rs:110-115 | Dropping the `Subscription` makes `is_alive` false and disconnects the receiver. Identity, converter and capacity are kept. |
| `Sub.Receive` | src/sub.rs:98-104 | `try_recv` through `Deref` pops the front of the queue and changes nothing else, or reports Empty or Disconnected and leaves the pair as it was. |
| `Sub.AliveIffHeld` | src/sub.rs:76-78 | On every reachable pair, `is_alive` (which `AnySubscriber::is_alive`, src/sub.rs:31-33, forwards to) is true exactly when the `Subscription` is still held. |
| `Sub.RunKeepsValid` | src/sub.rs:118-130 | Under any sequence of sends, receives and drops, the queue never exceeds `backlog`, and the flag stays dead exactly when the receiver is gone. |
| `Sub.DeadStaysDead` | src/sub.rs:64-67 | Once dead, the flag stays dead under any sequence of operations, because every write stores false. |
| `Sub.SendKeepsFlag` | src/sub.rs:64-67 | On a reachable pair, `send` never changes the flag. |
| `Sub.DroppedRejects` | src/sub.rs:76-78 | After the `Subscription` is dropped, `is_alive` is false and `send` returns false, whatever happens afterwards. |
| `Sub.SendAllFifo` | src/sub.rs:63-70 | Send a sequence of events to a connected pair with room for all matches. Its queue grows by exactly the converted matching events, in order, with non-matches skipped, and the number of sends that returned true is the number of matches. |
| `FilterMap.WhereInto` | src/macros.rs:8-20 | The result is `Some` iff the event's type is among the listed sources, and it is then the `Into` conversion of the event. |
| `FilterMap.WhereTryInto` | src/macros.rs:32-47 | The result is `Some` iff a listed source matches and `try_into` succeeds, and it is then the converted value. A failed conversion leads to `None`. |
| `FilterMap.TryFromEvent` | src/macros.rs:66-79 | The result is `Some` iff the event's type is a listed variant, and it is then the aggregate enum's variant wrapping the event. |
| `FilterMap.WhereIntoAccepts` | src/macros.rs:8-20 | A `where_into!` subscriber with room accepts an event iff its type is listed, then enqueues its `Into` conversion; otherwise it is unchanged. |
| `FilterMap.WhereTryIntoAccepts` | src/macros.rs:32-47 | A `where_try_into!` subscriber with room accepts an event iff its type is listed and `try_into` succeeds, then enqueues the converted value; otherwise it is unchanged. |
| `FilterMap.InfallibleTryIntoIsInto` | src/macros.rs:36-41 | With a conversion that never fails, `where_try_into!` gives exactly what `where_into!` gives. |
| `FilterMap.AggregateRoundTrip` | src/macros.rs:70-74 | An event of a listed type comes back out of its aggregate variant unchanged, and the variant is named after the event's type. |
| `FilterMap.AggregateOnto` | src/macros.rs:60-63 | Every aggregate value whose variant is listed is what `try_from_event` makes of the value it wraps. |
| `Bus.New` | src/bus.rs:34-37 | `new()` has an empty registry. |
| `Bus.PublishOnNew` | src/bus.rs:34-37 | `publish` on a new bus returns 0. |
| `Bus.Broadcast` | src/bus.rs:46-50 | The fold sends the event to each entry in order. Its count is the number of entries whose `send` returned true, so it is at most the registry length. |
| `Bus.Publish` | src/bus.rs:40-51 | `publish` returns the number of subscribers that accepted the event. It adds, removes and reorders no entries and keeps each entry's identity and converter. Entry i becomes what `send` made of it. |
| `Bus.PublishAll` | src/bus.rs:40-51 | A sequence of publishes adds and removes no entry and keeps each entry's identity and whether its two halves are connected. |
| `Bus.PublishAllPerEntry` | src/bus.rs:45-50 | Publishing a sequence of events changes each entry as if the events had been sent to it alone. |
| `Bus.PublishAllFifo` | src/bus.rs:46-50 | Per-subscriber FIFO across publishes: an entry whose receiver is held and that has room gets exactly its matches, in publish order, even with other events published in between. |
| `Bus.SubscribeWhere` | src/bus.rs:82-98 | Appends exactly one entry, at the end, and leaves earlier entries unchanged. The new entry is live, has an empty queue, capacity `backlog`, both halves connected and the given filter-map. |
| `Bus.Exactly` | src/bus.rs:59-65 | The filter-map of `subscribe::<T>` yields an equal copy of the event when its type is exactly `t`, and nothing otherwise. |
| `Bus.Subscribe` | src/bus.rs:55-69 | Like `subscribe_where`: one live entry appended with an empty queue of capacity `backlog` and both halves connected. Its filter-map is `Exactly(t)`, which yields the event itself when its type is exactly `t`, and nothing otherwise. |
| `Bus.SubscribeAcceptsExactly` | src/bus.rs:59-65 | A `subscribe::<T>` subscriber with room accepts an event iff its type is `T`. It then enqueues an equal copy. Otherwise it is left unchanged. |
| `Bus.Retain` | src/bus.rs:104 | `retain(is_alive)` keeps only live entries, as a subsequence of the registry in its original order. The result length is the number of live entries. |
| `Bus.RetainMembers` | src/bus.rs:104 | `retain` keeps every live entry and brings in no entry that was not in the registry. |
| `Bus.ShrinkToFit` | src/bus.rs:101-106 | `shrink_to_fit` leaves exactly the live entries, in their original relative order. |
| `Bus.RetainAllAlive` | src/bus.rs:104 | On a registry where every entry is live, `retain` changes nothing. |
| `Bus.ShrinkIdempotent` | src/bus.rs:101-106 | A second `shrink_to_fit` changes nothing. |
| `Bus.DropSubscription` | src/sub.rs:110-115 | Dropping a held subscription marks its entry dead and disconnected. No other entry changes and the registry keeps its length. |
| `Bus.Receive` | src/sub.rs:98-104 | Receiving on a held subscription pops the front of its own queue and changes nothing else in its entry. A failed receive changes nothing, and no other entry ever changes. |
| `Bus.ReceiveTimes` | src/sub.rs:98-104 | A run of receives on one subscription touches no other entry and leaves the subscription held at the same place. |
| `Bus.ReceiveTimesPops` | src/sub.rs:98-104 | FIFO on the receiving side: `k` receives on a subscription holding at least `k` values return the first `k` of them in order and leave the rest queued. |
| `Bus.Close` | src/bus.rs:28-31 | Dropping the bus drops every sender in its registry and leaves queues and receivers as they were. |
| `Bus.ClosedDrainedDisconnects` | tests/pubsub.rs:39-42 | Once the bus is dropped, a subscription whose queue is drained gets Disconnected from `try_recv`. |
| `Bus.DroppedIsPurged` | src/bus.rs:103-104 | After its subscription is dropped, and whatever events are published after that, the entry is counted by no later `publish`, and the next `shrink_to_fit` removes it: no entry with its identity remains. |
| `Bus.PublishAllKeepsValid` | src/bus.rs:40-51 | Any run of publishes keeps the registry invariant. |
| `Bus.ShrinkRemovesDisconnected` | src/bus.rs:101-106 | On a registry satisfying the invariant, `shrink_to_fit` leaves no entry with the identity of an entry whose subscription is gone. |
| `Bus.RetainKeepsIncreasing` | src/bus.rs:104 | `retain` keeps the registration order: identities that increased along the registry still increase. |
| `Bus.StepKeepsValid` | src/bus.rs:40-106 | Each bus call keeps the invariant: identities are unique and increasing, every queue is within its backlog, and the flag is dead exactly when the subscription is dropped. |
| `Bus.ReachableValid` | src/bus.rs:34-37 | Every bus reachable from `new()` by any sequence of calls satisfies that invariant. |
| `Scenarios.PubSubCounts` | tests/pubsub.rs:21-28 | With two `usize` subscribers with backlog 64, publishing any three `usize` values (the test uses 1, 4 and 7) returns 2 each time. |
| `Scenarios.PubSubQueues` | tests/pubsub.rs:25-37 | Afterwards, each subscriber's queue holds the three values in publish order. |
| `Scenarios.PubSubReceive` | tests/pubsub.rs:30-42 | In the test's order: while the bus is alive, the first and then the second subscription each receive the three values in publish order; once the bus is dropped, a further receive on each fails as Disconnected. |
| `Scenarios.AggregateDelivery` | tests/filtermap.rs:32-58 | An aggregate subscriber fed EventC(n), EventA, EventC(m) and EventB (the test uses n = 4 and m = 7) holds them in that order, each wrapped in the variant of its own type. |

## Left out

- Locking: `RwLock` acquisition and the `expect("failed to lock registry")` panics on a poisoned lock (src/bus.rs:45, 93, 103). Calls are modelled as happening one at a time, so a lock has nothing to decide.
- Atomics and races: the `SeqCst` orderings, and races between a `Subscription` drop and a concurrent `publish`. The flag is a plain boolean.
- `dyn Any`, `Arc`, `Box` and `Clone`: these become type tags, value equality and one shared record per pair.
- `Vec::shrink_to_fit` capacity release (src/bus.rs:105): allocated capacity cannot be observed in the model.
- Blocking receives: `recv`, bounded waits and the rendezvous hand-off to a receiver already waiting in `std::sync::mpsc`. Only the non-blocking `try_send` and `try_recv` are modelled. As a result, a backlog-0 subscriber never accepts anything in the model.
- `Debug` impls and `src/lib.rs`, which holds only lint attributes and re-exports.
- The load test (tests/pubsub.rs:47-79), with 3072 subscribers per type: its per-subscriber FIFO claim is `Bus.PublishAllFifo`, for any number of subscribers and events.
- Integer widths: `usize` backlogs and counts are unbounded `nat`s. The publish count cannot overflow in the source either, since it never exceeds the registry length (`Bus.Broadcast`).
- Scenarios.PubSubReceive: replays the test's blocking `recv` as `try_recv`. On a non-empty queue both return its front, and on an empty queue whose sender is gone both fail, which are the only cases the test reaches.
- Dropping a `Subscription` discards the values still buffered in its channel; the model keeps them, since with the receiver gone nothing can read them any more.
- Scenarios.AggregateDelivery: states the queue contents that `recv` then yields in order. It does not replay the four `recv` calls themselves; `Sub.Receive` pops the front of the queue.
