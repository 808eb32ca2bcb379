# Store broker: bookkeeping core in Dafny

The broker is a namespaced real-time key-value service. Clients hold a
socket to one namespace. They subscribe to named stores (string values)
and write to them, and they are pushed `Update{store, value}` whenever a
subscribed value changes. This project models the bookkeeping at its centre
as pure functions, with every lock, `.await`, task and channel removed:

- `Unique` (`unique.dfy`) is the slot-indexed set that holds a store's
  subscribers. It has three parts: a map from value to slot, a dense
  sequence of optional slots, and a free-list stack of emptied slot indices.
  `Valid` is its representation invariant:
  - the map and the slots agree in both directions;
  - the free-list holds every empty slot exactly once, and nothing else.

  `Elements` is its abstract meaning, a finite set.
- `Store` (`store.dfy`) is `StoreInner` with its two `RwLock`s erased. It is
  a record of one string value and one `Unique` of subscriber ids.
- `Messages` (`messages.dfy`) holds the message types:
  - the envelope `TaggedMessage`: socket id, client message and write
    capability;
  - the four client messages and the one server message;
  - `Outgoing`, the two pool calls through which replies leave
    (`send_to` one socket, `send_to_many` a snapshot).
- `Namespace` (`namespace.dfy`) is the namespace. It has a fixed write key
  and a finite map from store name to store. One iteration of the
  dispatcher loop is `Step`: it takes the state and one envelope, and gives
  the next state plus the pool calls made, in order. All messages of a
  namespace go through this single consumer loop, so a sequential step
  function models it faithfully. `Run` drains a whole mailbox.
  `ReadStore`, `WriteStore`, `NewStore` and `CanWrite` model the direct
  paths and the capability computed by `add_connection`.
- `Scenario` (`scenario.dfy`) plays a walk-through as one run of the
  dispatcher over a four-message mailbox:
  1. a writer creates store "s" by subscribing;
  2. a read-only connection joins;
  3. a `Set` reaches both;
  4. after the reader has gone, a second `Set` prunes it, and a direct
     read returns the new value.

The pool's `send_to_many` is not visible. It is modelled as an oracle
`SendToManyOracle`: a function from the subscriber snapshot to the ids left
in the `&mut` vector afterwards. The `Set` arm passes those ids to
`unsubscribe_many`. The oracle is left unconstrained, and `Run` takes a
separate one for each message, so every property stated about `Set` and
about whole runs holds for any answers the pool gives, message by message.

On the direct write path the ids `send_to_many` leaves are discarded
(src/namespace/mod.rs:71), so nobody is pruned there, unlike the `Set` arm.
`Namespace.WriteStoreSkipsPruning` states the difference.

The `Get` arm unsubscribes the requester after replying whether or not the
send failed (src/namespace/mod.rs:166-169), although the comment above it
speaks of a failed send. The model keeps the unconditional removal.

## Model

| member | source | states |
|---|---|---|
| Unique.SlotIff | src/store/unique.rs:3-11 | in a valid structure, slot `i` holds `Some(v)` exactly when the map sends `v` to `i` |
| Unique.New | src/store/unique.rs:17-24 | the new structure is valid and stands for the empty set, with no slots, an empty free-list, and `get_all` empty |
| Unique.Insert | src/store/unique.rs:26-42 | keeps the invariant; abstract set becomes old ∪ {v}; a present value changes nothing; a new value takes the top free slot, leaving the slot count alone, and only with an empty free-list grows it by one; `v` then sits in exactly one slot; every other slot is unchanged |
| Unique.Remove | src/store/unique.rs:44-49 | keeps the invariant; abstract set becomes old \ {v}; an absent value changes nothing; a present value's slot becomes empty and its index is pushed on the free-list; every other slot is unchanged |
| Unique.Occupied | src/store/unique.rs:52 | the `filter_map` over the slots yields exactly the values of the occupied slots, and is no longer than the slot vector |
| Unique.OccupiedInSlotOrder | src/store/unique.rs:51-53 | scanning the first `n` slots of a valid structure yields values whose slots lie below `n`, in strictly increasing slot order |
| Unique.GetAll | src/store/unique.rs:51-53 | lists exactly the members of the set, each once, in increasing slot order |
| Unique.InsertThenRemove | src/store/unique.rs:26-49 | inserting a fresh value that reuses a free slot and then removing it restores the exact representation |
| Unique.Apply | src/store/unique.rs:26-49 | any history of inserts and removes keeps the representation invariant |
| Unique.ApplyRefinesNet | src/store/unique.rs:26-53 | after any insert/remove history the set is exactly the net-present values, and `get_all` lists exactly those |
| Store.New | src/store/mod.rs:20-25 | a new store holds the initial value and has no subscribers; its snapshot is empty |
| Store.Set | src/store/mod.rs:31-33 | after `set(v)` the value read is `v`, and the subscriber set is untouched |
| Store.GetAfterSet | src/store/mod.rs:27-33 | last writer wins: a read after a write returns the written value, and an earlier write is overwritten completely |
| Store.Subscribe | src/store/mod.rs:35-37 | adds the id to the subscriber set, is a no-op if it is already there, and leaves the value alone |
| Store.SubscribeIdempotent | src/store/mod.rs:35-37 | subscribing twice is the same as subscribing once |
| Store.Unsubscribe | src/store/mod.rs:39-41 | removes the id if present, is a no-op otherwise, and leaves the value alone |
| Store.RemoveEach | src/store/mod.rs:48-51 | removing each listed id in turn keeps the invariant and removes exactly the listed ids |
| Store.UnsubscribeMany | src/store/mod.rs:43-52 | an empty list changes nothing; otherwise exactly the listed ids leave the subscriber set, every other subscriber stays, and the value is unchanged |
| Store.Subscribers | src/store/mod.rs:54-56 | the snapshot lists each current subscriber exactly once and nothing else |
| Namespace.CanWrite | src/namespace/mod.rs:182 | write capability holds exactly when a key is supplied and it equals the namespace key |
| Namespace.MissingKeyIsReadOnly | src/namespace/mod.rs:177-184 | a connection that supplies no key is read-only even when the namespace key is empty; supplying the key grants writing |
| Namespace.ReadStore | src/namespace/mod.rs:47-50 | an absent store reads as `None`, and a present store as `Some` of its current value |
| Namespace.NewStore | src/namespace/mod.rs:81-85 | the named store holds `value` with no subscribers; every other store is unchanged |
| Namespace.WriteStore | src/namespace/mod.rs:52-79 | a wrong key gives `Err("Invalid write key")` and nothing else; with the right key an absent store is created with the value and nothing is sent, and a present store takes the value, keeps all its subscribers, and sends one `Update` to each subscriber exactly once; other stores are untouched |
| Namespace.WriteStoreSkipsPruning | src/namespace/mod.rs:52-79 | with the right key the direct write stores the same values and sends the same fan-out as a socket `Set`, but keeps the subscribers the pool left behind, which `Set` drops |
| Namespace.HandleSubscribe | src/namespace/mod.rs:100-122 | a read-only connection subscribing to an absent store changes and sends nothing; otherwise an absent store is created with `initial` (ignored for an existing store), the socket joins the subscriber set, and exactly one `Update` with the current value goes to that socket alone; other stores are untouched |
| Namespace.HandleUnsubscribe | src/namespace/mod.rs:123-127 | an absent store stays absent and nothing changes; a present store loses only the requester and keeps its value; nothing is sent |
| Namespace.HandleSet | src/namespace/mod.rs:128-155 | a read-only connection changes and sends nothing; an absent store is created with the value and nothing is sent; a present store takes the value, one `Update` goes to each old subscriber exactly once, and exactly the ids the pool left are dropped from its subscribers; other stores are untouched |
| Namespace.HandleGet | src/namespace/mod.rs:157-171 | an absent store changes and sends nothing; for a present store one `Update` with its value goes to the requester, the value is unchanged, and the requester is removed from its subscribers unconditionally |
| Namespace.Step | src/namespace/mod.rs:93-173 | one dispatcher iteration keeps every store valid, changes only the store the message names, and from a read-only connection creates no store and changes no value |
| Namespace.Run | src/namespace/mod.rs:92-174 | draining any mailbox in order, with the pool answering each message's fan-out independently, keeps every store valid and the write key fixed |
| Namespace.ReadOnlyRunKeepsValues | src/namespace/mod.rs:92-174 | any mailbox of messages from read-only connections, whatever the pool answers to each, creates no store and leaves every value as it was |
| Scenario.WriterCreates | src/namespace/mod.rs:100-122 | a writer subscribing to absent "s" with "v0" creates it, subscribes alone, and alone receives `Update{s, v0}` |
| Scenario.ReaderJoins | src/namespace/mod.rs:100-122 | a read-only subscriber to the existing "s" has its `initial` ignored, joins the subscribers, and alone receives the current value |
| Scenario.WriterSets | src/namespace/mod.rs:128-155 | a writer's `Set` reaches both subscribers once each and leaves subscribed exactly those the pool reached |
| Scenario.RunOfFour | src/namespace/mod.rs:92-174 | draining a four-message mailbox is the four dispatcher steps in order, each with its own pool answer, their pool calls concatenated in order |
| Scenario.EndToEnd | src/namespace/mod.rs:87-174 | one run over the four-message mailbox, the pool reaching everyone for the first three messages and missing C2 on the last: exactly four pool calls, the replies to both subscribes, the two fan-outs to {C1, C2}, C2 pruned after its failed delivery, and a final read of "v2" |

## Left out

- src/ws/socket.rs: the socket wrapper is I/O. It holds a sink behind a mutex, a terminated flag and a global atomic id counter. Socket ids are plain `nat`s.
- src/ws/pool.rs: the pool is a stub in the source. `send_to_many` is the unconstrained `SendToManyOracle`, and `send_to` appears only as `SendTo` entries in the outbox.
- `listen_to`, the pool attach in `add_connection` (src/namespace/mod.rs:183), is not modelled: `CanWrite` models only the write flag computed there and handed to it.
- `send_to` takes the socket id as `&mut`, and the `Get` arm unsubscribes that id after the call. The pool is not visible, so the model assumes `send_to` leaves the id unchanged.
- src/app.rs and src/main.rs: the namespace registry, HTTP routes, environment configuration and status mapping are routing plumbing. The registry's "Namespace not found" error belongs to them.
- client/namespace.ts: browser client code.
- Serialisation of client and server messages: the messages module is not part of this model. Frames that fail to decode never reach the dispatcher.
- The store cache's 12-hour `time_to_idle` eviction is timing-based. The cache is a plain finite map that never forgets a store.
- Concurrency: tasks, `.await`, the unbounded channel and the `RwLock`s are erased. Each dispatcher message is one atomic step. The direct `write_store` path runs outside the loop in the source; the model gives no interleaving with the dispatcher at a finer grain than whole calls.
- `NamespaceInner::new` and `start`'s spawning of the loop: the model's initial state is any namespace value, and `Run` is the loop, given one pool answer per message.
- `StoreInner::get` is plain field access and has no contract of its own. `Store.GetAfterSet` and the handlers state what it returns.
- `SocketId` is `usize` in the source. Ids are unbounded here, because the dispatcher never does arithmetic on them.
