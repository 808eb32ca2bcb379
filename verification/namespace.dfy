/**
 * `NamespaceInner` (src/namespace/mod.rs) as a pure state machine. The
 * store cache is a finite map from store name to store, the write key is
 * fixed, and one iteration of the dispatcher loop is a step from one
 * state to the next plus the pool calls it makes.
 */
module Namespace {
  import opened Wrappers
  import opened Messages
  import Unique
  import Store

  /** The source's `Store<SocketId>`. */
  type SocketStore = Store.StoreInner<SocketId>

  datatype NamespaceInner = NamespaceInner(writeKey: string, stores: map<string, SocketStore>)

  /** The state after a step and the pool calls the step made, in order. */
  datatype Effect = Effect(ns: NamespaceInner, outbox: seq<Outgoing>)

  ghost predicate Valid(ns: NamespaceInner) {
    forall name :: name in ns.stores ==> Store.Valid(ns.stores[name])
  }

  /** Every store other than `name` is the same, and present in both or
      in neither. */
  ghost predicate OthersUnchanged(ns: NamespaceInner, ns': NamespaceInner, name: string) {
    forall n :: n != name ==>
      && (n in ns.stores <==> n in ns'.stores)
      && (n in ns.stores ==> ns'.stores[n] == ns.stores[n])
  }

  /** A `send_to_many` of `message` to each member of `subs` exactly once. */
  ghost predicate FanOut(o: Outgoing, subs: set<SocketId>, message: ServerMessage) {
    && o.SendToMany?
    && o.message == message
    && Unique.Distinct(o.sockets)
    && (forall s :: s in o.sockets <==> s in subs)
  }

  /** The write capability `add_connection` gives a connection: only a
      supplied key equal to the namespace's key grants it. */
  function CanWrite(writeKey: string, supplied: Option<string>): (r: bool)
    ensures r ==> supplied.Some?
    ensures supplied.Some? ==> (r <==> supplied.value == writeKey)
  {
    supplied == Some(writeKey)
  }

  /** A connection that supplies no key is read-only, even when the
      namespace's key is empty. */
  lemma MissingKeyIsReadOnly(writeKey: string)
    ensures !CanWrite(writeKey, None)
    ensures CanWrite(writeKey, Some(writeKey))
  {
  }

  /** `read_store`: absent stores read as `None`. */
  function ReadStore(ns: NamespaceInner, name: string): (r: Option<string>)
    ensures r.None? <==> name !in ns.stores
    ensures r.Some? ==> r.value == Store.Get(ns.stores[name])
  {
    if name in ns.stores then Some(Store.Get(ns.stores[name])) else None
  }

  /** `new_store`: a fresh store with `value` and no subscribers, put in
      the cache under `name`, replacing whatever was there. */
  function NewStore(ns: NamespaceInner, name: string, value: string): (r: NamespaceInner)
    requires Valid(ns)
    ensures Valid(r)
    ensures r.writeKey == ns.writeKey
    ensures OthersUnchanged(ns, r, name)
    ensures ReadStore(r, name) == Some(value)
    ensures Store.Subscribed(r.stores[name]) == {}
  {
    ns.(stores := ns.stores[name := Store.New(value)])
  }

  /** `write_store`: a wrong key is refused; otherwise an absent store is
      created silently, and a present one is overwritten and its value
      fanned out to the subscriber snapshot. The ids the pool leaves behind
      are discarded, so nobody is pruned on this path. */
  function WriteStore(ns: NamespaceInner, name: string, writeKey: string, value: string): (r: Result<Effect, string>)
    requires Valid(ns)
    ensures r.Failure? <==> writeKey != ns.writeKey
    ensures r.Failure? ==> r.error == "Invalid write key"
    ensures r.Success? ==>
              && Valid(r.value.ns)
              && r.value.ns.writeKey == ns.writeKey
              && OthersUnchanged(ns, r.value.ns, name)
              && ReadStore(r.value.ns, name) == Some(value)
    ensures r.Success? && name !in ns.stores ==>
              && r.value.outbox == []
              && Store.Subscribed(r.value.ns.stores[name]) == {}
    ensures r.Success? && name in ns.stores ==>
              && Store.Subscribed(r.value.ns.stores[name]) == Store.Subscribed(ns.stores[name])
              && |r.value.outbox| == 1
              && FanOut(r.value.outbox[0], Store.Subscribed(ns.stores[name]), Update(name, value))
  {
    if writeKey != ns.writeKey then
      Failure("Invalid write key")
    else if name in ns.stores then
      var store := Store.Set(ns.stores[name], value);
      var subscribers := Store.Subscribers(store);
      Success(Effect(ns.(stores := ns.stores[name := store]), [SendToMany(subscribers, Update(name, value))]))
    else
      Success(Effect(NewStore(ns, name, value), []))
  }

  /** With the right key, the direct write path stores the same value and
      sends the same fan-out as a socket `Set`, but keeps every subscriber
      the pool left behind, where the `Set` arm drops them. */
  lemma WriteStoreSkipsPruning(ns: NamespaceInner, name: string, value: string, sendToMany: SendToManyOracle)
    requires Valid(ns)
    ensures var w := WriteStore(ns, name, ns.writeKey, value);
            var d := HandleSet(ns, name, value, true, sendToMany);
            && w.Success?
            && w.value.outbox == d.outbox
            && (forall n :: ReadStore(w.value.ns, n) == ReadStore(d.ns, n))
            && (name in ns.stores ==>
                  Store.Subscribed(d.ns.stores[name]) ==
                    Store.Subscribed(w.value.ns.stores[name]) - set s | s in sendToMany(d.outbox[0].sockets))
  {
  }

  /** The `Subscribe` arm. A read-only connection cannot create a store;
      otherwise an absent store is created with `initial` (ignored for an
      existing store), the socket subscribed, and the current value sent
      to it alone. */
  function HandleSubscribe(ns: NamespaceInner, socketId: SocketId, name: string, initial: string, canWrite: bool): (r: Effect)
    requires Valid(ns)
    ensures Valid(r.ns)
    ensures r.ns.writeKey == ns.writeKey
    ensures OthersUnchanged(ns, r.ns, name)
    ensures name !in ns.stores && !canWrite ==> r == Effect(ns, [])
    ensures name in ns.stores || canWrite ==>
              && name in r.ns.stores
              && Store.Get(r.ns.stores[name]) == (if name in ns.stores then Store.Get(ns.stores[name]) else initial)
              && Store.Subscribed(r.ns.stores[name]) ==
                   (if name in ns.stores then Store.Subscribed(ns.stores[name]) else {}) + {socketId}
              && r.outbox == [SendTo(socketId, Update(name, Store.Get(r.ns.stores[name])))]
  {
    if name !in ns.stores && !canWrite then
      Effect(ns, [])
    else
      var ns1 := if name in ns.stores then ns else NewStore(ns, name, initial);
      var store := Store.Subscribe(ns1.stores[name], socketId);
      var value := Store.Get(store);
      Effect(ns1.(stores := ns1.stores[name := store]), [SendTo(socketId, Update(name, value))])
  }

  /** The `Unsubscribe` arm: removes only the requester, from a present
      store; an absent store is left absent. */
  function HandleUnsubscribe(ns: NamespaceInner, socketId: SocketId, name: string): (r: Effect)
    requires Valid(ns)
    ensures Valid(r.ns)
    ensures r.ns.writeKey == ns.writeKey
    ensures OthersUnchanged(ns, r.ns, name)
    ensures r.outbox == []
    ensures name !in ns.stores ==> r.ns == ns
    ensures name in ns.stores ==>
              && name in r.ns.stores
              && Store.Get(r.ns.stores[name]) == Store.Get(ns.stores[name])
              && Store.Subscribed(r.ns.stores[name]) == Store.Subscribed(ns.stores[name]) - {socketId}
  {
    if name in ns.stores then
      Effect(ns.(stores := ns.stores[name := Store.Unsubscribe(ns.stores[name], socketId)]), [])
    else
      Effect(ns, [])
  }

  /** The `Set` arm. Read-only connections are ignored; an absent store is
      created with `value` and nobody is told; a present store takes the
      value, fans it out to the subscriber snapshot, and drops the ids the
      pool leaves behind. */
  function HandleSet(ns: NamespaceInner, name: string, value: string, canWrite: bool, sendToMany: SendToManyOracle): (r: Effect)
    requires Valid(ns)
    ensures Valid(r.ns)
    ensures r.ns.writeKey == ns.writeKey
    ensures OthersUnchanged(ns, r.ns, name)
    ensures !canWrite ==> r == Effect(ns, [])
    ensures canWrite ==> ReadStore(r.ns, name) == Some(value)
    ensures canWrite && name !in ns.stores ==>
              && r.outbox == []
              && Store.Subscribed(r.ns.stores[name]) == {}
    ensures canWrite && name in ns.stores ==>
              && |r.outbox| == 1
              && FanOut(r.outbox[0], Store.Subscribed(ns.stores[name]), Update(name, value))
              && Store.Subscribed(r.ns.stores[name]) ==
                   Store.Subscribed(ns.stores[name]) - set s | s in sendToMany(r.outbox[0].sockets)
  {
    if !canWrite then
      Effect(ns, [])
    else if name !in ns.stores then
      Effect(NewStore(ns, name, value), [])
    else
      var store := Store.Set(ns.stores[name], value);
      var subscribers := Store.Subscribers(store);
      var left := sendToMany(subscribers);
      var pruned := Store.UnsubscribeMany(store, left);
      Effect(ns.(stores := ns.stores[name := pruned]), [SendToMany(subscribers, Update(name, value))])
  }

  /** The `Get` arm: a present store's value goes to the requester alone,
      who is then unsubscribed from that store whether or not they were
      subscribed; an absent store is a no-op. */
  function HandleGet(ns: NamespaceInner, socketId: SocketId, name: string): (r: Effect)
    requires Valid(ns)
    ensures Valid(r.ns)
    ensures r.ns.writeKey == ns.writeKey
    ensures OthersUnchanged(ns, r.ns, name)
    ensures name !in ns.stores ==> r == Effect(ns, [])
    ensures name in ns.stores ==>
              && name in r.ns.stores
              && Store.Get(r.ns.stores[name]) == Store.Get(ns.stores[name])
              && Store.Subscribed(r.ns.stores[name]) == Store.Subscribed(ns.stores[name]) - {socketId}
              && r.outbox == [SendTo(socketId, Update(name, Store.Get(ns.stores[name])))]
  {
    if name in ns.stores then
      var store := ns.stores[name];
      var value := Store.Get(store);
      Effect(ns.(stores := ns.stores[name := Store.Unsubscribe(store, socketId)]), [SendTo(socketId, Update(name, value))])
    else
      Effect(ns, [])
  }

  /** One iteration of the dispatcher loop in `start`. Only the store the
      message names can change, and a read-only connection can neither
      create a store nor change any store's value. */
  function Step(ns: NamespaceInner, m: TaggedMessage, sendToMany: SendToManyOracle): (r: Effect)
    requires Valid(ns)
    ensures Valid(r.ns)
    ensures r.ns.writeKey == ns.writeKey
    ensures OthersUnchanged(ns, r.ns, m.message.store)
    ensures !m.canWrite ==> r.ns.stores.Keys == ns.stores.Keys
    ensures !m.canWrite ==> forall n :: n in ns.stores ==> ReadStore(r.ns, n) == ReadStore(ns, n)
  {
    match m.message
    case Subscribe(name, initial) => HandleSubscribe(ns, m.socketId, name, initial, m.canWrite)
    case Unsubscribe(name) => HandleUnsubscribe(ns, m.socketId, name)
    case Set(name, value) => HandleSet(ns, name, value, m.canWrite, sendToMany)
    case Get(name) => HandleGet(ns, m.socketId, name)
  }

  /** The dispatcher draining its mailbox in order, collecting every pool
      call it makes. `pools[k]` is how the pool answers a fan-out while the
      `k`-th message is handled, so a socket reached by one fan-out may fail
      the next. */
  function Run(ns: NamespaceInner, mailbox: seq<TaggedMessage>, pools: seq<SendToManyOracle>): (r: Effect)
    requires Valid(ns)
    requires |pools| == |mailbox|
    ensures Valid(r.ns)
    ensures r.ns.writeKey == ns.writeKey
    decreases |mailbox|
  {
    if |mailbox| == 0 then
      Effect(ns, [])
    else
      var first := Step(ns, mailbox[0], pools[0]);
      var rest := Run(first.ns, mailbox[1..], pools[1..]);
      Effect(rest.ns, first.outbox + rest.outbox)
  }

  /** Write isolation over any mailbox: messages from read-only
      connections never create a store and never change a value, however
      the pool behaves. */
  lemma {:induction false} ReadOnlyRunKeepsValues(ns: NamespaceInner, mailbox: seq<TaggedMessage>, pools: seq<SendToManyOracle>)
    requires Valid(ns)
    requires |pools| == |mailbox|
    requires forall k :: 0 <= k < |mailbox| ==> !mailbox[k].canWrite
    ensures Run(ns, mailbox, pools).ns.stores.Keys == ns.stores.Keys
    ensures forall n :: ReadStore(Run(ns, mailbox, pools).ns, n) == ReadStore(ns, n)
    decreases |mailbox|
  {
    if |mailbox| > 0 {
      var first := Step(ns, mailbox[0], pools[0]);
      ReadOnlyRunKeepsValues(first.ns, mailbox[1..], pools[1..]);
      forall n
        ensures ReadStore(first.ns, n) == ReadStore(ns, n)
      {
        if n !in ns.stores {
          assert n !in first.ns.stores;
        }
      }
    }
  }
}
