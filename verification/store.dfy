/**
 * `StoreInner<S>` (src/store/mod.rs) with its two locks erased: one string
 * value and a `Unique` set of subscriber ids. The value half and the
 * subscriber half never touch each other.
 */
module Store {
  import Unique

  datatype StoreInner<S> = StoreInner(data: string, subscribers: Unique.Unique<S>)

  ghost predicate Valid<S(!new)>(st: StoreInner<S>) {
    Unique.Valid(st.subscribers)
  }

  /** The subscriber set as a set. */
  ghost function Subscribed<S(!new)>(st: StoreInner<S>): set<S> {
    Unique.Elements(st.subscribers)
  }

  /** `StoreInner::new`: the initial value and nobody subscribed. */
  function New<S(!new)>(initial: string): (r: StoreInner<S>)
    ensures Valid(r)
    ensures Get(r) == initial
    ensures Subscribed(r) == {}
    ensures Subscribers(r) == []
  {
    StoreInner(initial, Unique.New())
  }

  /** `StoreInner::get`. */
  function Get<S>(st: StoreInner<S>): string {
    st.data
  }

  /** `StoreInner::set`: last writer wins; the subscribers are untouched. */
  function Set<S(!new)>(st: StoreInner<S>, value: string): (r: StoreInner<S>)
    requires Valid(st)
    ensures Valid(r)
    ensures Get(r) == value
    ensures r.subscribers == st.subscribers
  {
    st.(data := value)
  }

  /** `StoreInner::subscribe`: adds `s`, idempotently, leaving the value. */
  function Subscribe<S(!new)>(st: StoreInner<S>, s: S): (r: StoreInner<S>)
    requires Valid(st)
    ensures Valid(r)
    ensures Subscribed(r) == Subscribed(st) + {s}
    ensures s in Subscribed(st) ==> r == st
    ensures Get(r) == Get(st)
  {
    st.(subscribers := Unique.Insert(st.subscribers, s))
  }

  /** `StoreInner::unsubscribe`: removes `s` if present, leaving the value. */
  function Unsubscribe<S(!new)>(st: StoreInner<S>, s: S): (r: StoreInner<S>)
    requires Valid(st)
    ensures Valid(r)
    ensures Subscribed(r) == Subscribed(st) - {s}
    ensures s !in Subscribed(st) ==> r == st
    ensures Get(r) == Get(st)
  {
    st.(subscribers := Unique.Remove(st.subscribers, s))
  }

  /** The loop in `unsubscribe_many`: removes each id in list order. */
  function RemoveEach<S(!new)>(u: Unique.Unique<S>, ids: seq<S>): (r: Unique.Unique<S>)
    requires Unique.Valid(u)
    ensures Unique.Valid(r)
    ensures Unique.Elements(r) == Unique.Elements(u) - set s | s in ids
    decreases |ids|
  {
    if |ids| == 0 then
      u
    else
      var r := RemoveEach(Unique.Remove(u, ids[0]), ids[1..]);
      assert ids == [ids[0]] + ids[1..];
      r
  }

  /** `StoreInner::unsubscribe_many`: an empty list is returned from
      straight away; otherwise exactly the listed ids are removed. */
  function UnsubscribeMany<S(!new)>(st: StoreInner<S>, ids: seq<S>): (r: StoreInner<S>)
    requires Valid(st)
    ensures Valid(r)
    ensures Subscribed(r) == Subscribed(st) - set s | s in ids
    ensures ids == [] ==> r == st
    ensures Get(r) == Get(st)
  {
    if |ids| == 0 then
      st
    else
      st.(subscribers := RemoveEach(st.subscribers, ids))
  }

  /** `StoreInner::subscibers` (sic): each current subscriber exactly once. */
  function Subscribers<S(!new)>(st: StoreInner<S>): (r: seq<S>)
    requires Valid(st)
    ensures forall s :: s in r <==> s in Subscribed(st)
    ensures Unique.Distinct(r)
  {
    Unique.GetAll(st.subscribers)
  }

  /** Reading back after a write gives the written value, whatever the
      store held before. */
  lemma GetAfterSet<S(!new)>(st: StoreInner<S>, v: string, w: string)
    requires Valid(st)
    ensures Get(Set(st, v)) == v
    ensures Set(Set(st, w), v) == Set(st, v)
  {
  }

  /** Subscribing twice is the same as subscribing once. */
  lemma SubscribeIdempotent<S(!new)>(st: StoreInner<S>, s: S)
    requires Valid(st)
    ensures Subscribe(Subscribe(st, s), s) == Subscribe(st, s)
  {
  }
}
