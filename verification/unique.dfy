/**
 * The slot-indexed set `Unique<V>` behind every store's subscriber list
 * (src/store/unique.rs). Three parts: a map from value to slot index, a
 * dense sequence of optional slots, and a stack of emptied slot indices.
 * Its abstract meaning is a finite set of values.
 */
module Unique {
  import opened Wrappers

  /** `slotOf` is the source's `set` field (`set` is a keyword here);
      `all` is the slot vector and `available` the free-list, whose top is
      its last element. */
  datatype Unique<V> = Unique(slotOf: map<V, nat>, all: seq<Option<V>>, available: seq<nat>)

  /** No value occurs twice in `s`. */
  ghost predicate Distinct<T>(s: seq<T>) {
    forall j, k :: 0 <= j < k < |s| ==> s[j] != s[k]
  }

  /** The representation invariant: the map and the slots agree, and the
      free-list holds every empty slot exactly once and nothing else. */
  ghost predicate Valid<V(!new)>(u: Unique<V>) {
    && (forall v :: v in u.slotOf ==> u.slotOf[v] < |u.all| && u.all[u.slotOf[v]] == Some(v))
    && (forall i :: 0 <= i < |u.all| && u.all[i].Some? ==>
          u.all[i].value in u.slotOf && u.slotOf[u.all[i].value] == i)
    && (forall k :: 0 <= k < |u.available| ==>
          u.available[k] < |u.all| && u.all[u.available[k]].None?)
    && Distinct(u.available)
    && (forall i :: 0 <= i < |u.all| && u.all[i].None? ==> i in u.available)
  }

  /** The set the structure stands for. */
  ghost function Elements<V(!new)>(u: Unique<V>): set<V> {
    u.slotOf.Keys
  }

  /** In a valid structure a value sits in slot `i` exactly when the map
      sends it to `i`. */
  lemma SlotIff<V(!new)>(u: Unique<V>, v: V, i: int)
    requires Valid(u)
    requires 0 <= i < |u.all|
    ensures u.all[i] == Some(v) <==> (v in u.slotOf && u.slotOf[v] == i)
  {
  }

  /** `Unique::new`: no slots, nothing free, nothing mapped. */
  function New<V(!new)>(): (r: Unique<V>)
    ensures Valid(r)
    ensures Elements(r) == {}
    ensures r.all == [] && r.available == []
    ensures GetAll(r) == []
  {
    Unique(map[], [], [])
  }

  /** `Unique::insert`: a present value changes nothing; otherwise the top
      free slot is reused, and the slot vector grows only when the
      free-list is empty. */
  function Insert<V(!new)>(u: Unique<V>, v: V): (r: Unique<V>)
    requires Valid(u)
    ensures Valid(r)
    ensures Elements(r) == Elements(u) + {v}
    ensures v in u.slotOf ==> r == u
    ensures v !in u.slotOf && |u.available| > 0 ==>
              && |r.all| == |u.all|
              && r.slotOf[v] == u.available[|u.available| - 1]
              && r.available == u.available[..|u.available| - 1]
    ensures v !in u.slotOf && |u.available| == 0 ==>
              && |r.all| == |u.all| + 1
              && r.slotOf[v] == |u.all|
              && r.available == []
    ensures forall i :: 0 <= i < |r.all| ==> (r.all[i] == Some(v) <==> i == r.slotOf[v])
    ensures forall i :: 0 <= i < |u.all| && i != r.slotOf[v] ==> r.all[i] == u.all[i]
  {
    if v in u.slotOf then
      u
    else if |u.available| > 0 then
      var index := u.available[|u.available| - 1];
      var rest := u.available[..|u.available| - 1];
      assert forall k :: 0 <= k < |rest| ==> rest[k] == u.available[k];
      assert index !in rest;
      Unique(u.slotOf[v := index], u.all[index := Some(v)], rest)
    else
      Unique(u.slotOf[v := |u.all|], u.all + [Some(v)], u.available)
  }

  /** `Unique::remove`: an absent value changes nothing; a present one has
      its slot emptied and the slot's index pushed on the free-list. */
  function Remove<V(!new)>(u: Unique<V>, v: V): (r: Unique<V>)
    requires Valid(u)
    ensures Valid(r)
    ensures Elements(r) == Elements(u) - {v}
    ensures v !in u.slotOf ==> r == u
    ensures |r.all| == |u.all|
    ensures v in u.slotOf ==>
              && r.all[u.slotOf[v]] == None
              && r.available == u.available + [u.slotOf[v]]
    ensures forall i :: 0 <= i < |u.all| && u.all[i] != Some(v) ==> r.all[i] == u.all[i]
  {
    if v in u.slotOf then
      var index := u.slotOf[v];
      Unique(u.slotOf - {v}, u.all[index := None], u.available + [index])
    else
      u
  }

  /** The `filter_map` in `get_all`: the values of the occupied slots, in
      slot order. */
  function Occupied<V(!new)>(slots: seq<Option<V>>): (r: seq<V>)
    ensures |r| <= |slots|
    ensures forall x :: x in r <==> Some(x) in slots
  {
    if |slots| == 0 then
      []
    else
      var rest := Occupied(slots[..|slots| - 1]);
      assert slots == slots[..|slots| - 1] + [slots[|slots| - 1]];
      match slots[|slots| - 1]
      case None => rest
      case Some(x) => rest + [x]
  }

  /** Scanning the first `n` slots of a valid structure yields values whose
      slots lie below `n`, in strictly increasing slot order. */
  lemma {:induction false} OccupiedInSlotOrder<V(!new)>(u: Unique<V>, n: nat)
    requires Valid(u)
    requires n <= |u.all|
    ensures forall j :: 0 <= j < |Occupied(u.all[..n])| ==>
              Occupied(u.all[..n])[j] in u.slotOf && u.slotOf[Occupied(u.all[..n])[j]] < n
    ensures forall j, k :: 0 <= j < k < |Occupied(u.all[..n])| ==>
              u.slotOf[Occupied(u.all[..n])[j]] < u.slotOf[Occupied(u.all[..n])[k]]
  {
    if n > 0 {
      OccupiedInSlotOrder(u, n - 1);
      assert u.all[..n][..n - 1] == u.all[..n - 1];
    }
  }

  /** `Unique::get_all`: every member exactly once, in slot order. */
  function GetAll<V(!new)>(u: Unique<V>): (r: seq<V>)
    requires Valid(u)
    ensures forall x :: x in r <==> x in Elements(u)
    ensures Distinct(r)
    ensures forall j, k :: 0 <= j < k < |r| ==> u.slotOf[r[j]] < u.slotOf[r[k]]
  {
    OccupiedInSlotOrder(u, |u.all|);
    assert u.all[..|u.all|] == u.all;
    Occupied(u.all)
  }

  /** Inserting a fresh value and removing it again restores the exact
      representation whenever a free slot was reused. */
  lemma InsertThenRemove<V(!new)>(u: Unique<V>, v: V)
    requires Valid(u)
    requires v !in u.slotOf && |u.available| > 0
    ensures Remove(Insert(u, v), v) == u
  {
  }

  /** One operation of an insert/remove history. */
  datatype Op<V> = Ins(v: V) | Rem(v: V)

  /** Runs a history against the structure, one call at a time. */
  function Apply<V(!new)>(u: Unique<V>, ops: seq<Op<V>>): (r: Unique<V>)
    requires Valid(u)
    ensures Valid(r)
    decreases |ops|
  {
    if |ops| == 0 then
      u
    else
      var next := match ops[0] case Ins(v) => Insert(u, v) case Rem(v) => Remove(u, v);
      Apply(next, ops[1..])
  }

  /** The same history run against a plain set: the values whose last
      operation was an insert, plus the untouched starting members. */
  ghost function Net<V(!new)>(s: set<V>, ops: seq<Op<V>>): set<V>
    decreases |ops|
  {
    if |ops| == 0 then
      s
    else
      match ops[0]
      case Ins(v) => Net(s + {v}, ops[1..])
      case Rem(v) => Net(s - {v}, ops[1..])
  }

  /** Any history of inserts and removes leaves exactly the net-present
      values, and `get_all` then lists each of them once. */
  lemma {:induction false} ApplyRefinesNet<V(!new)>(u: Unique<V>, ops: seq<Op<V>>)
    requires Valid(u)
    ensures Elements(Apply(u, ops)) == Net(Elements(u), ops)
    ensures forall x :: x in GetAll(Apply(u, ops)) <==> x in Net(Elements(u), ops)
    decreases |ops|
  {
    if |ops| > 0 {
      var next := match ops[0] case Ins(v) => Insert(u, v) case Rem(v) => Remove(u, v);
      ApplyRefinesNet(next, ops[1..]);
    }
  }
}
