/**
 * A walk-through of the broker: one namespace with write key "wk", a
 * writer C1 and a reader C2, played through the dispatcher, including a
 * fan-out that cannot reach C2 after it disconnects.
 */
module Scenario {
  import opened Wrappers
  import opened Messages
  import Store
  import opened Namespace

  /** A pool that fails to reach exactly the connections in `failed`
      (all of them in the snapshot it is given) and so leaves their ids
      behind. */
  function FailingPool(failed: seq<SocketId>): SendToManyOracle {
    snapshot => failed
  }

  const C1: SocketId := 1
  const C2: SocketId := 2

  /** Store "s" of a valid namespace holds `value` and is subscribed to by
      exactly `subs`. */
  ghost predicate HoldsFor(ns: NamespaceInner, value: string, subs: set<SocketId>) {
    && Valid(ns)
    && "s" in ns.stores
    && Store.Get(ns.stores["s"]) == value
    && Store.Subscribed(ns.stores["s"]) == subs
  }

  /** C1, holding the write key, subscribes to the absent store "s": it is
      created with "v0" and C1 alone is told. */
  lemma {:induction false} WriterCreates(ns0: NamespaceInner)
    requires ns0.writeKey == "wk" && ns0.stores == map[]
    ensures var e := Step(ns0, M1, Reachable);
            && HoldsFor(e.ns, "v0", {C1})
            && e.outbox == [SendTo(C1, Update("s", "v0"))]
  {
    assert Valid(ns0);
    assert CanWrite("wk", Some("wk"));
    var e := HandleSubscribe(ns0, C1, "s", "v0", true);
    assert HoldsFor(e.ns, "v0", {C1});
  }

  /** C2, read-only, subscribes: its `initial` is ignored and it is sent
      the current value. */
  lemma {:induction false} ReaderJoins(ns: NamespaceInner)
    requires HoldsFor(ns, "v0", {C1})
    ensures var e := Step(ns, M2, Reachable);
            && HoldsFor(e.ns, "v0", {C1, C2})
            && e.outbox == [SendTo(C2, Update("s", "v0"))]
  {
    var e := HandleSubscribe(ns, C2, "s", "ignored", false);
    assert HoldsFor(e.ns, "v0", {C1, C2});
  }

  /** A `Set` by C1 reaches every subscriber, takes effect, and drops the
      subscribers the pool failed to reach. */
  lemma {:induction false} WriterSets(ns: NamespaceInner, value: string, failed: seq<SocketId>)
    requires Valid(ns) && "s" in ns.stores && Store.Subscribed(ns.stores["s"]) == {C1, C2}
    ensures var e := Step(ns, TaggedMessage(C1, Set("s", value), true), FailingPool(failed));
            && HoldsFor(e.ns, value, {C1, C2} - set s | s in failed)
            && |e.outbox| == 1
            && FanOut(e.outbox[0], {C1, C2}, Update("s", value))
  {
    var e := HandleSet(ns, "s", value, true, FailingPool(failed));
    assert FailingPool(failed)(e.outbox[0].sockets) == failed;
  }

  /** Who is left subscribed after a fan-out that reaches everyone, and
      after one that fails to reach C2. */
  lemma Survivors()
    ensures {C1, C2} - (set s: SocketId | s in []) == {C1, C2}
    ensures {C1, C2} - (set s | s in [C2]) == {C1}
  {
    assert (set s | s in [C2]) == {C2};
  }

  /** Running a mailbox that starts with `m` is one step on `m` followed
      by the run of the rest, their pool calls concatenated in order. */
  lemma RunCons(ns: NamespaceInner, m: TaggedMessage, p: SendToManyOracle,
                mailbox: seq<TaggedMessage>, pools: seq<SendToManyOracle>)
    requires Valid(ns) && |pools| == |mailbox|
    ensures var first := Step(ns, m, p);
            var rest := Run(first.ns, mailbox, pools);
            Run(ns, [m] + mailbox, [p] + pools) == Effect(rest.ns, first.outbox + rest.outbox)
  {
  }

  /** A four-element sequence, built up one element at a time from the back. */
  lemma Cons4<T>(a: T, b: T, c: T, d: T)
    ensures [a, b, c, d] == [a] + ([b] + ([c] + ([d] + [])))
  {
  }

  /** Running a four-message mailbox is four steps in a row, their pool
      calls concatenated in order. */
  lemma RunOfFour(ns: NamespaceInner, m1: TaggedMessage, m2: TaggedMessage, m3: TaggedMessage, m4: TaggedMessage,
                  p1: SendToManyOracle, p2: SendToManyOracle, p3: SendToManyOracle, p4: SendToManyOracle)
    requires Valid(ns)
    ensures var e1 := Step(ns, m1, p1);
            var e2 := Step(e1.ns, m2, p2);
            var e3 := Step(e2.ns, m3, p3);
            var e4 := Step(e3.ns, m4, p4);
            Run(ns, [m1, m2, m3, m4], [p1, p2, p3, p4]) ==
              Effect(e4.ns, e1.outbox + (e2.outbox + (e3.outbox + (e4.outbox + []))))
  {
    var e1 := Step(ns, m1, p1);
    var e2 := Step(e1.ns, m2, p2);
    var e3 := Step(e2.ns, m3, p3);
    RunCons(e3.ns, m4, p4, [], []);
    RunCons(e2.ns, m3, p3, [m4], [p4]);
    RunCons(e1.ns, m2, p2, [m3, m4], [p3, p4]);
    RunCons(ns, m1, p1, [m2, m3, m4], [p2, p3, p4]);
    Cons4(m1, m2, m3, m4);
    Cons4(p1, p2, p3, p4);
  }

  /** Four single-call outboxes, concatenated, list those calls in order. */
  lemma OutboxOfFour(a: seq<Outgoing>, b: seq<Outgoing>, c: seq<Outgoing>, d: seq<Outgoing>)
    requires |a| == 1 && |b| == 1 && |c| == 1 && |d| == 1
    ensures var o := a + (b + (c + (d + [])));
            |o| == 4 && o[0] == a[0] && o[1] == b[0] && o[2] == c[0] && o[3] == d[0]
  {
  }

  /** The walk-through's mailbox, in arrival order. */
  const M1: TaggedMessage := TaggedMessage(C1, Subscribe("s", "v0"), CanWrite("wk", Some("wk")))
  const M2: TaggedMessage := TaggedMessage(C2, Subscribe("s", "ignored"), CanWrite("wk", None))
  const M3: TaggedMessage := TaggedMessage(C1, Set("s", "v1"), true)
  const M4: TaggedMessage := TaggedMessage(C1, Set("s", "v2"), true)

  /** How the pool answers each message's fan-out: everyone is reachable
      until C2 disconnects, just before the last `Set`. */
  const Reachable: SendToManyOracle := FailingPool([])
  const C2Gone: SendToManyOracle := FailingPool([C2])

  /** The whole walk-through as one run of the dispatcher: C1 and C2 each
      get the current value on subscribing, both `Set`s fan out to
      {C1, C2}, the second prunes C2, which it could not reach, and a
      direct read then returns "v2". */
  lemma EndToEnd(ns0: NamespaceInner)
    requires ns0.writeKey == "wk" && ns0.stores == map[]
    ensures var r := Run(ns0, [M1, M2, M3, M4], [Reachable, Reachable, Reachable, C2Gone]);
            && |r.outbox| == 4
            && r.outbox[0] == SendTo(C1, Update("s", "v0"))
            && r.outbox[1] == SendTo(C2, Update("s", "v0"))
            && FanOut(r.outbox[2], {C1, C2}, Update("s", "v1"))
            && FanOut(r.outbox[3], {C1, C2}, Update("s", "v2"))
            && HoldsFor(r.ns, "v2", {C1})
            && ReadStore(r.ns, "s") == Some("v2")
  {
    WriterCreates(ns0);
    var e1 := Step(ns0, M1, Reachable);
    ReaderJoins(e1.ns);
    var e2 := Step(e1.ns, M2, Reachable);
    WriterSets(e2.ns, "v1", []);
    var e3 := Step(e2.ns, M3, Reachable);
    WriterSets(e3.ns, "v2", [C2]);
    var e4 := Step(e3.ns, M4, C2Gone);
    Survivors();
    RunOfFour(ns0, M1, M2, M3, M4, Reachable, Reachable, Reachable, C2Gone);
    OutboxOfFour(e1.outbox, e2.outbox, e3.outbox, e4.outbox);
  }
}
