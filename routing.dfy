/**
 * What `forward_outgoing_messages` delivers, stated as functions on
 * values (src/main.rs:79-106), and the routing guarantees proved about it:
 * sender tags are kept, unicast reaches its target only, a broadcast
 * reaches every other node once, per-recipient order follows the
 * collection order, and the number of deliveries is the total fan-out.
 */
module Routing {
  import opened Params
  import opened Messaging

  /** One node's out-queue, each message tagged with the node's id. */
  function Tag<M>(sender: nat, ms: seq<TargetedMessage<M>>): seq<Inbound<M>>
  {
    seq(|ms|, k requires 0 <= k < |ms| => Inbound(sender, ms[k]))
  }

  /**
   * The round's messages: the out-queues drained node by node in id
   * order, each in its own FIFO order, tagged with the draining node's id.
   */
  function Collected<M>(outs: seq<seq<TargetedMessage<M>>>): seq<Inbound<M>>
  {
    if outs == [] then [] else Collected(outs[..|outs| - 1]) + Tag(|outs| - 1, outs[|outs| - 1])
  }

  /** Whether the entry `e` must be pushed onto the in-queue of node `r`. */
  predicate AddressedTo<M>(e: Inbound<M>, r: nat)
  {
    match e.msg.target
    case Node(n) => r == n
    case All => r < NodeCount && r != e.sender
  }

  /** The entries of `pending` that node `r` receives, in the order it receives them. */
  function Deliveries<M>(pending: seq<Inbound<M>>, r: nat): seq<Inbound<M>>
  {
    if pending == [] then []
    else
      var last := pending[|pending| - 1];
      Deliveries(pending[..|pending| - 1], r) + (if AddressedTo(last, r) then [last] else [])
  }

  /**
   * The ids `0 .. n - 1` other than `sender`, ascending: the recipients of
   * a broadcast, `(0..NODE_COUNT).filter(|&id| id != src)`.
   */
  function OthersBelow(n: nat, sender: nat): (ids: seq<nat>)
    ensures forall id: nat :: id in ids <==> id < n && id != sender
    ensures |ids| == if sender < n then n - 1 else n
    ensures forall i, j :: 0 <= i < j < |ids| ==> ids[i] < ids[j]
  {
    if n == 0 then []
    else
      var rest := OthersBelow(n - 1, sender);
      assert forall i :: 0 <= i < |rest| ==> rest[i] < n - 1 by {
        forall i | 0 <= i < |rest| ensures rest[i] < n - 1 {
          assert rest[i] in rest;
        }
      }
      rest + (if n - 1 == sender then [] else [n - 1])
  }

  /** The node ids an entry is pushed to, in push order. */
  function Recipients<M>(e: Inbound<M>): seq<nat>
  {
    match e.msg.target
    case Node(n) => [n]
    case All => OthersBelow(NodeCount, e.sender)
  }

  /** The number of pushes `pending` causes in all: the sum of its fan-outs. */
  function FanOut<M>(pending: seq<Inbound<M>>): nat
  {
    if pending == [] then 0 else FanOut(pending[..|pending| - 1]) + |Recipients(pending[|pending| - 1])|
  }

  /** The number of nodes below `n` that `e` is addressed to. */
  function CountAddressed<M>(e: Inbound<M>, n: nat): nat
  {
    if n == 0 then 0 else CountAddressed(e, n - 1) + (if AddressedTo(e, n - 1) then 1 else 0)
  }

  /** How much the in-queues of nodes `0 .. n - 1` grow together. */
  function SumDeliveries<M>(pending: seq<Inbound<M>>, n: nat): nat
  {
    if n == 0 then 0 else SumDeliveries(pending, n - 1) + |Deliveries(pending, n - 1)|
  }

  /** Every entry's target is a node of the network or a broadcast. */
  predicate PendingTargetsValid<M>(pending: seq<Inbound<M>>)
  {
    forall k :: 0 <= k < |pending| ==> TargetBelow(pending[k].msg.target, NodeCount)
  }

  // ---------------------------------------------------------------------
  // Addressing

  /** The recipient list and the addressing predicate agree. */
  lemma RecipientsAreAddressed<M>(e: Inbound<M>, r: nat)
    ensures r in Recipients(e) <==> AddressedTo(e, r)
  {
  }

  // ---------------------------------------------------------------------
  // Membership: sender tags and targets

  lemma {:induction false} CollectedMembership<M>(outs: seq<seq<TargetedMessage<M>>>, e: Inbound<M>)
    ensures e in Collected(outs) <==> e.sender < |outs| && e.msg in outs[e.sender]
  {
    if outs != [] {
      var n := |outs| - 1;
      var front, tail := outs[..n], Tag(n, outs[n]);
      CollectedMembership(front, e);
      assert Collected(outs) == Collected(front) + tail;
      if e.sender < n {
        assert front[e.sender] == outs[e.sender];
      }
      if e in tail {
        var k :| 0 <= k < |tail| && tail[k] == e;
        assert e.msg == outs[n][k];
      }
      if e.sender == n && e.msg in outs[n] {
        var k :| 0 <= k < |outs[n]| && outs[n][k] == e.msg;
        assert tail[k] == e;
      }
    }
  }

  lemma {:induction false} DeliveriesMembership<M>(pending: seq<Inbound<M>>, r: nat, e: Inbound<M>)
    ensures e in Deliveries(pending, r) <==> e in pending && AddressedTo(e, r)
  {
    if pending != [] {
      var front := pending[..|pending| - 1];
      DeliveriesMembership(front, r, e);
      assert pending == front + [pending[|pending| - 1]];
    }
  }

  /**
   * Node `r` receives the entry `e` exactly when `e` carries the id of the
   * node whose out-queue held its message and that message is addressed to `r`.
   */
  lemma RoutedIff<M>(outs: seq<seq<TargetedMessage<M>>>, r: nat, e: Inbound<M>)
    ensures e in Deliveries(Collected(outs), r) <==>
      e.sender < |outs| && e.msg in outs[e.sender] && AddressedTo(e, r)
  {
    DeliveriesMembership(Collected(outs), r, e);
    CollectedMembership(outs, e);
  }

  /** A unicast message from node `s` reaches node `n`, tagged `s`, and no other node. */
  lemma UnicastDelivery<M>(outs: seq<seq<TargetedMessage<M>>>, s: nat, k: nat, r: nat)
    requires s < |outs| && k < |outs[s]| && outs[s][k].target.Node?
    ensures Inbound(s, outs[s][k]) in Deliveries(Collected(outs), r) <==> r == outs[s][k].target.uid
  {
    RoutedIff(outs, r, Inbound(s, outs[s][k]));
  }

  /** A broadcast from node `s` reaches, tagged `s`, every node of the network except `s`. */
  lemma BroadcastDelivery<M>(outs: seq<seq<TargetedMessage<M>>>, s: nat, k: nat, r: nat)
    requires s < |outs| && k < |outs[s]| && outs[s][k].target.All?
    ensures Inbound(s, outs[s][k]) in Deliveries(Collected(outs), r) <==> r < NodeCount && r != s
  {
    RoutedIff(outs, r, Inbound(s, outs[s][k]));
  }

  // ---------------------------------------------------------------------
  // Order

  /** Delivering a concatenation delivers the two parts one after the other. */
  lemma {:induction false} DeliveriesAppend<M>(a: seq<Inbound<M>>, b: seq<Inbound<M>>, r: nat)
    ensures Deliveries(a + b, r) == Deliveries(a, r) + Deliveries(b, r)
  {
    if b == [] {
      assert a + b == a;
    } else {
      var front := b[..|b| - 1];
      assert (a + b)[..|a + b| - 1] == a + front;
      DeliveriesAppend(a, front, r);
    }
  }

  /** What node `r` receives from an entry addressed to it follows what it received from the entries before. */
  lemma DeliveredAt<M>(pending: seq<Inbound<M>>, r: nat, i: nat)
    requires i < |pending| && AddressedTo(pending[i], r)
    ensures Deliveries(pending[..i + 1], r) == Deliveries(pending[..i], r) + [pending[i]]
    ensures Deliveries(pending[..i + 1], r) <= Deliveries(pending, r)
  {
    assert pending[..i + 1][..i] == pending[..i];
    DeliveriesAppend(pending[..i + 1], pending[i + 1..], r);
    assert pending[..i + 1] + pending[i + 1..] == pending;
  }

  /**
   * Two entries addressed to `r` reach it in the order they stand in
   * `pending`, at the positions given by what precedes them.
   */
  lemma DeliveryOrder<M>(pending: seq<Inbound<M>>, r: nat, i: nat, j: nat)
    requires i < j < |pending|
    requires AddressedTo(pending[i], r) && AddressedTo(pending[j], r)
    ensures
      var d := Deliveries(pending, r);
      var a, b := |Deliveries(pending[..i], r)|, |Deliveries(pending[..j], r)|;
      a < b < |d| && d[a] == pending[i] && d[b] == pending[j]
  {
    DeliveredAt(pending, r, i);
    DeliveredAt(pending, r, j);
    var p := pending[..j];
    assert p[..i + 1] == pending[..i + 1];
    DeliveriesAppend(p[..i + 1], p[i + 1..], r);
    assert p[..i + 1] + p[i + 1..] == p;
  }

  /** Collecting a prefix of the out-queues yields a prefix of the round's messages. */
  lemma {:induction false} CollectedPrefix<M>(outs: seq<seq<TargetedMessage<M>>>, j: nat)
    requires j <= |outs|
    ensures Collected(outs[..j]) <= Collected(outs)
  {
    if j == |outs| {
      assert outs[..j] == outs;
    } else {
      var front := outs[..|outs| - 1];
      assert front[..j] == outs[..j];
      CollectedPrefix(front, j);
    }
  }

  /** Message `k` of node `s` stands in the round's messages right after everything nodes `0 .. s - 1` sent and its own first `k`. */
  lemma CollectedAt<M>(outs: seq<seq<TargetedMessage<M>>>, s: nat, k: nat)
    requires s < |outs| && k < |outs[s]|
    ensures |Collected(outs[..s])| + |outs[s]| <= |Collected(outs)|
    ensures Collected(outs)[|Collected(outs[..s])| + k] == Inbound(s, outs[s][k])
  {
    CollectedPrefix(outs, s + 1);
    assert outs[..s + 1][..s] == outs[..s];
  }

  /** Node `s1`'s message `k1` is collected before node `s2`'s message `k2` when it was queued earlier. */
  lemma CollectedBefore<M>(outs: seq<seq<TargetedMessage<M>>>, s1: nat, k1: nat, s2: nat, k2: nat)
    requires s1 < |outs| && k1 < |outs[s1]| && s2 < |outs| && k2 < |outs[s2]|
    requires s1 < s2 || (s1 == s2 && k1 < k2)
    ensures |Collected(outs[..s1])| + k1 < |Collected(outs[..s2])| + k2 < |Collected(outs)|
  {
    CollectedAt(outs, s2, k2);
    if s1 < s2 {
      var p := outs[..s2];
      CollectedPrefix(p, s1 + 1);
      assert p[..s1 + 1] == outs[..s1 + 1];
      assert outs[..s1 + 1][..s1] == outs[..s1];
    }
  }

  /**
   * FIFO: if message `k1` of node `s1` was collected before message `k2` of
   * node `s2` (an earlier node, or the same node's earlier message) and both
   * are addressed to `r`, node `r` receives the first before the second,
   * each at the position given by how many of the round's earlier messages
   * were addressed to `r`.
   */
  lemma FifoDelivery<M>(outs: seq<seq<TargetedMessage<M>>>, r: nat, s1: nat, k1: nat, s2: nat, k2: nat)
    requires s1 < |outs| && k1 < |outs[s1]| && s2 < |outs| && k2 < |outs[s2]|
    requires s1 < s2 || (s1 == s2 && k1 < k2)
    requires AddressedTo(Inbound(s1, outs[s1][k1]), r) && AddressedTo(Inbound(s2, outs[s2][k2]), r)
    ensures
      var pending := Collected(outs);
      var d := Deliveries(pending, r);
      var i, j := |Collected(outs[..s1])| + k1, |Collected(outs[..s2])| + k2;
      i < j < |pending| &&
      var a, b := |Deliveries(pending[..i], r)|, |Deliveries(pending[..j], r)|;
      a < b < |d| && d[a] == Inbound(s1, outs[s1][k1]) && d[b] == Inbound(s2, outs[s2][k2])
  {
    var pending := Collected(outs);
    var i, j := |Collected(outs[..s1])| + k1, |Collected(outs[..s2])| + k2;
    CollectedBefore(outs, s1, k1, s2, k2);
    CollectedAt(outs, s1, k1);
    CollectedAt(outs, s2, k2);
    DeliveryOrder(pending, r, i, j);
  }

  // ---------------------------------------------------------------------
  // Counting

  lemma {:induction false} CountAddressedRecipients<M>(e: Inbound<M>, n: nat)
    requires n <= NodeCount
    ensures e.msg.target.Node? ==> CountAddressed(e, n) == if e.msg.target.uid < n then 1 else 0
    ensures e.msg.target.All? ==> CountAddressed(e, n) == |OthersBelow(n, e.sender)|
  {
    if n > 0 {
      CountAddressedRecipients(e, n - 1);
    }
  }

  /** Nothing pending, no node's in-queue grows. */
  lemma {:induction false} SumDeliveriesNone<M>(pending: seq<Inbound<M>>, n: nat)
    requires pending == []
    ensures SumDeliveries(pending, n) == 0
  {
    if n > 0 {
      SumDeliveriesNone(pending, n - 1);
    }
  }

  lemma {:induction false} SumDeliveriesSnoc<M>(pending: seq<Inbound<M>>, e: Inbound<M>, n: nat)
    ensures SumDeliveries(pending + [e], n) == SumDeliveries(pending, n) + CountAddressed(e, n)
  {
    if n > 0 {
      SumDeliveriesSnoc(pending, e, n - 1);
      assert (pending + [e])[..|pending|] == pending;
    }
  }

  /**
   * The in-queues of the network grow, all together, by exactly the total
   * fan-out of the round's messages: one push per unicast, `NodeCount - 1`
   * per broadcast.
   */
  lemma {:induction false} TotalDeliveries<M>(pending: seq<Inbound<M>>)
    requires PendingTargetsValid(pending)
    ensures SumDeliveries(pending, NodeCount) == FanOut(pending)
  {
    if pending == [] {
      SumDeliveriesNone(pending, NodeCount);
    } else {
      var front, e := pending[..|pending| - 1], pending[|pending| - 1];
      assert pending == front + [e];
      assert PendingTargetsValid(front) by {
        forall k | 0 <= k < |front| ensures front[k] == pending[k] { }
      }
      TotalDeliveries(front);
      SumDeliveriesSnoc(front, e, NodeCount);
      CountAddressedRecipients(e, NodeCount);
      assert e.msg.target.Node? ==> e.msg.target.uid < NodeCount by {
        assert e == pending[|pending| - 1];
      }
    }
  }

  /** One broadcast from a node of the network causes exactly `NodeCount - 1` pushes in all. */
  lemma BroadcastDeliveryCount<M>(s: nat, m: M)
    requires s < NodeCount
    ensures SumDeliveries([Inbound(s, TargetedMessage(All, m))], NodeCount) == NodeCount - 1
  {
    var pending := [Inbound(s, TargetedMessage(All, m))];
    TotalDeliveries(pending);
    assert pending[..0] == [];
  }
}
