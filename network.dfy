/**
 * The simulated network: the array of test nodes indexed by node id, the
 * forwarding step that routes every out-queue into the in-queues
 * (src/main.rs:79-106), and the driver of `main` that builds the nodes,
 * runs epochs until enough batches exist and checks that all nodes agree
 * (src/main.rs:109-202).
 */
module Network {
  import opened Params
  import opened Messaging
  import opened Consensus
  import opened TestNodes
  import opened Routing
  import opened Epochs

  ghost function Nodes<M, B>(nodes: array<TestNode<M, B>>): set<TestNode<M, B>>
    reads nodes
  {
    set i | 0 <= i < nodes.Length :: nodes[i]
  }

  ghost function Engines<M, B>(nodes: array<TestNode<M, B>>): set<Engine<M, B>>
    reads nodes
  {
    set i | 0 <= i < nodes.Length :: nodes[i].hb
  }

  /**
   * `NodeCount` nodes, node `i` at index `i` with id `i`, and no node and
   * no engine shared between two ids. Only constants are read, so updating a queue
   * never disturbs it.
   */
  ghost predicate WellIndexed<M, B>(nodes: array<TestNode<M, B>>)
    reads nodes
  {
    && nodes.Length == NodeCount
    && (forall i :: 0 <= i < nodes.Length ==> nodes[i].uid == i)
    && (forall i, j :: 0 <= i < nodes.Length && 0 <= j < nodes.Length && i != j ==>
          nodes[i] != nodes[j] && nodes[i].hb != nodes[j].hb)
  }

  /** The network's invariant: `WellIndexed` and every node's own invariant. */
  ghost predicate Valid<M, B>(nodes: array<TestNode<M, B>>)
    reads nodes, Nodes(nodes), Engines(nodes)
  {
    WellIndexed(nodes) && forall i :: 0 <= i < nodes.Length ==> nodes[i].Valid()
  }

  /** Every node's out-queue, by node id. */
  ghost function OutQueues<M, B>(nodes: array<TestNode<M, B>>): seq<seq<TargetedMessage<M>>>
    reads nodes, Nodes(nodes)
  {
    seq(nodes.Length, i requires 0 <= i < nodes.Length reads nodes, Nodes(nodes) => nodes[i].peerOutQueue)
  }

  /** Every node's batch queue, by node id. */
  ghost function BatchQueues<M, B>(nodes: array<TestNode<M, B>>): seq<seq<B>>
    reads nodes, Nodes(nodes)
  {
    seq(nodes.Length, i requires 0 <= i < nodes.Length reads nodes, Nodes(nodes) => nodes[i].batchOutQueue)
  }

  /** Every node's queues and engine state, by node id. */
  ghost function Snapshot<M, B>(nodes: array<TestNode<M, B>>): seq<NodeState<M, B>>
    reads nodes, Nodes(nodes), Engines(nodes)
  {
    seq(nodes.Length, i requires 0 <= i < nodes.Length reads nodes, Nodes(nodes), Engines(nodes) => nodes[i].State())
  }

  /** The nodes of a fresh network, node `i` running `engines[i]`, all queues empty (src/main.rs:118-146). */
  method BuildNodes<M, B>(engines: seq<Engine<M, B>>) returns (nodes: array<TestNode<M, B>>)
    requires |engines| == NodeCount
    requires forall i :: 0 <= i < |engines| ==> engines[i].Valid()
    requires forall i, j :: 0 <= i < j < |engines| ==> engines[i] != engines[j]
    ensures fresh(nodes) && Valid(nodes)
    ensures forall i :: 0 <= i < nodes.Length ==>
      && fresh(nodes[i]) && nodes[i].hb == engines[i]
      && nodes[i].peerInQueue == [] && nodes[i].peerOutQueue == [] && nodes[i].batchOutQueue == []
  {
    var built: seq<TestNode<M, B>> := [];
    for id := 0 to NodeCount
      invariant |built| == id
      invariant forall i :: 0 <= i < id ==>
        && fresh(built[i]) && built[i].uid == i && built[i].hb == engines[i] && built[i].Valid()
        && built[i].peerInQueue == [] && built[i].peerOutQueue == [] && built[i].batchOutQueue == []
      invariant forall i, j :: 0 <= i < j < id ==> built[i] != built[j]
    {
      var node := new TestNode(id, engines[id]);
      built := built + [node];
    }
    nodes := new TestNode<M, B>[NodeCount](i requires 0 <= i < NodeCount => built[i]);
  }

  /** Every entry of the round's messages names an existing node when unicast. */
  lemma CollectedTargetsValid<M>(outs: seq<seq<TargetedMessage<M>>>)
    requires forall s :: 0 <= s < |outs| ==> TargetsBelow(outs[s], NodeCount)
    ensures PendingTargetsValid(Collected(outs))
  {
    var pending := Collected(outs);
    forall k | 0 <= k < |pending| && pending[k].msg.target.Node?
      ensures pending[k].msg.target.uid < NodeCount
    {
      CollectedMembership(outs, pending[k]);
      var s := pending[k].sender;
      var m :| 0 <= m < |outs[s]| && outs[s][m] == pending[k].msg;
    }
  }

  /** Drain the out-queues node by node, tagging each message with its sender (src/main.rs:83-87). */
  method CollectOutgoing<M, B>(nodes: array<TestNode<M, B>>) returns (pending: seq<Inbound<M>>)
    requires Valid(nodes)
    modifies Nodes(nodes)
    ensures Valid(nodes)
    ensures pending == Collected(old(OutQueues(nodes))) && PendingTargetsValid(pending)
    ensures forall i :: 0 <= i < nodes.Length ==>
      && nodes[i].peerOutQueue == []
      && nodes[i].peerInQueue == old(nodes[i].peerInQueue)
      && nodes[i].batchOutQueue == old(nodes[i].batchOutQueue)
  {
    ghost var outs := OutQueues(nodes);
    pending := [];
    for i := 0 to nodes.Length
      invariant WellIndexed(nodes)
      invariant forall j :: 0 <= j < nodes.Length ==> nodes[j].hb.Valid()
      invariant pending == Collected(outs[..i])
      invariant forall j :: 0 <= j < nodes.Length ==>
        && nodes[j].peerInQueue == old(nodes[j].peerInQueue)
        && nodes[j].batchOutQueue == old(nodes[j].batchOutQueue)
        && nodes[j].peerOutQueue == (if j < i then [] else outs[j])
    {
      var node := nodes[i];
      pending := pending + Tag(node.uid, node.peerOutQueue);
      node.peerOutQueue := [];
      assert outs[..i + 1][..i] == outs[..i];
    }
    assert outs[..nodes.Length] == outs;
    CollectedTargetsValid(outs);
  }

  /**
   * Push one collected entry onto the in-queue of each node it is
   * addressed to: its unicast target, or every id but the sender's
   * (src/main.rs:91-102).
   */
  method Deliver<M, B>(nodes: array<TestNode<M, B>>, entry: Inbound<M>)
    requires Valid(nodes)
    requires TargetBelow(entry.msg.target, NodeCount)
    modifies Nodes(nodes)
    ensures Valid(nodes)
    ensures forall i :: 0 <= i < nodes.Length ==>
      && nodes[i].peerInQueue == old(nodes[i].peerInQueue) + (if AddressedTo(entry, i) then [entry] else [])
      && nodes[i].peerOutQueue == old(nodes[i].peerOutQueue)
      && nodes[i].batchOutQueue == old(nodes[i].batchOutQueue)
  {
    match entry.msg.target
    case Node(n) =>
      nodes[n].peerInQueue := nodes[n].peerInQueue + [entry];
    case All =>
      for n := 0 to NodeCount
        invariant Valid(nodes)
        invariant forall j :: 0 <= j < nodes.Length ==>
          && nodes[j].peerInQueue == old(nodes[j].peerInQueue) + (if j < n && AddressedTo(entry, j) then [entry] else [])
          && nodes[j].peerOutQueue == old(nodes[j].peerOutQueue)
          && nodes[j].batchOutQueue == old(nodes[j].batchOutQueue)
      {
        if n != entry.sender {
          nodes[n].peerInQueue := nodes[n].peerInQueue + [Inbound(entry.sender, entry.msg)];
        }
      }
  }

  /** Queue updates of a forwarding round, seen on the snapshots. */
  twostate lemma ForwardedSnapshot<M, B>(nodes: array<TestNode<M, B>>)
    requires unchanged(nodes)
    requires forall i :: 0 <= i < nodes.Length ==>
      && nodes[i].peerOutQueue == []
      && nodes[i].batchOutQueue == old(nodes[i].batchOutQueue)
      && nodes[i].peerInQueue == old(nodes[i].peerInQueue) + Deliveries(Collected(old(OutQueues(nodes))), i)
      && nodes[i].hb.handled == old(nodes[i].hb.handled)
      && nodes[i].hb.pendingMessages == old(nodes[i].hb.pendingMessages)
      && nodes[i].hb.pendingBatches == old(nodes[i].hb.pendingBatches)
    ensures Snapshot(nodes) == Forwarded(old(Snapshot(nodes)))
  {
    assert OutQueuesOf(old(Snapshot(nodes))) == old(OutQueues(nodes));
    forall i | 0 <= i < nodes.Length
      ensures Snapshot(nodes)[i] == Forwarded(old(Snapshot(nodes)))[i]
    {
      assert old(Snapshot(nodes))[i] == old(nodes[i].State());
    }
  }

  /**
   * The delivery loop of `forward_outgoing_messages`: every pending entry,
   * in order, lands on the in-queue of each node it is addressed to.
   */
  method DeliverAll<M, B>(nodes: array<TestNode<M, B>>, pending: seq<Inbound<M>>)
    requires Valid(nodes) && PendingTargetsValid(pending)
    modifies Nodes(nodes)
    ensures Valid(nodes)
    ensures forall i :: 0 <= i < nodes.Length ==>
      && nodes[i].peerOutQueue == old(nodes[i].peerOutQueue)
      && nodes[i].batchOutQueue == old(nodes[i].batchOutQueue)
      && nodes[i].peerInQueue == old(nodes[i].peerInQueue) + Deliveries(pending, i)
  {
    for k := 0 to |pending|
      invariant WellIndexed(nodes)
      invariant forall j :: 0 <= j < nodes.Length ==> nodes[j].hb.Valid()
      invariant forall j :: 0 <= j < nodes.Length ==>
        && nodes[j].peerOutQueue == old(nodes[j].peerOutQueue)
        && nodes[j].batchOutQueue == old(nodes[j].batchOutQueue)
        && nodes[j].peerInQueue == old(nodes[j].peerInQueue) + Deliveries(pending[..k], j)
    {
      assert pending[..k + 1][..k] == pending[..k];
      Deliver(nodes, pending[k]);
    }
    assert pending[..|pending|] == pending;
  }

  /**
   * Drain every out-queue, node by node, and push each message, tagged with
   * its sender, onto the in-queue of every node it is addressed to. Batch
   * queues and engines are untouched; the result is always `Ok`.
   */
  method ForwardOutgoingMessages<M, B>(nodes: array<TestNode<M, B>>) returns (r: Status)
    requires Valid(nodes)
    modifies Nodes(nodes)
    ensures Valid(nodes) && r == Ok
    ensures forall i :: 0 <= i < nodes.Length ==>
      && nodes[i].peerOutQueue == []
      && nodes[i].batchOutQueue == old(nodes[i].batchOutQueue)
      && nodes[i].peerInQueue == old(nodes[i].peerInQueue) + Deliveries(Collected(old(OutQueues(nodes))), i)
  {
    var pending := CollectOutgoing(nodes);
    DeliverAll(nodes, pending);
    r := Ok;
  }

  // ---------------------------------------------------------------------
  // Driving epochs

  /**
   * The node-local half of a turn (src/main.rs:175-183): node `idx` handles
   * its next message and moves its engine's output to its queues; no other
   * node changes.
   */
  method HandleAndEnqueue<M, B>(nodes: array<TestNode<M, B>>, idx: nat, ghost before: seq<NodeState<M, B>>)
    requires Valid(nodes) && idx < nodes.Length && Snapshot(nodes) == before
    modifies Nodes(nodes), Engines(nodes)
    ensures Valid(nodes)
    ensures Snapshot(nodes) == before[idx := Enqueue(HandleNext(before[idx]))]
  {
    var node := nodes[idx];
    var status := node.HandleNextMessage();
    ghost var s1 := before[idx := HandleNext(before[idx])];
    forall j | 0 <= j < nodes.Length && j != idx
      ensures nodes[j].State() == s1[j]
    {
      assert nodes[j] != node && nodes[j].hb != node.hb;
    }
    assert Snapshot(nodes) == s1;
    node.EnqueueOutputs();
    ghost var s2 := s1[idx := Enqueue(s1[idx])];
    forall j | 0 <= j < nodes.Length && j != idx
      ensures nodes[j].State() == s2[j]
    {
      assert nodes[j] != node && nodes[j].hb != node.hb;
    }
    assert Snapshot(nodes) == s2;
  }

  /**
   * Node `idx`'s turn in a sweep: handle its next message (an empty
   * in-queue is ignored), move its engine's output to its queues, then
   * forward every node's out-queue (src/main.rs:175-184).
   */
  method StepNode<M, B>(nodes: array<TestNode<M, B>>, idx: nat)
    requires Valid(nodes) && idx < nodes.Length
    modifies Nodes(nodes), Engines(nodes)
    ensures Valid(nodes)
    ensures Snapshot(nodes) == AfterTurn(old(Snapshot(nodes)), idx)
  {
    HandleAndEnqueue(nodes, idx, Snapshot(nodes));
    label Staged:
    var status := ForwardOutgoingMessages(nodes);
    ForwardedSnapshot@Staged(nodes);
  }

  /**
   * One sweep of the inner loop of `main` (src/main.rs:174-189): every node
   * takes its turn in id order. The result tells whether some node, right
   * after its turn, held more than `epochsDone` batches.
   */
  method Sweep<M, B>(nodes: array<TestNode<M, B>>, epochsDone: nat, ghost before: seq<NodeState<M, B>>) returns (batchDone: bool)
    requires Valid(nodes) && Snapshot(nodes) == before
    modifies Nodes(nodes), Engines(nodes)
    ensures Valid(nodes)
    ensures Snapshot(nodes) == AfterSweep(before, |before|)
    ensures batchDone == BatchSeen(before, |before|, epochsDone)
  {
    batchDone := false;
    for nodeIdx := 0 to NodeCount
      invariant Valid(nodes)
      invariant Snapshot(nodes) == AfterSweep(before, nodeIdx)
      invariant batchDone == BatchSeen(before, nodeIdx, epochsDone)
    {
      StepNode(nodes, nodeIdx);
      assert Snapshot(nodes)[nodeIdx].batches == nodes[nodeIdx].batchOutQueue;
      if |nodes[nodeIdx].batchOutQueue| > epochsDone {
        batchDone := true;
      }
    }
  }

  /**
   * The inner loop of `main` (src/main.rs:173-190): sweep until a sweep
   * sees some node with more than `epochsDone` batches, at most `budget`
   * times. An empty in-queue does not stop it; only the budget does.
   * `left` is the budget not spent.
   */
  method AwaitBatch<M, B>(nodes: array<TestNode<M, B>>, epochsDone: nat, budget: nat, ghost before: seq<NodeState<M, B>>)
      returns (batchDone: bool, left: nat)
    requires Valid(nodes) && Snapshot(nodes) == before && epochsDone < EpochTtl
    modifies Nodes(nodes), Engines(nodes)
    ensures Valid(nodes)
    ensures left <= budget && (!batchDone ==> left == 0)
    ensures Run(before, epochsDone, budget) == Run(Snapshot(nodes), if batchDone then epochsDone + 1 else epochsDone, left)
  {
    ghost var cur := before;
    batchDone := false;
    left := budget;
    while !batchDone
      invariant Valid(nodes) && Snapshot(nodes) == cur
      invariant left <= budget
      invariant !batchDone ==> Run(before, epochsDone, budget) == Run(cur, epochsDone, left)
      invariant batchDone ==> Run(before, epochsDone, budget) == Run(cur, epochsDone + 1, left)
      decreases left, if batchDone then 0 else 1
    {
      if left == 0 {
        return;
      }
      var fuelNext := left - 1;
      RunAdvance(cur, epochsDone, left, Run(before, epochsDone, budget), fuelNext);
      batchDone := Sweep(nodes, epochsDone, cur);
      cur := AfterSweep(cur, |cur|);
      left := fuelNext;
    }
  }

  /**
   * The epoch loop of `main` (src/main.rs:168-195): until `EpochTtl` epochs
   * are done, sweep the nodes round-robin, each taking its turn, and count
   * an epoch as done after a sweep in which some node held more batches
   * than the epochs counted so far. `fuel` bounds the number of sweeps,
   * which the engines' liveness alone would bound in the source. The
   * method computes `Run`, and `sweeps` is the number of sweeps it made.
   */
  method RunEpochs<M, B>(nodes: array<TestNode<M, B>>, fuel: nat, ghost start: seq<NodeState<M, B>>)
      returns (outcome: RunOutcome, ghost sweeps: nat)
    requires Valid(nodes) && Snapshot(nodes) == start
    modifies Nodes(nodes), Engines(nodes)
    ensures Valid(nodes)
    ensures
      var t := Run(start, 0, fuel);
      Snapshot(nodes) == t.net && outcome == t.outcome && sweeps == fuel - t.fuelLeft
    ensures Snapshot(nodes) == Sweeps(start, sweeps)
    ensures BatchesGrow(start, Snapshot(nodes))
    ensures sweeps <= fuel
    ensures outcome.Completed? ==> outcome.epochsDone == EpochTtl
    ensures outcome.LivenessBudgetExceeded? ==> sweeps == fuel && outcome.epochsDone < EpochTtl
    ensures outcome.epochsDone > 0 ==> HoldsBatches(Snapshot(nodes), outcome.epochsDone)
  {
    ghost var total := Run(start, 0, fuel);
    RunBudget(start, 0, fuel);
    sweeps := RunSweeps(start, 0, fuel);
    RunBatches(start, 0, fuel);
    ghost var cur := start;
    var epochsDone: nat := 0;
    var budget: nat := fuel;
    var stalled := false;
    while epochsDone < EpochTtl && !stalled
      invariant Valid(nodes) && Snapshot(nodes) == cur
      invariant Run(cur, epochsDone, budget) == total
      invariant stalled ==> epochsDone < EpochTtl && budget == 0
      decreases EpochTtl - epochsDone, if stalled then 0 else 1
    {
      var batchDone, left := AwaitBatch(nodes, epochsDone, budget, cur);
      cur, epochsDone, budget := Snapshot(nodes), if batchDone then epochsDone + 1 else epochsDone, left;
      stalled := !batchDone;
    }
    RunEnds(cur, epochsDone, budget);
    outcome := if stalled then LivenessBudgetExceeded(epochsDone) else Completed(epochsDone);
  }


  // ---------------------------------------------------------------------
  // The closing agreement check

  /** Why the agreement check of `main` fails, at the first failing node and batch index. */
  datatype Verdict =
    | Agreed
      /** Indexing a batch queue past its end: the source panics. */
    | MissingBatch(node: nat, batch: nat)
      /** The `assert!` of the source fails: two batches at one index differ. */
    | Mismatch(node: nat, batch: nat)

  /** Node `i` holds at index `b` a batch, and it is node 0's batch at `b`. */
  ghost predicate AgreesAt<B>(queues: seq<seq<B>>, i: nat, b: nat)
    requires 0 < i < |queues|
  {
    b < |queues[i]| && b < |queues[0]| && queues[i][b] == queues[0][b]
  }

  /**
   * Every pair that the check visits before `(node, batch)`, nodes from 1
   * and batch indices below `ttl` in loop order, agrees with node 0.
   */
  ghost predicate AgreesBefore<B>(queues: seq<seq<B>>, ttl: nat, node: nat, batch: nat)
  {
    forall i, b :: 1 <= i < |queues| && 0 <= b < ttl && (i < node || (i == node && b < batch)) ==>
      AgreesAt(queues, i, b)
  }

  /** What the check of `main` demands: every node's first `ttl` batches are node 0's. */
  ghost predicate Agreement<B>(queues: seq<seq<B>>, ttl: nat)
  {
    AgreesBefore(queues, ttl, |queues|, 0)
  }

  /**
   * With two or more nodes, agreement with node 0 is agreement between any
   * two nodes: all queues hold at least `ttl` batches and coincide there.
   */
  lemma AgreementPairwise<B>(queues: seq<seq<B>>, ttl: nat)
    requires |queues| >= 2 && Agreement(queues, ttl)
    ensures forall i :: 0 <= i < |queues| ==> ttl <= |queues[i]|
    ensures forall i, j, b :: 0 <= i < |queues| && 0 <= j < |queues| && 0 <= b < ttl ==>
      queues[i][b] == queues[j][b]
  {
    forall i | 0 <= i < |queues| && ttl > 0
      ensures ttl <= |queues[i]|
    {
      assert AgreesAt(queues, 1, ttl - 1);
      assert i > 0 ==> AgreesAt(queues, i, ttl - 1);
    }
    forall i, j, b | 0 <= i < |queues| && 0 <= j < |queues| && 0 <= b < ttl
      ensures queues[i][b] == queues[j][b]
    {
      assert i > 0 ==> AgreesAt(queues, i, b);
      assert j > 0 ==> AgreesAt(queues, j, b);
    }
  }

  /**
   * The closing check of `main`: for each node from 1 and each batch index
   * below `epochTtl`, node's batch must equal node 0's batch. Reports the
   * first failure in loop order, and `Agreed` exactly when there is none.
   */
  method CheckAgreement<M, B(==)>(nodes: array<TestNode<M, B>>, epochTtl: nat) returns (v: Verdict)
    requires nodes.Length == NodeCount
    ensures v == Agreed <==> Agreement(BatchQueues(nodes), epochTtl)
    ensures !v.Agreed? ==>
      && 1 <= v.node < nodes.Length && v.batch < epochTtl
      && AgreesBefore(BatchQueues(nodes), epochTtl, v.node, v.batch)
    ensures v.MissingBatch? ==>
      v.batch >= |nodes[v.node].batchOutQueue| || v.batch >= |nodes[0].batchOutQueue|
    ensures v.Mismatch? ==>
      && v.batch < |nodes[v.node].batchOutQueue| && v.batch < |nodes[0].batchOutQueue|
      && nodes[v.node].batchOutQueue[v.batch] != nodes[0].batchOutQueue[v.batch]
  {
    ghost var queues := BatchQueues(nodes);
    for nodeIdx := 1 to NodeCount
      invariant AgreesBefore(queues, epochTtl, nodeIdx, 0)
    {
      for batchIdx := 0 to epochTtl
        invariant AgreesBefore(queues, epochTtl, nodeIdx, batchIdx)
      {
        var mine, first := nodes[nodeIdx].batchOutQueue, nodes[0].batchOutQueue;
        assert mine == queues[nodeIdx] && first == queues[0];
        if batchIdx >= |mine| || batchIdx >= |first| {
          assert !AgreesAt(queues, nodeIdx, batchIdx);
          return MissingBatch(nodeIdx, batchIdx);
        }
        if mine[batchIdx] != first[batchIdx] {
          assert !AgreesAt(queues, nodeIdx, batchIdx);
          return Mismatch(nodeIdx, batchIdx);
        }
      }
    }
    return Agreed;
  }

  // ---------------------------------------------------------------------
  // The whole run

  /** How the simulation of `main` ended. */
  datatype SimOutcome =
    | Finished(verdict: Verdict)
    | Stalled(epochsDone: nat)

  /** The staging loop of `main` (src/main.rs:148-151): every node, in id order, enqueues its outputs. */
  method StageOutputs<M, B>(nodes: array<TestNode<M, B>>, ghost before: seq<NodeState<M, B>>)
    requires Valid(nodes) && Snapshot(nodes) == before
    modifies Nodes(nodes), Engines(nodes)
    ensures Valid(nodes)
    ensures Snapshot(nodes) == EnqueuedAll(before)
  {
    for i := 0 to nodes.Length
      invariant Valid(nodes)
      invariant |Snapshot(nodes)| == |before|
      invariant forall j :: 0 <= j < |before| ==> Snapshot(nodes)[j] == if j < i then Enqueue(before[j]) else before[j]
    {
      ghost var pre := Snapshot(nodes);
      nodes[i].EnqueueOutputs();
      forall j | 0 <= j < nodes.Length && j != i
        ensures nodes[j].State() == pre[j]
      {
        assert nodes[j] != nodes[i] && nodes[j].hb != nodes[i].hb;
      }
    }
  }

  /**
   * The staging before the epoch loop (src/main.rs:148-153): every node
   * enqueues its outputs, then all out-queues are forwarded.
   */
  method Stage<M, B>(nodes: array<TestNode<M, B>>, ghost before: seq<NodeState<M, B>>)
    requires Valid(nodes) && Snapshot(nodes) == before
    modifies Nodes(nodes), Engines(nodes)
    ensures Valid(nodes)
    ensures Snapshot(nodes) == Staged(before)
  {
    StageOutputs(nodes, before);
    label Enqueued:
    var status := ForwardOutgoingMessages(nodes);
    ForwardedSnapshot@Enqueued(nodes);
  }

  /**
   * What `main` does once its epoch loop has ended (src/main.rs:172-202): a
   * stalled run never reaches the agreement check; a completed one ends in
   * its verdict.
   */
  method Judge<M, B(==)>(nodes: array<TestNode<M, B>>, run: RunOutcome) returns (outcome: SimOutcome)
    requires nodes.Length == NodeCount
    ensures outcome.Stalled? <==> run.LivenessBudgetExceeded?
    ensures outcome.Stalled? ==> outcome.epochsDone == run.epochsDone
    ensures outcome.Finished? ==> (outcome.verdict == Agreed <==> Agreement(BatchQueues(nodes), EpochTtl))
  {
    if run.LivenessBudgetExceeded? {
      outcome := Stalled(run.epochsDone);
    } else {
      var verdict := CheckAgreement(nodes, EpochTtl);
      outcome := Finished(verdict);
    }
  }

  /**
   * `main` after the nodes are built: stage every engine's initial output,
   * forward it, run the epoch loop, then check agreement on the first
   * `EpochTtl` batches (src/main.rs:148-202).
   */
  method Simulate<M, B(==)>(nodes: array<TestNode<M, B>>, fuel: nat, ghost before: seq<NodeState<M, B>>) returns (outcome: SimOutcome, ghost sweeps: nat)
    requires Valid(nodes) && Snapshot(nodes) == before
    modifies Nodes(nodes), Engines(nodes)
    ensures Valid(nodes)
    ensures
      var t := Run(Staged(before), 0, fuel);
      && Snapshot(nodes) == t.net && sweeps == fuel - t.fuelLeft
      && (outcome.Stalled? <==> t.outcome.LivenessBudgetExceeded?)
      && (outcome.Stalled? ==> outcome.epochsDone == t.outcome.epochsDone)
    ensures BatchesGrow(before, Snapshot(nodes))
    ensures sweeps <= fuel
    ensures outcome.Finished? ==> HoldsBatches(Snapshot(nodes), EpochTtl)
    ensures outcome.Finished? ==> (outcome.verdict == Agreed <==> Agreement(BatchQueues(nodes), EpochTtl))
    ensures outcome.Stalled? ==> sweeps == fuel && outcome.epochsDone < EpochTtl
    ensures outcome.Stalled? && outcome.epochsDone > 0 ==> HoldsBatches(Snapshot(nodes), outcome.epochsDone)
  {
    Stage(nodes, before);
    ghost var staged := Staged(before);
    StagedGrowsBatches(before);
    var run;
    run, sweeps := RunEpochs(nodes, fuel, staged);
    outcome := Judge(nodes, run);
    BatchesGrowTransitive(before, staged, Snapshot(nodes));
  }

}
