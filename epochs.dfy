/**
 * The epoch loop of `main` (src/main.rs:148-195) on values: a node's turn,
 * a round-robin sweep over all nodes, and the whole run under a budget of
 * sweeps. Proved about the run: it ends only when the epochs are done or
 * the budget is spent, the budget only cuts a run short (a stalled run
 * resumes where it stopped when given more), batch queues only grow, some
 * node holds a batch per epoch counted, and a network with nothing in
 * flight spins without ending, empty in-queues being mere ticks.
 */
module Epochs {
  import opened Params
  import opened Messaging
  import opened Consensus
  import opened TestNodes
  import opened Routing

  /** `epoch_ttl`: how many epochs the loop waits for (src/main.rs:168). */
  const EpochTtl: nat := TxnCount / BatchSize

  /** Every node's out-queue, by node id. */
  function OutQueuesOf<M, B>(net: seq<NodeState<M, B>>): seq<seq<TargetedMessage<M>>>
  {
    seq(|net|, i requires 0 <= i < |net| => net[i].outQueue)
  }

  /**
   * `forward_outgoing_messages` on values: every out-queue is drained and
   * node `i`'s in-queue grows by what it receives from the round.
   */
  function Forwarded<M, B>(net: seq<NodeState<M, B>>): seq<NodeState<M, B>>
  {
    var pending := Collected(OutQueuesOf(net));
    seq(|net|, i requires 0 <= i < |net| =>
      net[i].(outQueue := [], inQueue := net[i].inQueue + Deliveries(pending, i)))
  }

  /** Every node has enqueued its outputs. */
  function EnqueuedAll<M, B>(net: seq<NodeState<M, B>>): seq<NodeState<M, B>>
  {
    seq(|net|, i requires 0 <= i < |net| => Enqueue(net[i]))
  }

  /** The staging before the loop (src/main.rs:148-153): every node enqueues its outputs, then all are forwarded. */
  function Staged<M, B>(net: seq<NodeState<M, B>>): seq<NodeState<M, B>>
  {
    Forwarded(EnqueuedAll(net))
  }

  /**
   * Node `idx`'s turn in a sweep (src/main.rs:175-184): handle its next
   * message (nothing happens on an empty in-queue), enqueue its outputs,
   * forward everything.
   */
  function AfterTurn<M, B>(net: seq<NodeState<M, B>>, idx: nat): seq<NodeState<M, B>>
    requires idx < |net|
  {
    Forwarded(net[idx := Enqueue(HandleNext(net[idx]))])
  }

  /** The network after the turns of nodes `0 .. n - 1`, in id order. */
  function AfterSweep<M, B>(net: seq<NodeState<M, B>>, n: nat): (r: seq<NodeState<M, B>>)
    requires n <= |net|
    ensures |r| == |net|
    decreases n, 1
  {
    if n == 0 then net else NthTurn(net, n)
  }

  /** The network right after the `n`-th turn of a sweep from `net`. */
  function NthTurn<M, B>(net: seq<NodeState<M, B>>, n: nat): (r: seq<NodeState<M, B>>)
    requires 0 < n <= |net|
    ensures |r| == |net|
    decreases n, 0
  {
    AfterTurn(AfterSweep(net, n - 1), n - 1)
  }

  /** Whether some node among `0 .. n - 1` held more than `epochsDone` batches right after its turn. */
  predicate BatchSeen<M, B>(net: seq<NodeState<M, B>>, n: nat, epochsDone: nat)
    requires n <= |net|
  {
    n > 0 && (BatchSeen(net, n - 1, epochsDone) || |AfterSweep(net, n)[n - 1].batches| > epochsDone)
  }

  /** `k` full sweeps in a row. */
  function Sweeps<M, B>(net: seq<NodeState<M, B>>, k: nat): (r: seq<NodeState<M, B>>)
    ensures |r| == |net|
    decreases k
  {
    if k == 0 then net else Sweeps(AfterSweep(net, |net|), k - 1)
  }

  /** How a run of the epoch loop ended. */
  datatype RunOutcome =
    | Completed(epochsDone: nat)
      /** The budget of sweeps was spent before `EpochTtl` epochs were done. */
    | LivenessBudgetExceeded(epochsDone: nat)

  /** Where a run ends: the final network, the outcome, and the budget left unspent. */
  datatype Trace<!M, B> = Trace(net: seq<NodeState<M, B>>, outcome: RunOutcome, fuelLeft: nat)

  /**
   * The loop of src/main.rs:170-195 from `epochsDone` on, with at most
   * `fuel` sweeps: a sweep in which some node holds more than `epochsDone`
   * batches after its turn completes an epoch; any other sweep leaves the
   * count as it is.
   */
  function Run<M, B>(net: seq<NodeState<M, B>>, epochsDone: nat, fuel: nat): (t: Trace<M, B>)
    ensures |t.net| == |net|
    decreases fuel
  {
    if epochsDone >= EpochTtl then Trace(net, Completed(epochsDone), fuel)
    else if fuel == 0 then Trace(net, LivenessBudgetExceeded(epochsDone), 0)
    else
      var seen := BatchSeen(net, |net|, epochsDone);
      Run(AfterSweep(net, |net|), if seen then epochsDone + 1 else epochsDone, fuel - 1)
  }

  // ---------------------------------------------------------------------
  // How a run ends

  /** A run with epochs left and budget left is one sweep followed by the rest of the run. */
  lemma RunStep<M, B>(net: seq<NodeState<M, B>>, epochsDone: nat, fuel: nat)
    requires epochsDone < EpochTtl && fuel > 0
    ensures
      var seen := BatchSeen(net, |net|, epochsDone);
      Run(net, epochsDone, fuel)
        == Run(AfterSweep(net, |net|), if seen then epochsDone + 1 else epochsDone, fuel - 1)
  {
  }

  /** A run with no epochs left completes at once; one with epochs left and no budget left stalls at once. */
  lemma RunEnds<M, B>(net: seq<NodeState<M, B>>, epochsDone: nat, fuel: nat)
    ensures epochsDone >= EpochTtl ==> Run(net, epochsDone, fuel) == Trace(net, Completed(epochsDone), fuel)
    ensures epochsDone < EpochTtl && fuel == 0 ==>
      Run(net, epochsDone, fuel) == Trace(net, LivenessBudgetExceeded(epochsDone), 0)
  {
  }

  /**
   * The rest of a run after one more sweep, which counts an epoch exactly
   * when it sees a batch past `epochsDone`.
   */
  lemma RunAdvance<M, B>(net: seq<NodeState<M, B>>, epochsDone: nat, fuel: nat, rest: Trace<M, B>, fuelNext: nat)
    requires epochsDone < EpochTtl && fuel == fuelNext + 1 && Run(net, epochsDone, fuel) == rest
    ensures BatchSeen(net, |net|, epochsDone) ==> Run(AfterSweep(net, |net|), epochsDone + 1, fuelNext) == rest
    ensures !BatchSeen(net, |net|, epochsDone) ==> Run(AfterSweep(net, |net|), epochsDone, fuelNext) == rest
  {
    RunStep(net, epochsDone, fuel);
  }

  /**
   * A run ends only in two ways: `EpochTtl` epochs done, or the whole
   * budget spent with fewer epochs done. The epoch count never decreases.
   */
  lemma {:induction false} RunBudget<M, B>(net: seq<NodeState<M, B>>, epochsDone: nat, fuel: nat)
    requires epochsDone <= EpochTtl
    ensures
      var t := Run(net, epochsDone, fuel);
      && t.fuelLeft <= fuel
      && epochsDone <= t.outcome.epochsDone <= EpochTtl
      && (t.outcome.Completed? ==> t.outcome.epochsDone == EpochTtl)
      && (t.outcome.LivenessBudgetExceeded? ==> t.fuelLeft == 0 && t.outcome.epochsDone < EpochTtl)
    decreases fuel
  {
    if epochsDone < EpochTtl && fuel > 0 {
      var seen := BatchSeen(net, |net|, epochsDone);
      RunBudget(AfterSweep(net, |net|), if seen then epochsDone + 1 else epochsDone, fuel - 1);
    }
  }

  /** A run makes `fuel - fuelLeft` sweeps, and its final network is where that many full sweeps lead. */
  lemma {:induction false} RunSweeps<M, B>(net: seq<NodeState<M, B>>, epochsDone: nat, fuel: nat) returns (sweeps: nat)
    ensures
      var t := Run(net, epochsDone, fuel);
      sweeps == fuel - t.fuelLeft && t.net == Sweeps(net, sweeps)
    decreases fuel
  {
    if epochsDone < EpochTtl && fuel > 0 {
      var seen := BatchSeen(net, |net|, epochsDone);
      var rest := RunSweeps(AfterSweep(net, |net|), if seen then epochsDone + 1 else epochsDone, fuel - 1);
      sweeps := rest + 1;
    } else {
      sweeps := 0;
    }
  }

  /**
   * The budget only cuts a run short: with `extra` more sweeps, a completed
   * run is the same run, and a stalled run goes on from the network and
   * epoch count at which it stopped.
   */
  lemma {:induction false} RunResume<M, B>(net: seq<NodeState<M, B>>, epochsDone: nat, fuel: nat, extra: nat)
    ensures
      var t := Run(net, epochsDone, fuel);
      && (t.outcome.Completed? ==>
            Run(net, epochsDone, fuel + extra) == t.(fuelLeft := t.fuelLeft + extra))
      && (t.outcome.LivenessBudgetExceeded? ==>
            Run(net, epochsDone, fuel + extra) == Run(t.net, t.outcome.epochsDone, extra))
    decreases fuel
  {
    if epochsDone < EpochTtl && fuel > 0 {
      var seen := BatchSeen(net, |net|, epochsDone);
      RunResume(AfterSweep(net, |net|), if seen then epochsDone + 1 else epochsDone, fuel - 1, extra);
    }
  }

  // ---------------------------------------------------------------------
  // Batches

  /** Node `i`'s batch queue in `net` is a prefix of its batch queue in `net'`. */
  ghost predicate BatchesGrow<M, B>(net: seq<NodeState<M, B>>, net': seq<NodeState<M, B>>)
  {
    |net| == |net'| && forall i :: 0 <= i < |net| ==> net[i].batches <= net'[i].batches
  }

  /** Some node holds at least `k` batches. */
  ghost predicate HoldsBatches<M, B>(net: seq<NodeState<M, B>>, k: nat)
  {
    exists w :: 0 <= w < |net| && |net[w].batches| >= k
  }

  /** Growing batch queues twice is growing them once. */
  lemma BatchesGrowTransitive<M, B>(net: seq<NodeState<M, B>>, net': seq<NodeState<M, B>>, net'': seq<NodeState<M, B>>)
    requires BatchesGrow(net, net') && BatchesGrow(net', net'')
    ensures BatchesGrow(net, net'')
  {
    forall i | 0 <= i < |net|
      ensures net[i].batches <= net''[i].batches
    {
      assert net[i].batches <= net'[i].batches <= net''[i].batches;
    }
  }

  /** Staging only appends to batch queues. */
  lemma StagedGrowsBatches<M, B>(net: seq<NodeState<M, B>>)
    ensures BatchesGrow(net, Staged(net))
  {
    var enqueued := EnqueuedAll(net);
    assert forall i :: 0 <= i < |net| ==> net[i].batches <= enqueued[i].batches;
  }

  /** A node's turn only appends to batch queues. */
  lemma TurnGrowsBatches<M, B>(net: seq<NodeState<M, B>>, idx: nat)
    requires idx < |net|
    ensures BatchesGrow(net, AfterTurn(net, idx))
  {
    var turned := net[idx := Enqueue(HandleNext(net[idx]))];
    assert HandleNext(net[idx]).batches == net[idx].batches;
    assert forall i :: 0 <= i < |net| ==> net[i].batches <= turned[i].batches;
  }

  /** The `n`-th turn of a sweep only grows batch queues. */
  lemma NthTurnGrowsBatches<M, B>(net: seq<NodeState<M, B>>, n: nat)
    requires 0 < n <= |net|
    ensures BatchesGrow(AfterSweep(net, n - 1), AfterSweep(net, n))
  {
    var before := AfterSweep(net, n - 1);
    TurnGrowsBatches(before, n - 1);
    assert AfterSweep(net, n) == NthTurn(net, n) == AfterTurn(before, n - 1);
  }

  /** Later in a sweep, batch queues hold at least what they held earlier. */
  lemma {:induction false} SweepGrowsBatches<M, B>(net: seq<NodeState<M, B>>, m: nat, n: nat)
    requires m <= n <= |net|
    ensures BatchesGrow(AfterSweep(net, m), AfterSweep(net, n))
  {
    if m < n {
      SweepGrowsBatches(net, m, n - 1);
      NthTurnGrowsBatches(net, n);
      BatchesGrowTransitive(AfterSweep(net, m), AfterSweep(net, n - 1), AfterSweep(net, n));
    }
  }

  /** A sweep that sees a batch leaves some node with more than `epochsDone` batches. */
  lemma {:induction false} BatchSeenHolds<M, B>(net: seq<NodeState<M, B>>, n: nat, epochsDone: nat)
    requires n <= |net| && BatchSeen(net, n, epochsDone)
    ensures HoldsBatches(AfterSweep(net, |net|), epochsDone + 1)
  {
    if BatchSeen(net, n - 1, epochsDone) {
      BatchSeenHolds(net, n - 1, epochsDone);
    } else {
      SweepGrowsBatches(net, n, |net|);
      assert |AfterSweep(net, |net|)[n - 1].batches| >= epochsDone + 1;
    }
  }

  /**
   * Over a run, batch queues only grow, and when it ends with `k > 0`
   * epochs done, some node holds at least `k` batches.
   */
  lemma {:induction false} RunBatches<M, B>(net: seq<NodeState<M, B>>, epochsDone: nat, fuel: nat)
    requires epochsDone > 0 ==> HoldsBatches(net, epochsDone)
    ensures
      var t := Run(net, epochsDone, fuel);
      && BatchesGrow(net, t.net)
      && (t.outcome.epochsDone > 0 ==> HoldsBatches(t.net, t.outcome.epochsDone))
    decreases fuel
  {
    if epochsDone < EpochTtl && fuel > 0 {
      var next := AfterSweep(net, |net|);
      var seen := BatchSeen(net, |net|, epochsDone);
      SweepGrowsBatches(net, 0, |net|);
      if seen {
        BatchSeenHolds(net, |net|, epochsDone);
      } else if epochsDone > 0 {
        var w :| 0 <= w < |net| && |net[w].batches| >= epochsDone;
        assert |next[w].batches| >= epochsDone;
      }
      RunBatches(next, if seen then epochsDone + 1 else epochsDone, fuel - 1);
    }
  }

  // ---------------------------------------------------------------------
  // A network with nothing in flight

  /** No node has anything to handle, forward or move out of its engine. */
  ghost predicate Quiescent<M, B>(net: seq<NodeState<M, B>>)
  {
    forall i :: 0 <= i < |net| ==>
      net[i].inQueue == [] && net[i].outQueue == [] && net[i].pendingMessages == [] && net[i].pendingBatches == []
  }

  /** Collecting empty out-queues yields nothing. */
  lemma {:induction false} CollectedNothing<M>(outs: seq<seq<TargetedMessage<M>>>)
    requires forall s :: 0 <= s < |outs| ==> outs[s] == []
    ensures Collected(outs) == []
  {
    if outs != [] {
      CollectedNothing(outs[..|outs| - 1]);
    }
  }

  /** In a quiescent network a node's turn, whose in-queue is empty, changes nothing. */
  lemma QuiescentTurn<M, B>(net: seq<NodeState<M, B>>, idx: nat)
    requires idx < |net| && Quiescent(net)
    ensures AfterTurn(net, idx) == net
  {
    assert Enqueue(HandleNext(net[idx])) == net[idx];
    assert net[idx := net[idx]] == net;
    CollectedNothing(OutQueuesOf(net));
  }

  /** In a quiescent network a sweep changes nothing. */
  lemma {:induction false} QuiescentSweep<M, B>(net: seq<NodeState<M, B>>, n: nat)
    requires n <= |net| && Quiescent(net)
    ensures AfterSweep(net, n) == net
  {
    if n > 0 {
      var before := AfterSweep(net, n - 1);
      QuiescentSweep(net, n - 1);
      assert before == net;
      QuiescentTurn(net, n - 1);
      assert AfterSweep(net, n) == AfterTurn(before, n - 1);
    }
  }

  /** A quiescent network in which no node holds more than `epochsDone` batches sees no batch in a sweep. */
  lemma {:induction false} QuiescentSeesNothing<M, B>(net: seq<NodeState<M, B>>, n: nat, epochsDone: nat)
    requires n <= |net| && Quiescent(net)
    requires forall i :: 0 <= i < |net| ==> |net[i].batches| <= epochsDone
    ensures !BatchSeen(net, n, epochsDone)
  {
    if n > 0 {
      QuiescentSeesNothing(net, n - 1, epochsDone);
      QuiescentSweep(net, n);
      assert |net[n - 1].batches| <= epochsDone;
    }
  }

  /**
   * With nothing in flight and no node holding more than `epochsDone`
   * batches, every turn meets an empty in-queue and the loop goes on:
   * the run spends its whole budget and stalls where it started. The
   * source has no budget, so it spins there for ever.
   */
  lemma {:induction false} QuiescentRunStalls<M, B>(net: seq<NodeState<M, B>>, epochsDone: nat, fuel: nat)
    requires Quiescent(net)
    requires epochsDone < EpochTtl
    requires forall i :: 0 <= i < |net| ==> |net[i].batches| <= epochsDone
    ensures Run(net, epochsDone, fuel) == Trace(net, LivenessBudgetExceeded(epochsDone), 0)
    decreases fuel
  {
    if fuel > 0 {
      QuiescentSweep(net, |net|);
      QuiescentSeesNothing(net, |net|, epochsDone);
      QuiescentRunStalls(net, epochsDone, fuel - 1);
    }
  }
}
