/**
 * A simulated node: one engine and the three FIFO queues the harness
 * moves messages and batches through (src/main.rs:44-76).
 */
module TestNodes {
  import opened Params
  import opened Messaging
  import opened Consensus

  /** The `Result<(), ()>` of `handle_next_message`: `Err` means the in-queue was empty. */
  datatype Status = Ok | Err

  /** A node's three queues and its engine's state and step, as plain values. */
  datatype NodeState<!M, B> = NodeState(
    step: Step<M, B>,
    inQueue: seq<Inbound<M>>,
    outQueue: seq<TargetedMessage<M>>,
    batches: seq<B>,
    handled: seq<Input<M>>,
    pendingMessages: seq<TargetedMessage<M>>,
    pendingBatches: seq<B>)

  /**
   * `handle_next_message` on values: the front in-queue entry goes to the
   * engine's step, whose reaction is queued behind its pending output. An
   * empty in-queue leaves the state as it is.
   */
  function HandleNext<M, B>(s: NodeState<M, B>): NodeState<M, B>
  {
    if s.inQueue == [] then s
    else
      var input := Input(s.inQueue[0].sender, s.inQueue[0].msg.message);
      var reaction := s.step(s.handled, input);
      s.(inQueue := s.inQueue[1..], handled := s.handled + [input],
         pendingMessages := s.pendingMessages + reaction.messages,
         pendingBatches := s.pendingBatches + reaction.batches)
  }

  /** `enqueue_outputs` on values: the engine's pending output moves to the node's queues. */
  function Enqueue<M, B>(s: NodeState<M, B>): NodeState<M, B>
  {
    s.(outQueue := s.outQueue + s.pendingMessages, batches := s.batches + s.pendingBatches,
       pendingMessages := [], pendingBatches := [])
  }

  class TestNode<M, B> {
    const uid: nat
    const hb: Engine<M, B>
    /** `(sender, message)` pairs waiting to be handed to the engine. */
    var peerInQueue: seq<Inbound<M>>
    /** Outbound messages waiting to be forwarded. */
    var peerOutQueue: seq<TargetedMessage<M>>
    /** Batches the engine has finalized, in order. */
    var batchOutQueue: seq<B>

    ghost predicate Valid()
      reads this, hb
    {
      hb.Valid() && TargetsBelow(peerOutQueue, NodeCount)
    }

    /** The node's queues and its engine's state. */
    ghost function State(): NodeState<M, B>
      reads this, hb
    {
      NodeState(hb.step, peerInQueue, peerOutQueue, batchOutQueue, hb.handled, hb.pendingMessages, hb.pendingBatches)
    }

    constructor (uid: nat, hb: Engine<M, B>)
      requires hb.Valid()
      ensures Valid()
      ensures this.uid == uid && this.hb == hb
      ensures peerInQueue == [] && peerOutQueue == [] && batchOutQueue == []
    {
      this.uid := uid;
      this.hb := hb;
      peerInQueue := [];
      peerOutQueue := [];
      batchOutQueue := [];
    }

    /**
     * Move everything the engine has produced into the out-queue and the
     * batch queue, in the engine's order; the in-queue is not touched.
     */
    method EnqueueOutputs()
      requires Valid()
      modifies this, hb
      ensures Valid()
      ensures peerOutQueue == old(peerOutQueue) + old(hb.pendingMessages)
      ensures batchOutQueue == old(batchOutQueue) + old(hb.pendingBatches)
      ensures peerInQueue == old(peerInQueue)
      ensures hb.pendingMessages == [] && hb.pendingBatches == []
      ensures hb.handled == old(hb.handled)
      ensures State() == Enqueue(old(State()))
    {
      var msgs := hb.MessageIter();
      for k := 0 to |msgs|
        modifies this`peerOutQueue
        invariant peerOutQueue == old(peerOutQueue) + msgs[..k]
      {
        peerOutQueue := peerOutQueue + [msgs[k]];
      }
      var batches := hb.OutputIter();
      for k := 0 to |batches|
        modifies this`batchOutQueue
        invariant batchOutQueue == old(batchOutQueue) + batches[..k]
      {
        batchOutQueue := batchOutQueue + [batches[k]];
      }
      assert msgs[..|msgs|] == msgs && batches[..|batches|] == batches;
    }

    /**
     * Pop the oldest in-queue entry and hand its sender and payload to the
     * engine. An empty in-queue yields `Err` and changes nothing.
     */
    method HandleNextMessage() returns (r: Status)
      requires Valid()
      modifies this, hb
      ensures Valid()
      ensures peerOutQueue == old(peerOutQueue) && batchOutQueue == old(batchOutQueue)
      ensures old(peerInQueue) == [] ==>
        r == Err && peerInQueue == [] && unchanged(hb)
      ensures old(peerInQueue) != [] ==>
        var front := Input(old(peerInQueue)[0].sender, old(peerInQueue)[0].msg.message);
        && r == Ok
        && peerInQueue == old(peerInQueue)[1..]
        && hb.handled == old(hb.handled) + [front]
        && hb.pendingMessages == old(hb.pendingMessages) + hb.step(old(hb.handled), front).messages
        && hb.pendingBatches == old(hb.pendingBatches) + hb.step(old(hb.handled), front).batches
      ensures State() == HandleNext(old(State()))
    {
      if peerInQueue == [] {
        return Err;
      }
      var entry := peerInQueue[0];
      peerInQueue := peerInQueue[1..];
      hb.HandleMessage(entry.sender, entry.msg.message);
      r := Ok;
    }
  }
}
