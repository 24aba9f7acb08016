/**
 * The consensus engine (a `QueueingHoneyBadger` instance) seen as a black
 * box: it keeps the messages and batches it has produced but nobody has
 * taken yet, and reacts to each handled peer message by producing more.
 */
module Consensus {
  import opened Params
  import opened Messaging

  /** One call of `handle_message`: the sender's id and the message payload. */
  datatype Input<M> = Input(sender: nat, message: M)

  /** What the engine emits in reaction to one input. */
  datatype Output<M, B> = Output(messages: seq<TargetedMessage<M>>, batches: seq<B>)

  /**
   * The engine was built with the network's node set, so every unicast
   * target it emits is the id of a node of the network.
   */
  type Reaction<M, B> = o: Output<M, B> | TargetsBelow(o.messages, NodeCount)
    witness Output([], [])

  /**
   * The engine's protocol step: its reaction to an input, given the inputs
   * it has handled before.
   */
  type Step<!M, B> = (seq<Input<M>>, Input<M>) -> Reaction<M, B>

  class Engine<M, B> {
    /** The engine's protocol step, left uninterpreted. */
    const step: Step<M, B>
    /** Every input handled so far, in order. */
    var handled: seq<Input<M>>
    /** Outbound messages not yet taken by `MessageIter`. */
    var pendingMessages: seq<TargetedMessage<M>>
    /** Finalized batches not yet taken by `OutputIter`. */
    var pendingBatches: seq<B>

    ghost predicate Valid()
      reads this
    {
      TargetsBelow(pendingMessages, NodeCount)
    }

    /** A freshly built engine, holding the output its initial proposal produced. */
    constructor (step: Step<M, B>, initial: Reaction<M, B>)
      ensures Valid()
      ensures this.step == step && handled == []
      ensures pendingMessages == initial.messages && pendingBatches == initial.batches
    {
      this.step := step;
      handled := [];
      pendingMessages := initial.messages;
      pendingBatches := initial.batches;
    }

    /** Process one peer message; its reaction is queued behind earlier output. */
    method HandleMessage(sender: nat, message: M)
      requires Valid()
      modifies this
      ensures Valid()
      ensures handled == old(handled) + [Input(sender, message)]
      ensures pendingMessages == old(pendingMessages) + step(old(handled), Input(sender, message)).messages
      ensures pendingBatches == old(pendingBatches) + step(old(handled), Input(sender, message)).batches
    {
      var reaction := step(handled, Input(sender, message));
      pendingMessages := pendingMessages + reaction.messages;
      pendingBatches := pendingBatches + reaction.batches;
      handled := handled + [Input(sender, message)];
    }

    /** Drain the pending outbound messages (`message_iter`). */
    method MessageIter() returns (ms: seq<TargetedMessage<M>>)
      requires Valid()
      modifies this`pendingMessages
      ensures Valid()
      ensures ms == old(pendingMessages) && TargetsBelow(ms, NodeCount)
      ensures pendingMessages == []
    {
      ms := pendingMessages;
      pendingMessages := [];
    }

    /** Drain the finalized batches (`output_iter`). */
    method OutputIter() returns (bs: seq<B>)
      modifies this`pendingBatches
      ensures bs == old(pendingBatches) && pendingBatches == []
    {
      bs := pendingBatches;
      pendingBatches := [];
    }
  }
}
