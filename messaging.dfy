/**
 * Addressing metadata of the consensus engine's outbound messages.
 * The payload `M` is opaque: routing never inspects it.
 */
module Messaging {
  /** Where an outbound message must go: one node, or every other node. */
  datatype Target = Node(uid: nat) | All

  /** A message emitted by an engine together with its routing directive. */
  datatype TargetedMessage<M> = TargetedMessage(target: Target, message: M)

  /** An entry of a node's in-queue: the sender's id and the message it emitted. */
  datatype Inbound<M> = Inbound(sender: nat, msg: TargetedMessage<M>)

  /** A unicast target names a node below `n`; a broadcast always qualifies. */
  predicate TargetBelow(t: Target, n: nat)
  {
    t.Node? ==> t.uid < n
  }

  /** Every target in `ms` is `TargetBelow(_, n)`. */
  predicate TargetsBelow<M>(ms: seq<TargetedMessage<M>>, n: nat)
  {
    forall k :: 0 <= k < |ms| ==> TargetBelow(ms[k].target, n)
  }
}
