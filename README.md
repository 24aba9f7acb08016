# hbui network simulator: a Dafny model of message routing and epoch driving

The hbui test binary simulates a network of Honey Badger BFT nodes inside one
process. Each `TestNode` pairs a consensus engine (`QueueingHoneyBadger`) with
three FIFO queues: `peer_in_queue` of `(sender, message)` pairs waiting to be
handled, `peer_out_queue` of targeted messages waiting to be forwarded, and
`batch_out_queue` of finalized batches. The harness moves engine output into
those queues, forwards every out-queue into the in-queues (a `Target::Node(n)`
message to node `n`, a `Target::All` message to every other node), feeds the
engines one message per node per sweep, counts epochs as batches appear, and
finally checks that every node's first batches equal node 0's.

This project models that harness in Dafny:

- `params.dfy` (`Params`): `BatchSize` 150, `NodeCount` 20, `TxnCount` 1000.
  The number of epochs is `TxnCount / BatchSize` with integer division (6).
- `messaging.dfy` (`Messaging`): `Target`, `TargetedMessage`, and the in-queue
  entry `Inbound(sender, msg)`.
- `consensus.dfy` (`Consensus`): the engine as a black box. An `Engine` keeps the
  inputs it has handled, its pending outbound messages and its pending batches.
  Its protocol step is an uninterpreted function of the handled inputs and the new
  input. Its reactions only address nodes of the network (the subset type
  `Reaction`), because the engine is built with the network's node set.
- `test_node.dfy` (`TestNodes`): the `TestNode` class with `EnqueueOutputs` and
  `HandleNextMessage`.
- `routing.dfy` (`Routing`): what forwarding delivers, written as functions on
  values. `Collected` is the round's messages, drained node by node and tagged
  with their sender. `Deliveries(pending, r)` is what node `r` receives, in
  order. The lemmas state the routing guarantees.
- `epochs.dfy` (`Epochs`): the driver loop written as functions on values.
  `AfterTurn` is one node's turn, `AfterSweep` a round-robin pass over the
  nodes, and `Run(net, epochsDone, fuel)` the loop under a budget of `fuel`
  passes. The lemmas state how a run ends, that the budget only cuts a run
  short, that batch queues only grow, and that a network with nothing in
  flight spins without ending.
- `network.dfy` (`Network`): the node array (node id = array index) and the
  imperative harness. It covers `ForwardOutgoingMessages`, the staging, the
  epoch loop `RunEpochs`, the closing `CheckAgreement` and the whole run
  `Simulate`. Each state-changing method's contract gives the network's new
  state (`Snapshot`, every node's queues and engine state as a value) as a
  function of the old one: `Forwarded`, `AfterTurn`, `AfterSweep`, `Staged`
  or `Run`.

Behaviour of the source that the model keeps or sets aside:

- Broadcast fan-out ranges over the constant `NODE_COUNT` (src/main.rs:97), and so does the model's.
- In the source, an engine error in `handle_message` panics through `unwrap()`
  (src/main.rs:68). The model leaves that panic out: the engine's step is a total
  function, so every handled message is accepted.
- The driver loop stops when `epochs_done` reaches `epoch_ttl`. Each epoch takes
  at least one full pass over the nodes, even if some node already holds all of
  its batches. At exit at least one node holds `epoch_ttl` batches, and only one
  is guaranteed to. The agreement check then indexes the first `epoch_ttl`
  batches of every node. A node with fewer batches makes the source panic on the
  index; the model reports that as `Verdict.MissingBatch`. A failing `assert!`
  is reported as `Verdict.Mismatch`.
- Once `batch_done` is set, the pass still finishes: the `break` is commented out
  (src/main.rs:189). So the model counts an epoch after a full pass in which some
  node held more than `epochs_done` batches right after its turn.

## Model

| member | source | states |
|---|---|---|
| `Consensus.Engine.constructor` | src/main.rs:126-130 | a built engine has handled nothing and holds the output of its initial proposal, whose targets are nodes of the network |
| `Consensus.Engine.HandleMessage` | src/main.rs:68 | the input `(sender, message)` is appended to the engine's history; the step's reaction is queued behind the earlier pending messages and batches |
| `Consensus.Engine.MessageIter` | src/main.rs:54 | returns every pending outbound message in order and leaves none pending |
| `Consensus.Engine.OutputIter` | src/main.rs:58 | returns every pending batch in order and leaves none pending |
| `TestNodes.TestNode.constructor` | src/main.rs:138-144 | a new node has the given id and engine and three empty queues |
| `TestNodes.TestNode.EnqueueOutputs` | src/main.rs:53-61 | the out-queue gets the engine's pending messages and the batch queue its pending batches, appended in engine order; the in-queue is unchanged and the engine is left with nothing pending; on values, the node's new state is `Enqueue` of the old |
| `TestNodes.TestNode.HandleNextMessage` | src/main.rs:65-73 | an empty in-queue gives `Err` and changes nothing; otherwise the front entry is removed, its sender and payload are handed to the engine, the rest of the in-queue is the old tail, and the result is `Ok`; on values, the node's new state is `HandleNext` of the old |
| `Routing.OthersBelow` | src/main.rs:97 | the broadcast recipients: exactly the ids below `n` other than the sender, ascending, `n - 1` of them when the sender is below `n` |
| `Routing.RecipientsAreAddressed` | src/main.rs:91-102 | the push list of an entry and the addressing predicate name the same nodes |
| `Routing.CollectedMembership` | src/main.rs:83-87 | an entry is among the round's messages iff its sender tag is a node id and its message was in that node's out-queue |
| `Routing.DeliveriesMembership` | src/main.rs:90-104 | node `r` receives an entry iff the entry is pending and addressed to `r` |
| `Routing.RoutedIff` | src/main.rs:83-104 | node `r` receives `(s, m)` iff `m` was in node `s`'s out-queue and `m` is addressed to `r`; senders are never altered |
| `Routing.UnicastDelivery` | src/main.rs:92-94 | a `Node(n)` message from `s` reaches node `n`, tagged `s`, and no other node |
| `Routing.BroadcastDelivery` | src/main.rs:96-101 | an `All` message from `s` reaches, tagged `s`, exactly the nodes of the network other than `s` |
| `Routing.DeliveriesAppend` | src/main.rs:90 | delivering a concatenation delivers its first part, then its second |
| `Routing.DeliveryOrder` | src/main.rs:90-104 | two pending entries addressed to `r` reach `r` in their pending order |
| `Routing.CollectedAt` | src/main.rs:83-87 | message `k` of node `s` stands after everything nodes below `s` sent and after `s`'s own first `k` messages |
| `Routing.CollectedBefore` | src/main.rs:83-87 | a message from an earlier node, or an earlier message of the same node, stands earlier in the round's messages |
| `Routing.FifoDelivery` | src/main.rs:83-104 | if one message is collected before another (earlier node, or same node and earlier in its out-queue) and both are addressed to `r`, `r` receives the first before the second, each at the exact position given by how many of the round's earlier messages were addressed to `r` |
| `Routing.CountAddressedRecipients` | src/main.rs:91-101 | a unicast to a node of the network is addressed to exactly one node, a broadcast to as many nodes as it has recipients |
| `Routing.TotalDeliveries` | src/main.rs:90-104 | the in-queues of the network grow, together, by exactly the summed fan-out: one per unicast, `NodeCount - 1` per broadcast |
| `Routing.BroadcastDeliveryCount` | src/main.rs:96-101 | a single broadcast causes exactly `NodeCount - 1` deliveries in all |
| `Epochs.RunStep` | src/main.rs:172-195 | with epochs left and budget left, a run is one pass followed by the rest of the run, one epoch further exactly when that pass saw a batch |
| `Epochs.RunEnds` | src/main.rs:172-173 | with `epoch_ttl` epochs done the run completes at once; with epochs left and no budget it stalls at once, leaving the network as it is |
| `Epochs.RunAdvance` | src/main.rs:173-193 | after one more pass the rest of the run is unchanged: from the next network, one epoch further exactly when the pass saw a batch, with one unit of budget less |
| `Epochs.RunBudget` | src/main.rs:168-195 | a run ends only with `epoch_ttl` epochs done, or with the whole budget spent and fewer epochs done; the epoch count never decreases and never passes `epoch_ttl` |
| `Epochs.RunSweeps` | src/main.rs:173-192 | a run makes exactly `fuel - fuelLeft` passes, and its final network is where that many full passes lead |
| `Epochs.RunResume` | src/main.rs:172-195 | the budget only cuts a run short: with more budget a completed run is the same run, and a stalled run goes on from the network and epoch count at which it stopped |
| `Epochs.StagedGrowsBatches` | src/main.rs:148-153 | the staging only appends to batch queues |
| `Epochs.TurnGrowsBatches` | src/main.rs:175-184 | a node's turn only appends to batch queues |
| `Epochs.NthTurnGrowsBatches` | src/main.rs:174-184 | each turn of a pass only appends to batch queues |
| `Epochs.SweepGrowsBatches` | src/main.rs:174-191 | later in a pass, every batch queue extends what it was earlier |
| `Epochs.BatchSeenHolds` | src/main.rs:186-190 | a pass that sets `batch_done` ends with some node holding more than `epochs_done` batches |
| `Epochs.RunBatches` | src/main.rs:172-195 | over a run batch queues only grow, and a run ending with `k > 0` epochs done leaves some node holding at least `k` batches |
| `Epochs.CollectedNothing` | src/main.rs:83-87 | empty out-queues give an empty round |
| `Epochs.QuiescentTurn` | src/main.rs:175-184 | with nothing in flight, a node's turn meets an empty in-queue and changes nothing |
| `Epochs.QuiescentSweep` | src/main.rs:174-191 | with nothing in flight, a pass changes nothing |
| `Epochs.QuiescentSeesNothing` | src/main.rs:186-190 | with nothing in flight and no node holding more than `epochs_done` batches, a pass does not set `batch_done` |
| `Epochs.QuiescentRunStalls` | src/main.rs:172-192 | an empty in-queue is a tick, not an end: with nothing in flight the run goes on pass after pass, spends its whole budget and stalls where it started |
| `Network.BuildNodes` | src/main.rs:118-146 | `NodeCount` fresh nodes, node `i` at index `i` with id `i` and the `i`-th engine, all queues empty |
| `Network.CollectedTargetsValid` | src/main.rs:94 | every unicast target among the round's messages is a node id, so the indexing `nodes[n_uid]` is in range |
| `Network.CollectOutgoing` | src/main.rs:83-87 | the result is the out-queues drained node by node with sender tags; every out-queue is then empty, the other queues unchanged |
| `Network.Deliver` | src/main.rs:91-102 | one entry is appended to the in-queue of each node it is addressed to and to no other; out-queues and batch queues are unchanged |
| `Network.DeliverAll` | src/main.rs:90-104 | every pending entry, in order, is appended to the in-queue of each node it is addressed to: each in-queue becomes its old contents followed by its `Deliveries`; out-queues and batch queues are unchanged |
| `Network.ForwardOutgoingMessages` | src/main.rs:81-106 | every out-queue is empty afterwards, every batch queue unchanged, each in-queue is its old contents followed by its deliveries from the round's messages in order, and the result is `Ok` |
| `Network.HandleAndEnqueue` | src/main.rs:175-183 | node `idx` handles its next message and enqueues its outputs (`Enqueue(HandleNext(..))` on its state); no other node changes |
| `Network.StepNode` | src/main.rs:175-184 | the network after node `idx`'s turn is `AfterTurn` of the network before: handle, enqueue, then forward every out-queue |
| `Network.Sweep` | src/main.rs:174-191 | one pass over the nodes in id order takes the network to `AfterSweep`, and the returned `batch_done` is true exactly when some node held more than `epochs_done` batches right after its turn |
| `Network.AwaitBatch` | src/main.rs:173-192 | the inner `while !batch_done` loop: each pass spends one unit of budget, and the rest of the run from where it stops (one epoch later if it saw a batch) is the same `Run` as from where it started; it gives up only when the budget is spent |
| `Network.RunEpochs` | src/main.rs:168-195 | the final network, the outcome and the number of passes are exactly those of `Run(start, 0, fuel)`; the final network is that many full passes from the start; batch queues are append-only; a completed run counts exactly `TxnCount / BatchSize` epochs; `LivenessBudgetExceeded` comes only with the whole budget spent and fewer epochs done; with `k > 0` epochs done some node holds at least `k` batches |
| `Network.AgreementPairwise` | src/main.rs:197-202 | when the check's condition holds, every node holds at least `epoch_ttl` batches and any two nodes agree on each of them |
| `Network.CheckAgreement` | src/main.rs:197-202 | `Agreed` exactly when every node's first `epoch_ttl` batches equal node 0's; otherwise the first failing (node, batch) in loop order, a missing batch or two different batches |
| `Network.StageOutputs` | src/main.rs:148-151 | every node, in id order, enqueues its outputs: the network becomes `EnqueuedAll` of the old one |
| `Network.Stage` | src/main.rs:148-153 | the staging before the loop takes the network to `Staged` of the old one: everything enqueued, then forwarded |
| `Network.Judge` | src/main.rs:172-202 | a stalled run reports `Stalled` with its epoch count and never reaches the check; a completed run reports the check's verdict, `Agreed` exactly when the agreement condition holds |
| `Network.Simulate` | src/main.rs:148-202 | the final network and the number of passes are those of `Run` from the staged network; `Stalled` exactly when that run exceeds its budget, with the same epoch count; batch queues are append-only and at most `fuel` passes are made; a finished run has some node holding `TxnCount / BatchSize` batches and its verdict is `Agreed` exactly when the agreement condition holds; `Stalled` comes only after all `fuel` passes, with fewer epochs done and some node holding at least as many batches as epochs done |

## Left out

- `Hbui::new` and `Hbui::append_transaction` (src/lib.rs): they only forward to the external engine's input and hold no logic; the unused `queue` field goes with them.
- The consensus algorithm itself (broadcast, agreement, threshold cryptography): external; the engine is a black box whose step is an uninterpreted function.
- Key generation, `Transaction::random` and `build_with_transactions`: randomness and cryptographic setup. An engine is built from its step function and its initial output instead.
- The panic of `unwrap()` on an engine error (src/main.rs:68): the engine step is total, so every handled message is accepted.
- Termination of the inner `while !batch_done` loop depends on the engines' liveness, which is outside the model. `Run`, `AwaitBatch` and `RunEpochs` take a budget of full passes and report `LivenessBudgetExceeded` when it is spent; the source has no such bound.
- The `println!` diagnostics and the final queue tally (src/main.rs:177, 204-216): output only.
- `usize` arithmetic: counters and indices are unbounded naturals; with 20 nodes and 6 epochs nothing comes near overflow.
- `clone()` of a broadcast message: messages are values, so a clone is the same value.
- The commented-out code (`NodesComplete`, `ContribQueue`, `Queue`, direct `handle_message` forwarding).
