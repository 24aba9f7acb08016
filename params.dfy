/** The fixed parameters of the simulated network (src/main.rs:26-28). */
module Params {
  /** Number of transactions the engine puts in one batch. */
  const BatchSize: nat := 150
  /** Number of simulated nodes; node ids are 0 .. NodeCount - 1. */
  const NodeCount: nat := 20
  /** Total number of transactions handed to every engine. */
  const TxnCount: nat := 1000
}
