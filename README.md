# Operation normalisation for Ethereum and Substrate, in Dafny

This project models the part of chain-connectors that turns chain execution data into ordered
Rosetta `Operation` records, and proves properties of that model. It covers the following.

- **Ethereum fee operations** (`get_fee_operations`). Every transaction
  produces two or three fee operations under the EIP-1559 fee market:
  - the sender is debited what lies above the base fee;
  - the miner is credited the same amount;
  - a third operation debits the sender the burned base fee, when that fee is nonzero.
- **Ethereum trace operations** (`get_trace_operations`).
  - The call tree is flattened breadth-first with a work queue. Revert status and error messages
    are pushed down to the children.
  - The flattened entries are then walked. Each entry emits a sender/receiver pair with
    consecutive indices that start at `op_len`.
  - A per-transaction ledger of self-destructed accounts (`destroyed_accs`) is threaded through the
    walk. It has early exits, resurrection on create/create2, and a drain into "destruct"
    operations.
- **Ethereum block rewards** (`block_reward_transaction`). The reward of the fork active at the
  block is boosted when the block has uncles, with the boost exactly as written in the source.
  Each uncle gets the per-uncle reward.
- **The Ethereum transaction** (`get_transaction`). The fee operations come first, then the trace
  operations numbered on from them. The genesis block gets no trace operations.
- **Substrate events** (`get_operation_data`, `generate_address` and the event loop of
  `get_transaction`).
  - Named event fields are matched by name aliases; the first match wins.
  - An address is the low bytes of a nested composite of `U128`s.
  - Every event gives one or two operations, which share the event's position as their index.

## How the source is modelled

Files, one module each:

- `rosetta.dfy`: the Rosetta operation model.
- `eth_types.dfy`: the Ethereum inputs and chain constants.
- `eth_fees.dfy`
- `eth_trace_flatten.dfy`
- `eth_trace_ops.dfy`
- `eth_block_reward.dfy`
- `eth_transaction.dfy`
- `substrate_values.dfy`: decoded SCALE values and `generate_address`.
- `substrate_events.dfy`

Functions:

- `get_fee_operations` and `get_operation_data` are straight-line and pure, so they are functions.

Methods with loops and invariants:

- The work-queue flattening.
- The walk over flattened entries. It grows the operation list, reads the last index back, and
  updates the ledger map.
- The drain over the ledger map.
- The fork overwrites and the uncle loop of the block reward.
- The Substrate event loop.
- The nested loops of `generate_address`.

Each method is proved against a specification function, or states its result outright:

- `Flatten` yields `Bfs([Propagate(root, None)])`. `Propagate` pushes revert status down the
  tree, and `Bfs` is plain breadth-first order.
- The walk yields `EmittedOps`.
- The event loop yields `EventsOperations`.
- `GenerateAddress` yields `ss58(AddressBytes(v))`.

Inputs and representation:

- The RPC results (block, transaction, receipt, call trace, uncles, events) are inputs.
- The chain constants are fields of `ChainConfig`. They are the operation-type tags, the fork
  thresholds and rewards, `MAX_UNCLE_DEPTH` and `UNCLE_REWARD_MULTIPLIER`.
- Ethereum addresses are their checksummed strings. `to_checksum` always returns `0x` followed by
  40 hex digits, so for real addresses the `to.is_empty()` early exit in `get_trace_operations` is
  dead code. The model keeps that branch (`ExitsEarly`) for an empty receiver string.
- The Substrate address encoding `Address::from_public_key_bytes` is a function parameter `ss58`.
- Amounts are `(negative, magnitude)`, so the literal `"-0"` that the source can print is
  representable.

Where the evident intent and the code differ, the model follows the code:

- **Trace-operation metadata.** A reverted entry's error message looks meant to reach its
  operations as metadata. In `get_trace_operations` the error goes into a local map that is never
  attached, and every trace operation has `metadata: None`. The model matches the code.
- **Uncle rewards.** These read as if meant to be computed from the fork's base reward. The code
  computes them from `mining_reward` after the uncle boost has been applied. The model uses the
  boosted reward.
- **The destruct ledger.** The code only updates ledger entries that already exist, and never
  inserts one. The ledger starts empty, so it stays empty and no destruct operation is ever
  emitted. The model proves this (`TraceOps.LedgerStaysEmpty`,
  `TraceOps.ApplyEntry`), and models the drain over an arbitrary ledger on its own
  (`TraceOps.Drain`).

## Model

| member | source | states |
|---|---|---|
| EthFees.FeeOperations | chains/ethereum/server/src/utils.rs:71-172 | Ok exactly when author, base fee, tx type, gas price and gas used are all present; otherwise the first missing one, in source order, is the error. On Ok there are 3 operations iff the burned fee is nonzero, else 2. They are indexed 0, 1, 2 and all have fee type and success status. Op 0 debits the sender `used*price - used*base`. Op 1 credits the author the same amount, related to [0]. Op 2 debits the sender `used*base`. |
| EthFees.FeeConservation | chains/ethereum/server/src/utils.rs:90-171 | The signed fee amounts add up to exactly minus the burned fee `used*base`. When the sender is not the miner, the sender's net is minus the whole fee `used*price`. |
| EthFees.MinerEarnsPriorityFee | chains/ethereum/server/src/utils.rs:83-92 | For a type-2 transaction the miner is credited `used * max_priority_fee`, with a missing priority fee counting as 0. |
| EthFees.LegacyFeeExample | chains/ethereum/server/src/utils.rs:85-171 | A legacy transaction: 21000 gas at price 20 under base fee 10 gives the amounts -210000, +210000 and -210000. |
| EthFees.MarketFeeExample | chains/ethereum/server/src/utils.rs:85-171 | A fee-market transaction: 21000 gas, base fee 10 and priority fee 5 give the amounts -105000, +105000 and -210000. |
| TraceFlatten.Flatten | chains/ethereum/server/src/utils.rs:185-199 | The queue loop yields `FlattenSpec(root)`, the breadth-first order of the tree with revert status propagated down from the root. |
| TraceFlatten.FlattenSpecFacts | chains/ethereum/server/src/utils.rs:185-199 | The flattening has one entry per tree node and is a permutation of the propagated tree's nodes. The first entry is the root. If the root reverted, every entry is reverted, and has a nonempty error when the root's is nonempty. |
| TraceFlatten.ChildInherits | chains/ethereum/server/src/utils.rs:189-194 | A child is reverted iff it or its propagated parent is. A child with an empty message takes the parent's message, which may itself be inherited. The other fields are unchanged. |
| TraceFlatten.PropagateCloses | chains/ethereum/server/src/utils.rs:189-194 | After propagation, every child of a reverted node is reverted, at every depth. It carries a message whenever its parent does. |
| TraceFlatten.ClosedRevertedEverywhere | chains/ethereum/server/src/utils.rs:189-194 | In a propagated tree with a reverted root, every node is reverted. Every node has a message when the root does. |
| TraceFlatten.ClosedIsFixedPoint | chains/ethereum/server/src/utils.rs:189-194 | A tree in which revert status is already propagated is left unchanged by propagation. |
| TraceFlatten.PropagateIdempotent | chains/ethereum/server/src/utils.rs:189-194 | Propagating twice is the same as propagating once. |
| TraceFlatten.PropagateSize | chains/ethereum/server/src/utils.rs:189-195 | Propagation keeps the number of nodes. |
| TraceFlatten.BfsLength | chains/ethereum/server/src/utils.rs:188-198 | Breadth-first order of a queue has one entry per node of its trees. |
| TraceFlatten.BfsPermutesNodes | chains/ethereum/server/src/utils.rs:188-198 | Breadth-first order is a permutation of the pre-order node list. |
| TraceFlatten.BfsStep | chains/ethereum/server/src/utils.rs:188-198 | One pop of the queue emits the front node and appends its adjusted children. It leaves the rest of the breadth-first order unchanged, and shrinks the queue's total size. |
| TraceOps.EntryOps | chains/ethereum/server/src/utils.rs:209-319 | An entry emits 0 operations for a zero-value call, 1 on an early exit, else 2. Indices are consecutive. Each operation has the entry's type, no metadata, and status failure iff the entry reverted. The amount is absent iff the value is 0, and a present amount is in the chain's currency. The sender is debited the value; the receiver is credited it, related to the sender's index. |
| TraceOps.LedgerAfter | chains/ethereum/server/src/utils.rs:255-316 | After one entry, no account appears that was not already there. |
| TraceOps.LedgerUpdate | chains/ethereum/server/src/utils.rs:255-316 | The accounts after the entry are exactly those before, less the target of a create or create2 that did not exit early. A successful nonzero transfer lowers the sender's entry and raises the receiver's; a transfer from an account to itself leaves its entry unchanged, unless the entry exited early after the debit. Every other entry keeps its value. |
| TraceOps.LedgerStaysEmpty | chains/ethereum/server/src/utils.rs:203-316 | From the empty ledger, one entry leaves the ledger empty: keys are only updated, never inserted. |
| TraceOps.EmitEntry | chains/ethereum/server/src/utils.rs:209-319 | The step-by-step body of one loop iteration appends exactly `EntryOps` and leaves the ledger at `LedgerAfter`. It reports the early exit iff the entry is a self-destruct to itself or has an empty receiver. |
| TraceOps.Drain | chains/ethereum/server/src/utils.rs:321-353 | The drain keeps the earlier operations. It then appends one destruct operation per nonzero ledger entry, in unspecified order, on distinct accounts covering exactly the nonzero keys. Each has amount `-v`, success status, no related operations, and the next consecutive index. |
| TraceOps.DrainAppend | chains/ethereum/server/src/utils.rs:321-351 | Visiting a nonzero key appends its destruct operation at the index after the last operation, and extends the partial drain by that key. |
| TraceOps.DrainGrows | chains/ethereum/server/src/utils.rs:321-353 | Appending a not-yet-drained account's destruct operation at the next index extends a partial drain by exactly that account. |
| TraceOps.ApplyEntry | chains/ethereum/server/src/utils.rs:209-353 | One iteration appends the entry's operations. Unless it exited early, it then appends a drain of the updated ledger. From the empty ledger it appends exactly the entry's operations, and the ledger stays empty. |
| TraceOps.EmptyLedgerDrainsNothing | chains/ethereum/server/src/utils.rs:321-353 | Draining the empty ledger emits nothing. |
| TraceOps.EmittedOps | chains/ethereum/server/src/utils.rs:209-353 | The walk's operations are indexed `op_len, op_len+1, ...`, with at most two per entry. |
| TraceOps.WalkEntries | chains/ethereum/server/src/utils.rs:202-357 | The loop over the flattened entries, with the ledger starting empty, yields `EmittedOps` of the entries. |
| TraceOps.TraceOperations | chains/ethereum/server/src/utils.rs:184-357 | `get_trace_operations` yields the walk over the breadth-first flattening, indexed consecutively from `op_len`. |
| TraceOps.ReceiverFollowsSender | chains/ethereum/server/src/utils.rs:283-292 | Every operation with related operations is at position > 0 and related to `[index - 1]`. The operation just before it has no related operations, the same type and status, and the opposite amount. |
| TraceOps.OpsComeFromEntries | chains/ethereum/server/src/utils.rs:211-318 | Every emitted operation has the type of some entry, and failure status iff that entry reverted. |
| TraceOps.NoDestructOps | chains/ethereum/server/src/utils.rs:321-353 | When no entry has the destruct type, no emitted operation has it. |
| EthRewards.BaseReward | chains/ethereum/server/src/utils.rs:378-385 | The reward is Constantinople's from its threshold on, else Byzantium's from its threshold on, else Frontier's. |
| EthRewards.BlockRewardTransaction | chains/ethereum/server/src/utils.rs:363-442 | A missing block number, then a missing block hash, is an error. Otherwise the result is Ok iff every uncle has an author and a number; else the first incomplete uncle decides the error, author before number. On Ok, op 0 credits the author with the fork reward, boosted when there are uncles. Op k+1 credits uncle k's author with `(un + depth - n) * (reward / depth)`. Indices are 0.., and the transaction hash is the block hash. |
| EthRewards.MiningRewardBoost | chains/ethereum/server/src/utils.rs:386-388 | Without uncles the miner gets the base reward. With uncles it never gets less, and the same iff the base reward is 0 or below the multiplier. |
| EthRewards.UncleRewardBounded | chains/ethereum/server/src/utils.rs:414-418 | An uncle no newer than the block earns at most the miner's reward. |
| EthRewards.UncleRewardMonotone | chains/ethereum/server/src/utils.rs:414-418 | A more recent uncle earns at least as much as an older one. |
| EthTransaction.GetTransaction | chains/ethereum/server/src/utils.rs:22-54 | The errors come in order: missing receipt, receipt without block hash, receipt of another block, then the fee error. Otherwise the result is Ok. The operations are indexed 0.. and start with the fee operations. Block 0 has nothing else; any other block has the trace operations numbered from the fee count. |
| EthTransaction.TraceOpsFollowFees | chains/ethereum/server/src/utils.rs:44-50 | Every trace operation's index is above every fee operation's. |
| SubstrateValues.GenerateAddress | chains/polkadot/server/src/block.rs:175-200 | Ok iff the value is an unnamed composite of composites of `U128`s, and then the address of the concatenated low bytes; every other shape is an error. |
| SubstrateValues.AddressBytesRoundTrip | chains/polkadot/server/src/block.rs:178-197 | Byte groups encoded as an unnamed composite of unnamed composites are accepted, and read back as the concatenated bytes. |
| SubstrateValues.EncodeGroupsShaped | chains/polkadot/server/src/block.rs:177-195 | Encoded byte groups have the shape the reader accepts. |
| SubstrateValues.AccountIdRoundTrip | chains/polkadot/server/src/block.rs:178-197 | A public key decoded as a single group reads back as itself. |
| SubstrateValues.SingleGroupTruncates | chains/polkadot/server/src/block.rs:182-186 | Each `U128` contributes its value modulo 256, in order. |
| SubstrateValues.RefusedShapes | chains/polkadot/server/src/block.rs:177-195 | A primitive, a named outer composite, or an element that is not a composite is refused. |
| SubstrateEvents.FirstNamed | chains/polkadot/server/src/block.rs:107-113 | Returns the position of the first field named in the group, or none iff no field has such a name. |
| SubstrateEvents.FirstWithIsUnique | chains/polkadot/server/src/block.rs:107-113 | The first field of a name group is unique. |
| SubstrateEvents.OperationDataOf | chains/polkadot/server/src/block.rs:95-166 | The type is `"{pallet}.{variant}"`. Undecodable fields are an error, and so are unnamed ones. For named fields every error is an invalid operation. |
| SubstrateEvents.FieldMatching | chains/polkadot/server/src/block.rs:107-153 | Named fields are read iff the first sender field (from, who, account) and the first `to` field hold address-shaped values, and the first amount field (amount, actual_fee) holds a `U128`. Each part is absent iff no field of its names exists. Otherwise it comes from the first such field, and later ones are ignored. |
| SubstrateEvents.EventKindSplits | chains/polkadot/server/src/block.rs:99-102 | For pallet names without a dot, the event type determines pallet and variant. |
| SubstrateEvents.EventOperations | chains/polkadot/server/src/block.rs:26-83 | An event gives 2 operations iff it has both a receiver and an amount, else 1. All carry the event index, no status, no related operations, the event type and the field metadata. The first has the sender account and the negated amount; the second has the receiver and the positive amount. |
| SubstrateEvents.EventsOperations | chains/polkadot/server/src/block.rs:22-84 | Ok iff every event decodes and parses; otherwise the first failing event's error. On Ok, n events give between n and 2n operations. |
| SubstrateEvents.ErrorPersists | chains/polkadot/server/src/block.rs:22-24 | Once a prefix of the events fails, the whole list fails with that error, so there is no partial operation list. |
| SubstrateEvents.GetTransaction | chains/polkadot/server/src/block.rs:16-93 | The event loop returns the operations of `EventsOperations` under the extrinsic hash, or its error. |
| SubstrateEvents.EventOpsIndexed | chains/polkadot/server/src/block.rs:22-64 | The operation indices start at 0 and end at n-1. Each index equals the one before or exceeds it by one. |
| SubstrateEvents.EventOpsPaired | chains/polkadot/server/src/block.rs:61-83 | Two consecutive operations with the same index are a sender and a receiver of one event: the same type and metadata, opposite amounts, and the receiver account present. |
| SubstrateEvents.PairedAppend | chains/polkadot/server/src/block.rs:61-83 | Appending the operations of an event with a new index keeps every same-index pair a sender and its receiver. |
| SubstrateEvents.EventOpsWithoutStatus | chains/polkadot/server/src/block.rs:46-69 | No event operation carries a status. |

## Left out

- RPC fetches are inputs. They are the receipt, `debug_traceTransaction`, the uncles fetched
  one by one, and `extrinsic.events()`. A failed fetch is not modelled.
- Foreign calls are not modelled:
  - `to_checksum`: addresses are taken as their checksummed strings;
  - `H160::from_str` in the drain: taken as the identity on checksummed keys;
  - `Address::from_public_key_bytes`: the function parameter `ss58`;
  - `hex::encode` of hashes: hashes are their encoded strings.
- Integer widths are not modelled. U256, U64, u64 and i64 are unbounded integers, and the panics
  become preconditions:
  - `fee_amount >= fee_burned` (`FeeDefined`);
  - `uncle_number + MAX_UNCLE_DEPTH >= block_number` for every uncle the loop reaches
    (`UncleNumbersDefined`);
  - the ledger subtraction, and `as_u64` of the trace value, which panics from 2^64 on, at the
    sender and at an updated receiver (`LedgerDefined`).
- EthRewards.BlockRewardTransaction: does not model overflow of the uncle boost
  `r + (r / multiplier) * r`, because amounts are unbounded integers.
- The `u64` addition at the receiver's ledger entry can overflow; ledger entries are unbounded
  integers, so this is not modelled. The ledger is proved to stay empty, so the update never
  happens.
- `block.author.unwrap()` in the block reward and `block.hash.unwrap()` / `block.number.unwrap()`
  in `get_transaction` are preconditions.
- The `traces.is_empty()` early return is not modelled: flattening always yields at least the root.
- The `v < 0` branch of the drain is not modelled: it is empty.
- `HashMap` iteration order is left unspecified. The drain is proved for any order.
- The transaction metadata JSON (gas limit, price, receipt, trace) is not modelled. Event field
  metadata is kept as a list of (name, type name) pairs.
- The uncle boost is kept exactly as the code writes it, and is not corrected.
- Signing and key handling, the Substrate network client, the CLI, wallet and GUI code, and the
  generated API types are not part of this model.
