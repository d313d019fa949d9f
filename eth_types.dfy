/** Inputs of the Ethereum normaliser: the RPC results it is handed, the call
    trace, and the chain constants it is configured with. */
module EthTypes {
  import opened Rosetta

  /** An address in its checksummed textual form (`to_checksum`). */
  type Address = string

  /** A hash in its hex-encoded textual form. */
  type Hash = string

  /** The operation-type tags, fork thresholds and reward constants of the
      chain. They are not computed by the normaliser, so they are parameters. */
  datatype ChainConfig = ChainConfig(
    callType: string,
    createType: string,
    create2Type: string,
    selfDestructType: string,
    destructType: string,
    feeType: string,
    miningRewardType: string,
    uncleRewardType: string,
    frontierReward: nat,
    byzantiumReward: nat,
    constantinopleReward: nat,
    byzantiumBlock: nat,
    constantinopleBlock: nat,
    maxUncleDepth: nat,
    uncleRewardMultiplier: nat)
  {
    /** The trace-type tags are pairwise distinct, and so is the tag of the
        synthetic destruct operation. */
    predicate DistinctTraceTags() {
      && callType != createType && callType != create2Type && callType != selfDestructType
      && createType != create2Type && createType != selfDestructType
      && create2Type != selfDestructType
      && destructType != callType && destructType != createType
      && destructType != create2Type && destructType != selfDestructType
    }
  }

  /** The fields of a block that the normaliser reads. */
  datatype Block = Block(
    number: Option<nat>,
    hash: Option<Hash>,
    author: Option<Address>,
    baseFee: Option<nat>)

  /** The fields of a transaction that the normaliser reads. */
  datatype Tx = Tx(
    hash: Hash,
    from: Address,
    gasPrice: Option<nat>,
    maxPriorityFee: Option<nat>,
    txType: Option<nat>)

  datatype Receipt = Receipt(blockHash: Option<Hash>, gasUsed: Option<nat>)

  /** An uncle block as fetched by index. */
  datatype Uncle = Uncle(author: Option<Address>, number: Option<nat>)

  /** A node of the `callTracer` call tree. */
  datatype Trace = Trace(
    from: Address,
    to: Address,
    value: nat,
    kind: string,
    revert: bool,
    error: string,
    calls: seq<Trace>)

  /** A trace node without its children (`FlattenTrace`). */
  datatype FlatTrace = FlatTrace(
    from: Address,
    to: Address,
    value: nat,
    kind: string,
    revert: bool,
    error: string)

  datatype EthError =
    | ReceiptNotFound
    | ReceiptWithoutBlockHash
    | ReceiptBlockMismatch
    | NoAuthor
    | NoBaseFee
    | NoTxType
    | NoGasPrice
    | NoGasUsed
    | MissingBlockNumber
    | MissingBlockHash
    | UncleWithoutAuthor
    | UncleWithoutNumber
}
