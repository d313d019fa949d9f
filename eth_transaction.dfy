/** One Ethereum transaction as Rosetta operations: its fee operations
    first, then its trace operations numbered on from them. */
module EthTransaction {
  import opened Rosetta
  import opened EthTypes
  import opened EthFees
  import opened TraceFlatten
  import opened TraceOps

  /** The receipt was found and belongs to the block. */
  predicate ReceiptMatches(block: Block, receipt: Option<Receipt>) {
    receipt.Some? && receipt.value.blockHash.Some? && block.hash.Some?
    && receipt.value.blockHash.value == block.hash.value
  }

  /** `get_transaction`, with the fetched receipt and call trace as inputs. */
  method GetTransaction(cfg: ChainConfig, cur: Currency, block: Block, tx: Tx,
                        receipt: Option<Receipt>, trace: Trace)
    returns (r: Result<Transaction, EthError>)
    requires receipt.Some? && receipt.value.blockHash.Some? ==> block.hash.Some?
    requires ReceiptMatches(block, receipt) ==> FeeDefined(block, tx, receipt.value)
    requires ReceiptMatches(block, receipt) && FeeInputsPresent(block, tx, receipt.value)
             ==> block.number.Some?
    ensures receipt.None? ==> r == Err(ReceiptNotFound)
    ensures receipt.Some? && receipt.value.blockHash.None? ==> r == Err(ReceiptWithoutBlockHash)
    ensures (receipt.Some? && receipt.value.blockHash.Some? && !ReceiptMatches(block, receipt))
            ==> r == Err(ReceiptBlockMismatch)
    ensures r.Ok? <==> ReceiptMatches(block, receipt) && FeeInputsPresent(block, tx, receipt.value)
    ensures (ReceiptMatches(block, receipt) && !FeeInputsPresent(block, tx, receipt.value))
            ==> r == Err(FeeOperations(cfg, cur, block, tx, receipt.value).error)
    ensures r.Ok? ==>
      var fee := FeeOperations(cfg, cur, block, tx, receipt.value).value;
      var ops := r.value.operations;
      && r.value.hash == tx.hash
      && IndexedFrom(ops, 0)
      && |ops| >= |fee|
      && ops[..|fee|] == fee
      && (block.number.value == 0 ==> ops == fee)
      && (block.number.value != 0 ==> ops[|fee|..] == EmittedOps(cfg, cur, FlattenSpec(trace), |fee|))
  {
    if receipt.None? {
      return Err(ReceiptNotFound);
    }
    var txReceipt := receipt.value;
    if txReceipt.blockHash.None? {
      return Err(ReceiptWithoutBlockHash);
    }
    if txReceipt.blockHash.value != block.hash.value {
      return Err(ReceiptBlockMismatch);
    }

    var operations: seq<Operation> := [];
    var feeOps := FeeOperations(cfg, cur, block, tx, txReceipt);
    if feeOps.Err? {
      return Err(feeOps.error);
    }
    operations := operations + feeOps.value;

    if block.number.value != 0 {
      var traceOps := TraceOperations(cfg, cur, trace, |operations|);
      IndexedFromConcat(operations, traceOps, 0);
      operations := operations + traceOps;
    }
    assert operations[..|feeOps.value|] == feeOps.value;
    return Ok(Transaction(tx.hash, operations));
  }

  /** A transaction in the genesis block carries its fee operations only;
      otherwise every trace operation is numbered after the fee operations,
      so no index is used twice. */
  lemma TraceOpsFollowFees(cfg: ChainConfig, cur: Currency, block: Block, tx: Tx, receipt: Receipt, trace: Trace)
    requires FeeDefined(block, tx, receipt) && FeeInputsPresent(block, tx, receipt)
    ensures var fee := FeeOperations(cfg, cur, block, tx, receipt).value;
      var traceOps := EmittedOps(cfg, cur, FlattenSpec(trace), |fee|);
      && (forall i :: 0 <= i < |traceOps| ==> traceOps[i].index >= |fee|)
      && (forall i, j :: 0 <= i < |fee| && 0 <= j < |traceOps| ==> fee[i].index < traceOps[j].index)
  {
  }
}
