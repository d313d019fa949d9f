/** The fee operations of one Ethereum transaction (EIP-1559 fee market):
    the sender pays the miner what lies above the base fee, and the base-fee
    part is burned. */
module EthFees {
  import opened Rosetta
  import opened EthTypes

  /** Type-2 (fee market) transactions pay base fee plus priority fee (zero
      when absent); every other type pays its declared gas price. */
  function EffectivePrice(txType: nat, baseFee: nat, gasPrice: nat, priority: Option<nat>): nat {
    if txType == 2 then baseFee + priority.GetOr(0) else gasPrice
  }

  /** Every field the fee computation demands is present. */
  predicate FeeInputsPresent(block: Block, tx: Tx, receipt: Receipt) {
    && block.author.Some? && block.baseFee.Some?
    && tx.txType.Some? && tx.gasPrice.Some?
    && receipt.gasUsed.Some?
  }

  function FeePrice(block: Block, tx: Tx): nat
    requires block.baseFee.Some? && tx.txType.Some? && tx.gasPrice.Some?
  {
    EffectivePrice(tx.txType.value, block.baseFee.value, tx.gasPrice.value, tx.maxPriorityFee)
  }

  /** The unsigned subtraction `fee_amount - fee_burned` does not underflow. */
  predicate FeeDefined(block: Block, tx: Tx, receipt: Receipt) {
    FeeInputsPresent(block, tx, receipt) ==>
      receipt.gasUsed.value * FeePrice(block, tx) >= receipt.gasUsed.value * block.baseFee.value
  }

  function FeeOp(cfg: ChainConfig, cur: Currency, index: int, related: Option<seq<int>>,
                 account: Address, negative: bool, magnitude: nat): Operation
  {
    Operation(index, related, cfg.feeType, Some(Success), Some(account),
              Some(Amount(negative, magnitude, cur)), None)
  }

  /** `get_fee_operations`: two or three fee operations, or the first missing
      field as an error. */
  function FeeOperations(cfg: ChainConfig, cur: Currency, block: Block, tx: Tx, receipt: Receipt)
    : (r: Result<seq<Operation>, EthError>)
    requires FeeDefined(block, tx, receipt)
    ensures r.Ok? <==> FeeInputsPresent(block, tx, receipt)
    ensures block.author.None? ==> r == Err(NoAuthor)
    ensures block.author.Some? && block.baseFee.None? ==> r == Err(NoBaseFee)
    ensures block.author.Some? && block.baseFee.Some? && tx.txType.None? ==> r == Err(NoTxType)
    ensures (block.author.Some? && block.baseFee.Some? && tx.txType.Some? && tx.gasPrice.None?)
              ==> r == Err(NoGasPrice)
    ensures (block.author.Some? && block.baseFee.Some? && tx.txType.Some? && tx.gasPrice.Some?
             && receipt.gasUsed.None?) ==> r == Err(NoGasUsed)
    ensures r.Ok? ==>
      var ops := r.value;
      var used := receipt.gasUsed.value;
      var burned := used * block.baseFee.value;
      var earned := used * FeePrice(block, tx) - burned;
      && |ops| == (if burned == 0 then 2 else 3)
      && IndexedFrom(ops, 0)
      && (forall i :: 0 <= i < |ops| ==>
            ops[i].kind == cfg.feeType && ops[i].status == Some(Success) && ops[i].metadata.None?)
      && ops[0].account == Some(tx.from) && ops[0].related.None?
      && ops[0].amount == Some(Amount(true, earned, cur))
      && ops[1].account == block.author && ops[1].related == Some([0])
      && ops[1].amount == Some(Amount(false, earned, cur))
      && (|ops| == 3 ==>
            ops[2].account == Some(tx.from) && ops[2].related.None?
            && ops[2].amount == Some(Amount(true, burned, cur)))
  {
    if block.author.None? then Err(NoAuthor)
    else if block.baseFee.None? then Err(NoBaseFee)
    else if tx.txType.None? then Err(NoTxType)
    else if tx.gasPrice.None? then Err(NoGasPrice)
    else if receipt.gasUsed.None? then Err(NoGasUsed)
    else
      var miner := block.author.value;
      var baseFee := block.baseFee.value;
      var gasUsed := receipt.gasUsed.value;
      var feeAmount := gasUsed * FeePrice(block, tx);
      var feeBurned := gasUsed * baseFee;
      var minerEarned := feeAmount - feeBurned;
      var firstOp := FeeOp(cfg, cur, 0, None, tx.from, true, minerEarned);
      var secondOp := FeeOp(cfg, cur, 1, Some([0]), miner, false, minerEarned);
      if feeBurned != 0 then
        Ok([firstOp, secondOp, FeeOp(cfg, cur, 2, None, tx.from, true, feeBurned)])
      else
        Ok([firstOp, secondOp])
  }

  /** The sum of the signed amounts of the operations on `account`. */
  function NetOf(ops: seq<Operation>, account: Address): int {
    if ops == [] then 0
    else (if ops[0].account == Some(account) then SignedValue(ops[0].amount) else 0)
           + NetOf(ops[1..], account)
  }

  /** The signed amounts of all operations added up. */
  function Net(ops: seq<Operation>): int {
    if ops == [] then 0 else SignedValue(ops[0].amount) + Net(ops[1..])
  }

  /** The sender is debited the whole fee `gas_used * price` (when it is not
      also the miner), and all fee operations together remove exactly the
      burned part `gas_used * base_fee` from circulation. */
  lemma FeeConservation(cfg: ChainConfig, cur: Currency, block: Block, tx: Tx, receipt: Receipt)
    requires FeeDefined(block, tx, receipt) && FeeInputsPresent(block, tx, receipt)
    ensures var ops := FeeOperations(cfg, cur, block, tx, receipt).value;
      && Net(ops) == -(receipt.gasUsed.value * block.baseFee.value)
      && (block.author.value != tx.from ==>
            NetOf(ops, tx.from) == -(receipt.gasUsed.value * FeePrice(block, tx)))
  {
    var ops := FeeOperations(cfg, cur, block, tx, receipt).value;
    var used, base := receipt.gasUsed.value, block.baseFee.value;
    var fee := used * FeePrice(block, tx);
    var earned := fee - used * base;
    var tail := ops[2..];
    assert ops[1..][1..] == tail;
    if |ops| == 3 {
      assert tail[1..] == [];
      assert Net(tail) == -(used * base);
      assert block.author.value != tx.from ==> NetOf(tail, tx.from) == -(used * base);
    } else {
      assert tail == [] && used * base == 0;
    }
    assert Net(ops) == -(earned as int) + earned as int + Net(tail);
    assert block.author.value != tx.from ==> NetOf(ops, tx.from) == -(earned as int) + NetOf(tail, tx.from);
  }

  /** For a fee-market transaction the miner earns exactly the priority fee
      on every unit of gas. */
  lemma MinerEarnsPriorityFee(cfg: ChainConfig, cur: Currency, block: Block, tx: Tx, receipt: Receipt)
    requires FeeDefined(block, tx, receipt) && FeeInputsPresent(block, tx, receipt)
    requires tx.txType.value == 2
    ensures FeeOperations(cfg, cur, block, tx, receipt).value[1].amount
            == Some(Amount(false, receipt.gasUsed.value * tx.maxPriorityFee.GetOr(0), cur))
  {
    var used := receipt.gasUsed.value;
    var base := block.baseFee.value;
    var tip := tx.maxPriorityFee.GetOr(0);
    calc {
      used * FeePrice(block, tx) - used * base;
      used * (base + tip) - used * base;
      { assert used * (base + tip) == used * base + used * tip; }
      used * tip;
    }
  }

  /** A legacy transaction with 21000 gas at price 20 under base fee 10:
      miner +210000, sender -210000 twice. */
  lemma LegacyFeeExample(cfg: ChainConfig, cur: Currency)
    ensures var r := FeeOperations(cfg, cur, Block(Some(1), Some("h"), Some("m"), Some(10)),
                                    Tx("t", "s", Some(20), None, Some(0)), Receipt(Some("h"), Some(21000)));
      && r.Ok? && |r.value| == 3
      && r.value[0].amount == Some(Amount(true, 210000, cur))
      && r.value[1].amount == Some(Amount(false, 210000, cur))
      && r.value[2].amount == Some(Amount(true, 210000, cur))
  {
  }

  /** A fee-market transaction with 21000 gas, base fee 10 and priority fee 5:
      miner +105000, burn -210000. */
  lemma MarketFeeExample(cfg: ChainConfig, cur: Currency)
    ensures var r := FeeOperations(cfg, cur, Block(Some(1), Some("h"), Some("m"), Some(10)),
                                    Tx("t", "s", Some(0), Some(5), Some(2)), Receipt(Some("h"), Some(21000)));
      && r.Ok? && |r.value| == 3
      && r.value[0].amount == Some(Amount(true, 105000, cur))
      && r.value[1].amount == Some(Amount(false, 105000, cur))
      && r.value[2].amount == Some(Amount(true, 210000, cur))
  {
  }
}
