/** The synthetic block-reward transaction: a mining reward for the block's
    author and one uncle reward per uncle. */
module EthRewards {
  import opened Rosetta
  import opened EthTypes

  /** The reward of the latest fork active at block `n`: Constantinople if
      it is, else Byzantium if it is, else Frontier. */
  function BaseReward(cfg: ChainConfig, n: nat): (r: nat)
    ensures cfg.constantinopleBlock <= n ==> r == cfg.constantinopleReward
    ensures cfg.byzantiumBlock <= n < cfg.constantinopleBlock ==> r == cfg.byzantiumReward
    ensures n < cfg.byzantiumBlock && n < cfg.constantinopleBlock ==> r == cfg.frontierReward
  {
    if cfg.constantinopleBlock <= n then cfg.constantinopleReward
    else if cfg.byzantiumBlock <= n then cfg.byzantiumReward
    else cfg.frontierReward
  }

  /** The miner's reward; a block with uncles gets `r + (r / multiplier) * r`. */
  function MiningReward(cfg: ChainConfig, n: nat, hasUncles: bool): nat
    requires cfg.uncleRewardMultiplier > 0
  {
    var r := BaseReward(cfg, n);
    if hasUncles then r + (r / cfg.uncleRewardMultiplier) * r else r
  }

  /** The reward of an uncle at height `un` included at height `n`:
      `(un + depth - n) * (reward / depth)`. */
  function UncleReward(cfg: ChainConfig, n: nat, un: nat, reward: nat): nat
    requires cfg.maxUncleDepth > 0
    requires un + cfg.maxUncleDepth >= n
  {
    (un + cfg.maxUncleDepth - n) * (reward / cfg.maxUncleDepth)
  }

  function RewardOp(cur: Currency, kind: string, index: int, account: Address, amount: nat): Operation {
    Operation(index, None, kind, Some(Success), Some(account), Some(Amount(false, amount, cur)), None)
  }

  predicate UncleComplete(u: Uncle) {
    u.author.Some? && u.number.Some?
  }

  /** Uncle `k` is the first one with a missing field. */
  predicate FirstIncomplete(uncles: seq<Uncle>, k: int) {
    0 <= k < |uncles| && !UncleComplete(uncles[k]) && forall j :: 0 <= j < k ==> UncleComplete(uncles[j])
  }

  /** The unsigned `uncle_number + depth - n` does not underflow for any
      uncle the loop reaches with both fields present. */
  predicate UncleNumbersDefined(uncles: seq<Uncle>, n: nat, depth: nat) {
    forall k :: 0 <= k < |uncles| && UncleComplete(uncles[k])
      && (forall j :: 0 <= j < k ==> UncleComplete(uncles[j]))
      ==> uncles[k].number.value + depth >= n
  }

  /** `block_reward_transaction` over the fetched uncles. */
  method BlockRewardTransaction(cfg: ChainConfig, cur: Currency, block: Block, uncles: seq<Uncle>)
    returns (r: Result<Transaction, EthError>)
    requires cfg.maxUncleDepth > 0 && cfg.uncleRewardMultiplier > 0
    requires block.number.Some? && block.hash.Some? ==> block.author.Some?
    requires block.number.Some? ==> UncleNumbersDefined(uncles, block.number.value, cfg.maxUncleDepth)
    ensures block.number.None? ==> r == Err(MissingBlockNumber)
    ensures block.number.Some? && block.hash.None? ==> r == Err(MissingBlockHash)
    ensures r.Ok? <==>
      block.number.Some? && block.hash.Some? && forall k :: 0 <= k < |uncles| ==> UncleComplete(uncles[k])
    ensures (r.Err? && block.number.Some? && block.hash.Some?) ==>
      exists k :: FirstIncomplete(uncles, k)
        && r.error == (if uncles[k].author.None? then UncleWithoutAuthor else UncleWithoutNumber)
    ensures r.Ok? ==>
      var n := block.number.value;
      var reward := MiningReward(cfg, n, |uncles| > 0);
      var ops := r.value.operations;
      && r.value.hash == block.hash.value
      && |ops| == |uncles| + 1
      && IndexedFrom(ops, 0)
      && ops[0] == RewardOp(cur, cfg.miningRewardType, 0, block.author.value, reward)
      && forall k :: 0 <= k < |uncles| ==>
           ops[k + 1] == RewardOp(cur, cfg.uncleRewardType, k + 1, uncles[k].author.value,
                                  UncleReward(cfg, n, uncles[k].number.value, reward))
  {
    if block.number.None? {
      return Err(MissingBlockNumber);
    }
    var blockNumber := block.number.value;
    if block.hash.None? {
      return Err(MissingBlockHash);
    }
    var miner := block.author.value;

    var miningReward := cfg.frontierReward;
    if cfg.byzantiumBlock <= blockNumber {
      miningReward := cfg.byzantiumReward;
    }
    if cfg.constantinopleBlock <= blockNumber {
      miningReward := cfg.constantinopleReward;
    }
    if |uncles| != 0 {
      miningReward := miningReward + (miningReward / cfg.uncleRewardMultiplier) * miningReward;
    }
    assert miningReward == MiningReward(cfg, blockNumber, |uncles| > 0);

    var operations := [RewardOp(cur, cfg.miningRewardType, 0, miner, miningReward)];
    for k := 0 to |uncles|
      invariant |operations| == k + 1
      invariant forall j :: 0 <= j < k ==> UncleComplete(uncles[j])
      invariant IndexedFrom(operations, 0)
      invariant operations[0] == RewardOp(cur, cfg.miningRewardType, 0, miner, miningReward)
      invariant forall j :: 0 <= j < k ==>
        operations[j + 1] == RewardOp(cur, cfg.uncleRewardType, j + 1, uncles[j].author.value,
                                      UncleReward(cfg, blockNumber, uncles[j].number.value, miningReward))
    {
      var uncle := uncles[k];
      if uncle.author.None? {
        assert FirstIncomplete(uncles, k);
        return Err(UncleWithoutAuthor);
      }
      if uncle.number.None? {
        assert FirstIncomplete(uncles, k);
        return Err(UncleWithoutNumber);
      }
      var uncleNumber := uncle.number.value;
      var uncleReward := UncleReward(cfg, blockNumber, uncleNumber, miningReward);
      operations := operations + [RewardOp(cur, cfg.uncleRewardType, |operations|, uncle.author.value, uncleReward)];
    }
    return Ok(Transaction(block.hash.value, operations));
  }

  /** A block without uncles pays its miner exactly the fork's base reward;
      with uncles the boost never lowers it, and adds nothing when the base
      reward is below the multiplier. */
  lemma MiningRewardBoost(cfg: ChainConfig, n: nat)
    requires cfg.uncleRewardMultiplier > 0
    ensures MiningReward(cfg, n, false) == BaseReward(cfg, n)
    ensures MiningReward(cfg, n, true) >= BaseReward(cfg, n)
    ensures MiningReward(cfg, n, true) == BaseReward(cfg, n) <==>
      BaseReward(cfg, n) < cfg.uncleRewardMultiplier || BaseReward(cfg, n) == 0
  {
    var r := BaseReward(cfg, n);
    var m := cfg.uncleRewardMultiplier;
    if r >= m && r != 0 {
      assert r / m >= 1;
      assert (r / m) * r >= r by {
        MulMonotone(1, r / m, r);
      }
    }
  }

  lemma MulMonotone(a: nat, b: nat, c: nat)
    requires a <= b
    ensures a * c <= b * c
  {
  }

  /** An uncle never earns more than the miner's reward, provided it is not
      newer than the block that includes it. */
  lemma UncleRewardBounded(cfg: ChainConfig, n: nat, un: nat, reward: nat)
    requires cfg.maxUncleDepth > 0
    requires un + cfg.maxUncleDepth >= n && un <= n
    ensures UncleReward(cfg, n, un, reward) <= reward
  {
    var d := cfg.maxUncleDepth;
    var q := reward / d;
    MulMonotone(un + d - n, d, q);
    assert d * q <= reward;
  }

  /** Of two uncles included in the same block, the more recent one earns
      at least as much. */
  lemma UncleRewardMonotone(cfg: ChainConfig, n: nat, older: nat, newer: nat, reward: nat)
    requires cfg.maxUncleDepth > 0
    requires older + cfg.maxUncleDepth >= n && older <= newer
    ensures UncleReward(cfg, n, older, reward) <= UncleReward(cfg, n, newer, reward)
  {
    MulMonotone(older + cfg.maxUncleDepth - n, newer + cfg.maxUncleDepth - n, reward / cfg.maxUncleDepth);
  }
}
