/** The coinbase of a block template: what it pays out, and the weight that is kept free for it. */
module Coinbase {
  import opened Types
  import opened Bytes
  import opened LinkedSets
  import opened TotalsSums
  import opened PoolTxs
  import opened PoolProposal
  import opened Mempools

  const ONE_BTC: nat := 100_000_000
  const INITIAL_SUBSIDY: nat := 50 * ONE_BTC
  const SUBSIDY_HALVING_INTERVAL: nat := 210_000
  const REGTEST_HALVING_INTERVAL: nat := 150
  const MAX_MONEY: nat := 21_000_000 * ONE_BTC

  datatype Network = Bitcoin | Testnet | Signet | Regtest

  function HalvingInterval(network: Network): (interval: nat)
    ensures interval > 0
  {
    if network == Regtest then REGTEST_HALVING_INTERVAL else SUBSIDY_HALVING_INTERVAL
  }

  function Halved(amount: nat, times: nat): nat {
    if times == 0 then amount else Halved(amount, times - 1) / 2
  }

  /** The new coins of a block. */
  function Subsidy(height: nat, interval: nat): nat
    requires interval > 0
  {
    if height / interval >= 64 then 0 else Halved(INITIAL_SUBSIDY, height / interval)
  }

  function GetBlockReward(height: nat, fees: nat, network: Network): nat {
    fees + Subsidy(height, HalvingInterval(network))
  }

  lemma {:induction false} HalvedIs(amount: nat, times: nat)
    ensures Pow2(times) > 0 && Halved(amount, times) == amount / Pow2(times)
  {
    if times > 0 {
      HalvedIs(amount, times - 1);
      DivHalves(amount, Pow2(times - 1));
    }
  }

  lemma DivHalves(n: nat, d: nat)
    requires d > 0
    ensures n / (2 * d) == n / d / 2
  {
    var q, low := n / d / 2, if n / d % 2 == 0 then n % d else d + n % d;
    assert n / d == 2 * q + n / d % 2;
    Regrouped(n, d, n / d, q);
    DivMod(n, 2 * d, q, low);
  }

  lemma Regrouped(n: nat, d: nat, m: nat, q: nat)
    requires d > 0 && m == n / d
    ensures m == 2 * q ==> n == q * (2 * d) + n % d
    ensures m == 2 * q + 1 ==> n == q * (2 * d) + (d + n % d)
  {
    assert n == m * d + n % d;
    assert (2 * q) * d == q * (2 * d);
    assert (2 * q + 1) * d == (2 * q) * d + d;
  }

  lemma {:induction false} PowGrows(k: nat)
    requires k >= 64
    ensures Pow2(k) > 5_000_000_000
  {
    if k == 64 {
      assert Pow2(8) == 256 by { Pow2Eight(); }
      assert Pow2(16) == 65_536 by { assert Pow2(12) == 4096; }
      assert Pow2(24) == 16_777_216 by { assert Pow2(20) == 1_048_576; }
      assert Pow2(33) == 8_589_934_592 by { assert Pow2(28) == 268_435_456; }
      PowOrder(33, 64);
    } else {
      PowGrows(k - 1);
    }
  }

  lemma {:induction false} PowOrder(i: nat, j: nat)
    requires i <= j
    ensures Pow2(i) <= Pow2(j)
  {
    if i < j { PowOrder(i, j - 1); }
  }

  /** A block earns its fees and 50 coins halved every 210,000 blocks, or every 150 on a regression test network. */
  lemma RewardIs(height: nat, fees: nat, network: Network)
    ensures
      var era := height / if network == Regtest then 150 else 210_000;
      Pow2(era) > 0 && GetBlockReward(height, fees, network) == fees + 5_000_000_000 / Pow2(era)
  {
    hide Pow2, Halved;
    var era := height / if network == Regtest then 150 else 210_000;
    HalvedIs(INITIAL_SUBSIDY, era);
    if era >= 64 {
      PowGrows(era);
    }
  }

  // ---------------------------------------------------------------- supply

  /** All coins created below a height. */
  ghost function Supply(height: nat, interval: nat): nat
    requires interval > 0
  {
    if height == 0 then 0 else Supply(height - 1, interval) + Subsidy(height - 1, interval)
  }

  /** The subsidy after `k` halvings, for every `k`. */
  ghost function SubsidyAfter(k: nat): nat {
    if k >= 64 then 0 else Halved(INITIAL_SUBSIDY, k)
  }

  lemma HalvesAtLeast(k: nat)
    ensures 2 * SubsidyAfter(k + 1) <= SubsidyAfter(k)
  {
  }

  lemma NextHeight(height: nat, interval: nat)
    requires interval > 0
    ensures
      || ((height + 1) / interval == height / interval && (height + 1) % interval == height % interval + 1)
      || ((height + 1) / interval == height / interval + 1 && (height + 1) % interval == 0
          && height % interval == interval - 1)
  {
    var k, r := height / interval, height % interval;
    assert height == k * interval + r;
    if r + 1 < interval {
      DivMod(height + 1, interval, k, r + 1);
    } else {
      assert height + 1 == (k + 1) * interval;
      DivMod(height + 1, interval, k + 1, 0);
    }
  }

  /** At any height, what was created and what the current subsidy can still create twice over stays bounded. */
  lemma {:induction false} SupplyBound(height: nat, interval: nat)
    requires interval > 0
    ensures Supply(height, interval) + (2 * interval - height % interval) * SubsidyAfter(height / interval)
            <= 2 * interval * INITIAL_SUBSIDY
    decreases height
  {
    if height == 0 {
      DivMod(0, interval, 0, 0);
    } else {
      SupplyBound(height - 1, interval);
      SupplyStep(height - 1, interval);
    }
  }

  lemma SupplyStep(height: nat, interval: nat)
    requires interval > 0
    ensures Supply(height + 1, interval)
            + (2 * interval - (height + 1) % interval) * SubsidyAfter((height + 1) / interval)
            <= Supply(height, interval) + (2 * interval - height % interval) * SubsidyAfter(height / interval)
  {
    NextHeight(height, interval);
    var k, r, s := height / interval, height % interval, SubsidyAfter(height / interval);
    if (height + 1) / interval == k {
      SameSubsidy(2 * interval, r, s);
    } else {
      HalvesAtLeast(k);
      HalvedSubsidy(interval, s, SubsidyAfter(k + 1));
    }
  }

  lemma SameSubsidy(n: int, r: nat, s: nat)
    ensures (n - (r + 1)) * s + s == (n - r) * s
  {
  }

  lemma HalvedSubsidy(interval: nat, s: nat, t: nat)
    requires interval > 0 && 2 * t <= s
    ensures (2 * interval - 0) * t + s <= (2 * interval - (interval - 1)) * s
  {
    MulOrder(interval, 2 * t, s);
    assert 2 * interval * t == interval * (2 * t);
    assert (2 * interval - (interval - 1)) * s == interval * s + s;
  }

  lemma MulOrder(a: nat, b: nat, c: nat)
    requires b <= c
    ensures a * b <= a * c
  {
  }

  /** However long the chain, the subsidies never add up to more than 21 million coins. */
  lemma SupplyIsCapped(height: nat)
    ensures Supply(height, HalvingInterval(Bitcoin)) <= MAX_MONEY
  {
    SupplyBound(height, SUBSIDY_HALVING_INTERVAL);
    var left: nat := 2 * SUBSIDY_HALVING_INTERVAL - height % SUBSIDY_HALVING_INTERVAL;
    MulOrder(left, 0, SubsidyAfter(height / SUBSIDY_HALVING_INTERVAL));
  }

  // ---------------------------------------------------------------- the coinbase outputs

  /** An output: its value and the length of its script. */
  datatype TxOut = TxOut(value: nat, spkLen: nat)

  ghost function SumValues(outs: seq<TxOut>): nat {
    if outs == [] then 0 else SumValues(outs[..|outs| - 1]) + outs[|outs| - 1].value
  }

  ghost function SumFees(fees: seq<int>): int {
    if fees == [] then 0 else SumFees(fees[..|fees| - 1]) + fees[|fees| - 1]
  }

  datatype FinalizeError =
    | CoinbaseRewardUnderflow
    | FeeOverflow
    | NegativeTxFee(txIndex: nat)
    | RewardOverflow

  datatype Finalized = Final(outputs: seq<TxOut>) | FinalizeFailed(error: FinalizeError)

  // An OP_RETURN with a push of the 4-byte header and the 32-byte commitment, see BIP141 "Commitment structure".
  const WITNESS_COMMITMENT_SPK_LEN: nat := 38

  lemma SumFeesStep(fees: seq<int>, i: nat)
    requires i < |fees|
    ensures SumFees(fees[..i + 1]) == SumFees(fees[..i]) + fees[i]
  {
    assert fees[..i + 1][..i] == fees[..i];
  }

  lemma {:induction false} SumFeesGrows(fees: seq<int>, i: nat)
    requires i <= |fees| && forall j :: 0 <= j < |fees| ==> fees[j] >= 0
    ensures SumFees(fees[..i]) <= SumFees(fees)
    decreases |fees|
  {
    if i < |fees| {
      SumFeesGrows(fees[..|fees| - 1], i);
      assert fees[..|fees| - 1][..i] == fees[..i];
    } else {
      assert fees[..i] == fees;
    }
  }

  lemma SumValuesStep(outs: seq<TxOut>, i: nat)
    requires i < |outs|
    ensures SumValues(outs[..i + 1]) == SumValues(outs[..i]) + outs[i].value
  {
    assert outs[..i + 1][..i] == outs[..i];
  }

  lemma {:induction false} SumValuesGrows(outs: seq<TxOut>, i: nat)
    requires i <= |outs|
    ensures SumValues(outs[..i]) <= SumValues(outs)
    decreases |outs|
  {
    if i < |outs| {
      SumValuesGrows(outs[..|outs| - 1], i);
      assert outs[..|outs| - 1][..i] == outs[..i];
    } else {
      assert outs[..i] == outs;
    }
  }

  lemma SumValuesMore(outs: seq<TxOut>, o: TxOut)
    ensures SumValues(outs + [o]) == SumValues(outs) + o.value
  {
    assert (outs + [o])[..|outs|] == outs;
  }

  /** The fees add up, or the first fee that is negative or makes the sum overflow is reported. */
  method SumTxFees(fees: seq<int>) returns (r: int, failure: Option<FinalizeError>)
    ensures failure.None? ==> r == SumFees(fees) <= U64_MAX && forall i :: 0 <= i < |fees| ==> fees[i] >= 0
    ensures failure.None? ==> r >= 0
    ensures failure.Some? ==> !((forall i :: 0 <= i < |fees| ==> fees[i] >= 0) && SumFees(fees) <= U64_MAX)
    ensures failure.Some? ==>
              exists i :: 0 <= i < |fees| && (forall j :: 0 <= j < i ==> fees[j] >= 0) && SumFees(fees[..i]) <= U64_MAX
                && ((failure.value == NegativeTxFee(i) && fees[i] < 0)
                    || (failure.value == FeeOverflow && fees[i] >= 0 && SumFees(fees[..i + 1]) > U64_MAX))
  {
    r := 0;
    for i := 0 to |fees|
      invariant 0 <= r <= U64_MAX && r == SumFees(fees[..i]) && forall j :: 0 <= j < i ==> fees[j] >= 0
    {
      SumFeesStep(fees, i);
      if fees[i] < 0 {
        return r, Some(NegativeTxFee(i));
      }
      if r + fees[i] > U64_MAX {
        if forall j :: 0 <= j < |fees| ==> fees[j] >= 0 {
          SumFeesGrows(fees, i + 1);
        }
        return r, Some(FeeOverflow);
      }
      r := r + fees[i];
    }
    assert fees[..|fees|] == fees;
    failure := None;
  }

  /** No fee is negative, no sum overflows, and the given outputs are covered by the reward. */
  ghost predicate Payable(height: nat, network: Network, txouts: seq<TxOut>, fees: seq<int>) {
    && (forall i :: 0 <= i < |fees| ==> fees[i] >= 0) && SumFees(fees) <= U64_MAX
    && SumValues(txouts) <= Subsidy(height, HalvingInterval(network)) + SumFees(fees) <= U64_MAX
  }

  /** The outputs given, then a payout of what is left if anything is, then the witness commitment. */
  ghost predicate FinalOutputs(txouts: seq<TxOut>, payoutSpkLen: nat, left: nat, network: Network, outputs: seq<TxOut>) {
    outputs == txouts + (if 0 < left then [TxOut(left, payoutSpkLen)] else [])
               + (if network == Signet then [] else [TxOut(0, WITNESS_COMMITMENT_SPK_LEN)])
  }

  lemma NoValues(txouts: seq<TxOut>)
    ensures SumValues(txouts[..0]) == 0
  {
  }

  lemma FinalSum(txouts: seq<TxOut>, payoutSpkLen: nat, left: nat, network: Network, outputs: seq<TxOut>)
    requires FinalOutputs(txouts, payoutSpkLen, left, network, outputs)
    ensures SumValues(outputs) == SumValues(txouts) + left
  {
    hide SumValues;
    var paid := txouts + (if 0 < left then [TxOut(left, payoutSpkLen)] else []);
    if 0 < left { SumValuesMore(txouts, TxOut(left, payoutSpkLen)); } else { assert paid == txouts; }
    if network != Signet { SumValuesMore(paid, TxOut(0, WITNESS_COMMITMENT_SPK_LEN)); } else { assert outputs == paid; }
  }

  /** The outputs of the coinbase are worth exactly the subsidy and the fees. */
  method FinalizeCoinbaseTx(payoutSpkLen: nat, height: nat, network: Network, txouts: seq<TxOut>, fees: seq<int>)
    returns (r: Finalized)
    ensures r.Final? ==> SumValues(r.outputs) == Subsidy(height, HalvingInterval(network)) + SumFees(fees)
    ensures r.Final? ==>
              && SumValues(txouts) <= SumValues(r.outputs)
              && FinalOutputs(txouts, payoutSpkLen, SumValues(r.outputs) - SumValues(txouts), network, r.outputs)
    ensures r.Final? <==> Payable(height, network, txouts, fees)
    ensures r == FinalizeFailed(CoinbaseRewardUnderflow) ==>
              SumValues(txouts) > Subsidy(height, HalvingInterval(network)) + SumFees(fees)
  {
    hide Subsidy, HalvingInterval, SumValues, SumFees;
    NoValues(txouts);
    var feeSum, failure := SumTxFees(fees);
    if failure.Some? {
      return FinalizeFailed(failure.value);
    }
    var reward := GetBlockReward(height, feeSum, network);
    if reward > U64_MAX {
      return FinalizeFailed(RewardOverflow);
    }
    var left := reward;
    for i := 0 to |txouts|
      invariant 0 <= left && left + SumValues(txouts[..i]) == reward
    {
      SumValuesStep(txouts, i);
      SumValuesGrows(txouts, i + 1);
      if left < txouts[i].value {
        return FinalizeFailed(CoinbaseRewardUnderflow);
      }
      left := left - txouts[i].value;
    }
    assert txouts[..|txouts|] == txouts;
    var outputs := txouts;
    if left > 0 {
      outputs := outputs + [TxOut(left, payoutSpkLen)];
    }
    if network != Signet {
      outputs := outputs + [TxOut(0, WITNESS_COMMITMENT_SPK_LEN)];
    }
    FinalSum(txouts, payoutSpkLen, left, network, outputs);
    return Final(outputs);
  }

  // ---------------------------------------------------------------- weight

  /** Length of a compact size, the encoding of counts and lengths. */
  function CompactSizeLen(n: nat): nat {
    if n < 0xFD then 1 else if n <= 0xFFFF then 3 else if n <= 0xFFFF_FFFF then 5 else 9
  }

  function TxOutWeight(o: TxOut): nat {
    WITNESS_SCALE_FACTOR * (8 + CompactSizeLen(o.spkLen) + o.spkLen)
  }

  ghost function OutsWeight(outs: seq<TxOut>): nat {
    if outs == [] then 0 else OutsWeight(outs[..|outs| - 1]) + TxOutWeight(outs[|outs| - 1])
  }

  /** Bytes of a positive number pushed by a script: little endian, with the top bit of the last byte free. */
  function ScriptNumLen(n: nat): nat {
    if n < 0x80 then 1 else if n < 0x8000 then 2 else if n < 0x80_0000 then 3 else if n < 0x8000_0000 then 4 else 5
  }

  /** Length of the script that commits to the height, see BIP34 "Specification": at least two bytes. */
  function Bip34ScriptLen(height: nat): nat {
    if height <= 16 then 2 else 1 + ScriptNumLen(height)
  }

  /** The reservation for the script holds exactly below height 2^23. */
  lemma HeightScriptFits(height: nat)
    ensures Bip34ScriptLen(height) <= 4 <==> height < 0x80_0000
  {
  }

  /** Serialized weight of the coinbase: version, markers, one input with its witness, the outputs, lock time. */
  ghost function CoinbaseWeight(height: nat, outputs: seq<TxOut>): nat {
    WITNESS_SCALE_FACTOR * (4 + 1 + (36 + 1 + Bip34ScriptLen(height) + 4) + CompactSizeLen(|outputs|) + 4)
    + OutsWeight(outputs) + 2 + (1 + 1 + 32)
  }

  ghost function BlockWeight(height: nat, outputs: seq<TxOut>, txCount: nat, txsWeight: nat): nat {
    WITNESS_SCALE_FACTOR * (80 + CompactSizeLen(1 + txCount)) + CoinbaseWeight(height, outputs) + txsWeight
  }

  /** What `MAX_USABLE_BLOCK_WEIGHT` leaves out is all that a block weighs without outputs and txs, at its largest. */
  lemma OverheadReserved(height: nat, outputs: seq<TxOut>, txCount: nat, txsWeight: nat)
    requires height < 0x80_0000 && |outputs| < 0xFD && 1 + txCount <= 0xFFFF
    ensures MAX_USABLE_BLOCK_WEIGHT + BlockWeight(height, outputs, txCount, txsWeight) <=
            MAX_BLOCK_WEIGHT + OutsWeight(outputs) + txsWeight
    ensures 0x8000 <= height && 0xFD <= 1 + txCount ==>
              MAX_USABLE_BLOCK_WEIGHT + BlockWeight(height, outputs, txCount, txsWeight) ==
              MAX_BLOCK_WEIGHT + OutsWeight(outputs) + txsWeight
  {
  }

  ghost function SumWeights(weights: seq<nat>): nat {
    if weights == [] then 0 else SumWeights(weights[..|weights| - 1]) + weights[|weights| - 1]
  }

  const COMMITMENT_TXOUT_WEIGHT: nat := WITNESS_SCALE_FACTOR * 8 + WITNESS_SCALE_FACTOR * 39

  /** The weight set aside for the coinbase outputs: those given, the commitment, and the payout. */
  ghost function ReservedOuts(txouts: seq<TxOut>, payoutSpkLen: nat): nat {
    OutsWeight(txouts) + COMMITMENT_TXOUT_WEIGHT + TxOutWeight(TxOut(MAX_MONEY, payoutSpkLen))
  }

  /** Adds weights one by one, unless the sum leaves the range of a u64. */
  method SumChecked(weights: seq<nat>) returns (r: Option<nat>)
    ensures r == if SumWeights(weights) <= U64_MAX then Some(SumWeights(weights)) else None
  {
    var sum: nat := 0;
    for i := 0 to |weights|
      invariant sum == SumWeights(weights[..i]) <= U64_MAX
    {
      assert weights[..i + 1][..i] == weights[..i];
      SumWeightsGrows(weights, i + 1);
      sum := sum + weights[i];
      if sum > U64_MAX {
        return None;
      }
    }
    assert weights[..|weights|] == weights;
    return Some(sum);
  }

  lemma {:induction false} SumWeightsGrows(weights: seq<nat>, i: nat)
    requires i <= |weights|
    ensures SumWeights(weights[..i]) <= SumWeights(weights)
    decreases |weights|
  {
    if i < |weights| {
      SumWeightsGrows(weights[..|weights| - 1], i);
      assert weights[..|weights| - 1][..i] == weights[..i];
    } else {
      assert weights[..i] == weights;
    }
  }

  lemma {:induction false} OutsAsWeights(txouts: seq<TxOut>)
    ensures SumWeights(seq(|txouts|, i requires 0 <= i < |txouts| => TxOutWeight(txouts[i]))) == OutsWeight(txouts)
  {
    var weights := seq(|txouts|, i requires 0 <= i < |txouts| => TxOutWeight(txouts[i]));
    if txouts != [] {
      var front := txouts[..|txouts| - 1];
      OutsAsWeights(front);
      assert weights[..|weights| - 1] == seq(|front|, i requires 0 <= i < |front| => TxOutWeight(front[i]));
    }
  }

  /** The limit handed to the mempool: what is usable less what the initial template and the coinbase outputs take. */
  method ProposalLimit(txouts: seq<TxOut>, payoutSpkLen: nat, prefix: seq<nat>, suffix: seq<nat>)
    returns (limit: Option<nat>)
    ensures
      var taken := ReservedOuts(txouts, payoutSpkLen) + SumWeights(prefix) + SumWeights(suffix);
      && (limit.Some? ==> limit.value == SaturatingSub(MAX_USABLE_BLOCK_WEIGHT, taken))
      && (limit.None? ==> taken > U64_MAX)
  {
    hide SumWeights, OutsWeight;
    OutsAsWeights(txouts);
    var outs := SumChecked(seq(|txouts|, i requires 0 <= i < |txouts| => TxOutWeight(txouts[i])));
    var before := SumChecked(prefix);
    var after := SumChecked(suffix);
    if outs.None? || before.None? || after.None? {
      return None;
    }
    var outsWeight := outs.value + COMMITMENT_TXOUT_WEIGHT + TxOutWeight(TxOut(MAX_MONEY, payoutSpkLen));
    if outsWeight + before.value > U64_MAX || outsWeight + before.value + after.value > U64_MAX {
      return None;
    }
    return Some(SaturatingSub(MAX_USABLE_BLOCK_WEIGHT, outsWeight + before.value + after.value));
  }

  /** Weight of pool transactions, by their serialized size. */
  ghost function ListWeight(pool: Txs, chosen: seq<Txid>): nat
    requires forall t :: t in chosen ==> t in pool
  {
    if chosen == [] then 0 else
    ListWeight(pool, chosen[..|chosen| - 1]) + pool[chosen[|chosen| - 1]].tx.weight
  }

  /** No tx was given a modified weight below its own: the enforcer's weight tweaks are not negative. */
  ghost predicate TweaksNotNegative(pool: Txs, chosen: seq<Txid>) {
    forall t :: t in chosen ==> t in pool && pool[t].tx.weight <= pool[t].info.own.weight
  }

  lemma {:induction false} ListWithinBudget(pool: Txs, chosen: seq<Txid>)
    requires Distinct(chosen) && TweaksNotNegative(pool, chosen)
    ensures ListWeight(pool, chosen) <= Sum(Elements(chosen), Own(pool)).weight
    decreases |chosen|
  {
    hide Sum;
    if chosen != [] {
      var front, last := chosen[..|chosen| - 1], chosen[|chosen| - 1];
      assert chosen == front + [last];
      ListWithinBudget(pool, front);
      assert Elements(chosen) == Elements(front) + {last} && last !in Elements(front);
      SumInsert(Elements(front), Own(pool), last);
    }
  }

  /** The finished outputs weigh no more than was set aside for them. */
  lemma OutputsWithinReserve(txouts: seq<TxOut>, payoutSpkLen: nat, network: Network, left: nat, outputs: seq<TxOut>)
    requires FinalOutputs(txouts, payoutSpkLen, left, network, outputs)
    ensures OutsWeight(outputs) <= ReservedOuts(txouts, payoutSpkLen)
  {
    var paid := txouts + (if 0 < left then [TxOut(left, payoutSpkLen)] else []);
    if 0 < left { OutsWeightMore(txouts, TxOut(left, payoutSpkLen)); } else { assert paid == txouts; }
    if network != Signet {
      OutsWeightMore(paid, TxOut(0, WITNESS_COMMITMENT_SPK_LEN));
    } else {
      assert outputs == paid;
    }
  }

  lemma OutsWeightMore(outs: seq<TxOut>, o: TxOut)
    ensures OutsWeight(outs + [o]) == OutsWeight(outs) + TxOutWeight(o)
  {
    assert (outs + [o])[..|outs|] == outs;
  }

  /** The assembled block, with a proposal of the mempool between the template's prefix and its final suffix, weighs
      at most what a block may weigh. */
  lemma AssembledBlockFits(height: nat, network: Network, txouts: seq<TxOut>, payoutSpkLen: nat, left: nat,
                           outputs: seq<TxOut>, prefix: seq<nat>, suffix: seq<nat>, finalSuffix: seq<nat>,
                           pool: Txs, chosen: seq<Txid>, remaining: nat)
    requires height < 0x80_0000 && |outputs| < 0xFD && 1 + |prefix| + |chosen| + |finalSuffix| <= 0xFFFF
    requires FinalOutputs(txouts, payoutSpkLen, left, network, outputs)
    requires SumWeights(finalSuffix) <= SumWeights(suffix)
    requires ReservedOuts(txouts, payoutSpkLen) + SumWeights(prefix) + SumWeights(suffix) <= MAX_USABLE_BLOCK_WEIGHT
    requires Distinct(chosen) && TweaksNotNegative(pool, chosen)
    requires Budget(pool, chosen, remaining,
                    UsableLimit(Some(SaturatingSub(MAX_USABLE_BLOCK_WEIGHT,
                                                   ReservedOuts(txouts, payoutSpkLen) + SumWeights(prefix)
                                                   + SumWeights(suffix)))))
    ensures BlockWeight(height, outputs, |prefix| + |chosen| + |finalSuffix|,
                        SumWeights(prefix) + ListWeight(pool, chosen) + SumWeights(finalSuffix)) <= MAX_BLOCK_WEIGHT
  {
    hide *;
    var taken: nat := ReservedOuts(txouts, payoutSpkLen) + SumWeights(prefix) + SumWeights(suffix);
    BudgetMeans(pool, chosen, remaining, taken);
    ChosenPooled(pool, chosen);
    ListWithinBudget(pool, chosen);
    OutputsWithinReserve(txouts, payoutSpkLen, network, left, outputs);
    OverheadReserved(height, outputs, |prefix| + |chosen| + |finalSuffix|,
                     SumWeights(prefix) + ListWeight(pool, chosen) + SumWeights(finalSuffix));
  }

  lemma ChosenPooled(pool: Txs, chosen: seq<Txid>)
    requires TweaksNotNegative(pool, chosen)
    ensures forall t :: t in chosen ==> t in pool
  {
  }

  lemma BudgetMeans(pool: Txs, chosen: seq<Txid>, remaining: nat, taken: nat)
    requires Budget(pool, chosen, remaining, UsableLimit(Some(SaturatingSub(MAX_USABLE_BLOCK_WEIGHT, taken))))
    requires taken <= MAX_USABLE_BLOCK_WEIGHT
    ensures Sum(Elements(chosen), Own(pool)).weight + taken <= MAX_USABLE_BLOCK_WEIGHT
  {
    hide Sum, Elements, Own;
  }
}
