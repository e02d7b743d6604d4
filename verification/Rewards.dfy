/** Distributing a layer's subsidy and fees over the block's recipients by weight, in the
    arithmetic of the source: exact rationals for the shares, 64-bit words for the amounts. */
module Rewards {
  import opened Ids
  import opened Rational
  import opened Words

  type Address = nat

  /** A recipient with its weight as a fraction. */
  datatype BlockReward = BlockReward(coinbase: Address, smesher: NodeID, num: nat, denom: nat)

  datatype Reward = Reward(coinbase: Address, smesher: NodeID, total: nat, layer: nat)

  /** `Crashed` is a division by zero. */
  datatype Outcome =
    | Credited(rewards: seq<Reward>, balances: map<Address, nat>, transferred: nat)
    | Overflow
    | Crashed

  // ---- Shares ----

  ghost predicate Fractions(bs: seq<BlockReward>) {
    forall i :: 0 <= i < |bs| ==> bs[i].denom > 0
  }

  function Weight(b: BlockReward): (w: Fraction)
    requires b.denom > 0
    ensures w.num == 0 <==> b.num == 0
  {
    Norm(b.num, b.denom)
  }

  ghost function TotalWeight(bs: seq<BlockReward>): Fraction
    requires Fractions(bs)
  {
    if bs == [] then Rat(0, 1) else Add(TotalWeight(bs[..|bs| - 1]), Weight(bs[|bs| - 1]))
  }

  ghost predicate Crashes(bs: seq<BlockReward>) {
    !Fractions(bs) || (bs != [] && TotalWeight(bs).num == 0)
  }

  ghost function RewardOf(b: BlockReward, weight: Fraction, total: nat, subsidy: nat): Reward
    requires b.denom > 0 && weight.num > 0
  {
    var relative := Quo(Weight(b), weight);
    Reward(b.coinbase, b.smesher, Share(total, relative), Share(subsidy, relative))
  }

  /** The part of `x` that weight `v` out of `w` is due, before rounding down. */
  ghost function Due(x: nat, v: real, w: real): real
    requires w > 0.0
  {
    x as real * (v / w)
  }

  ghost function SumShares(x: nat, bs: seq<BlockReward>, weight: Fraction): nat
    requires Fractions(bs) && weight.num > 0
  {
    if bs == [] then 0
    else SumShares(x, bs[..|bs| - 1], weight) + Share(x, Quo(Weight(bs[|bs| - 1]), weight))
  }

  lemma DueAdds(x: nat, a: real, b: real, w: real)
    requires w > 0.0
    ensures Due(x, a + b, w) == Due(x, a, w) + Due(x, b, w)
  {
  }

  lemma DueWhole(x: nat, w: real)
    requires w > 0.0
    ensures Due(x, w, w) == x as real
  {
  }

  lemma DueNone(x: nat, w: real)
    requires w > 0.0
    ensures Due(x, 0.0, w) == 0.0
  {
  }

  /** One share is what is due, rounded down. */
  lemma ShareIsDueRounded(x: nat, b: BlockReward, weight: Fraction)
    requires b.denom > 0 && weight.num > 0
    ensures Value(weight) > 0.0
    ensures var s := Share(x, Quo(Weight(b), weight)) as real;
      s <= Due(x, Value(Weight(b)), Value(weight)) < s + 1.0
  {
    hide Norm, Quo, Share, Value, Weight;
    QuoValue(Weight(b), weight);
    ShareBounds(x, Quo(Weight(b), weight));
  }

  /** Rounding loses less than one unit per recipient. */
  lemma {:induction false} SharesNearDue(x: nat, bs: seq<BlockReward>, weight: Fraction)
    requires Fractions(bs) && weight.num > 0
    ensures Value(weight) > 0.0
    ensures var sum, due := SumShares(x, bs, weight) as real, Due(x, Value(TotalWeight(bs)), Value(weight));
      && sum <= due <= sum + |bs| as real
      && (bs != [] ==> due < sum + |bs| as real)
  {
    PositiveValue(weight);
    if bs == [] {
      assert Value(Rat(0, 1)) == 0.0;
      DueNone(x, Value(weight));
    } else {
      hide Norm, Add, Quo, Share, Value, Weight, Due;
      var front, b := bs[..|bs| - 1], bs[|bs| - 1];
      SharesNearDue(x, front, weight);
      AddValue(TotalWeight(front), Weight(b));
      DueAdds(x, Value(TotalWeight(front)), Value(Weight(b)), Value(weight));
      ShareIsDueRounded(x, b, weight);
    }
  }

  /** The shares sum to at most what is shared, and less than one unit per recipient is left. */
  lemma {:induction false} SharesConserve(x: nat, bs: seq<BlockReward>)
    requires Fractions(bs) && bs != [] && TotalWeight(bs).num > 0
    ensures SumShares(x, bs, TotalWeight(bs)) <= x < SumShares(x, bs, TotalWeight(bs)) + |bs|
  {
    var w := TotalWeight(bs);
    SharesNearDue(x, bs, w);
    DueWhole(x, Value(w));
  }

  lemma {:induction false} ShareWithinSum(x: nat, bs: seq<BlockReward>, weight: Fraction, i: nat)
    requires Fractions(bs) && weight.num > 0 && i < |bs|
    ensures Share(x, Quo(Weight(bs[i]), weight)) <= SumShares(x, bs, weight)
  {
    hide Quo, Share, Weight;
    if i < |bs| - 1 {
      ShareWithinSum(x, bs[..|bs| - 1], weight, i);
    }
  }

  lemma {:induction false} SharesMonotone(x: nat, bs: seq<BlockReward>, weight: Fraction, n: nat)
    requires Fractions(bs) && weight.num > 0 && n <= |bs|
    ensures SumShares(x, bs[..n], weight) <= SumShares(x, bs, weight)
  {
    hide Quo, Share, Weight;
    if n == |bs| {
      assert bs[..n] == bs;
    } else {
      SharesMonotone(x, bs[..|bs| - 1], weight, n);
      assert bs[..|bs| - 1][..n] == bs[..n];
    }
  }

  // ---- In numbers ----

  /** The sum of the weights as the numbers they stand for. */
  ghost function SumOfWeights(bs: seq<BlockReward>): real
    requires Fractions(bs)
  {
    if bs == [] then 0.0
    else SumOfWeights(bs[..|bs| - 1]) + bs[|bs| - 1].num as real / bs[|bs| - 1].denom as real
  }

  lemma WeightValue(b: BlockReward)
    requires b.denom > 0
    ensures Value(Weight(b)) == b.num as real / b.denom as real
  {
    NormValue(b.num, b.denom);
  }

  lemma {:induction false} TotalWeightValue(bs: seq<BlockReward>)
    requires Fractions(bs)
    ensures Value(TotalWeight(bs)) == SumOfWeights(bs)
  {
    if bs == [] {
      assert Value(Rat(0, 1)) == 0.0;
    } else {
      hide Norm, Add, Weight, Value;
      var front, b := bs[..|bs| - 1], bs[|bs| - 1];
      TotalWeightValue(front);
      WeightValue(b);
      AddValue(TotalWeight(front), Weight(b));
    }
  }

  /** `r` is for recipient `b`: its part of `total`, and of `subsidy`, by its weight out of `sum`,
      rounded down. */
  ghost predicate PaysByWeight(r: Reward, b: BlockReward, sum: real, total: nat, subsidy: nat) {
    && b.denom > 0 && sum > 0.0
    && r.coinbase == b.coinbase && r.smesher == b.smesher
    && var part := b.num as real / b.denom as real / sum;
       && r.total as real <= total as real * part < r.total as real + 1.0
       && r.layer as real <= subsidy as real * part < r.layer as real + 1.0
  }

  lemma {:induction false} RewardPaysByWeight(b: BlockReward, weight: Fraction, total: nat, subsidy: nat)
    requires b.denom > 0 && weight.num > 0
    ensures PaysByWeight(RewardOf(b, weight, total, subsidy), b, Value(weight), total, subsidy)
  {
    hide Norm, Quo, Share, Value, Weight;
    WeightValue(b);
    ShareIsDueRounded(total, b, weight);
    ShareIsDueRounded(subsidy, b, weight);
  }

  /** Every recipient is paid its weight's part of the whole, rounded down. */
  ghost predicate AllPaidByWeight(rewards: seq<Reward>, bs: seq<BlockReward>, total: nat, subsidy: nat)
    requires Fractions(bs)
  {
    && |rewards| == |bs|
    && forall i :: 0 <= i < |bs| ==> PaysByWeight(rewards[i], bs[i], SumOfWeights(bs), total, subsidy)
  }

  lemma {:induction false} RewardsPayByWeight(rewards: seq<Reward>, bs: seq<BlockReward>, total: nat, subsidy: nat)
    requires Fractions(bs) && bs != [] && TotalWeight(bs).num > 0
    requires AreRewards(rewards, bs, TotalWeight(bs), total, subsidy)
    ensures AllPaidByWeight(rewards, bs, total, subsidy)
  {
    hide Norm, Add, Quo, Share, Value, Weight, TotalWeight, PaysByWeight, RewardOf;
    TotalWeightValue(bs);
    forall i | 0 <= i < |bs|
      ensures PaysByWeight(rewards[i], bs[i], SumOfWeights(bs), total, subsidy)
    {
      RewardPaysByWeight(bs[i], TotalWeight(bs), total, subsidy);
    }
  }

  // ---- Crediting accounts ----

  function Balance(balances: map<Address, nat>, a: Address): nat {
    if a in balances then balances[a] else 0
  }

  /** What the rewards credit to one address, which may be the coinbase of several. */
  ghost function Credit(rewards: seq<Reward>, a: Address): nat {
    if rewards == [] then 0
    else
      var r := rewards[|rewards| - 1];
      Credit(rewards[..|rewards| - 1], a) + if r.coinbase == a then r.total else 0
  }

  ghost function SumRewards(rewards: seq<Reward>): nat {
    if rewards == [] then 0 else SumRewards(rewards[..|rewards| - 1]) + rewards[|rewards| - 1].total
  }

  ghost predicate AreRewards(rewards: seq<Reward>, bs: seq<BlockReward>, weight: Fraction, total: nat, subsidy: nat)
    requires Fractions(bs) && weight.num > 0
  {
    |rewards| == |bs| && forall i :: 0 <= i < |bs| ==> rewards[i] == RewardOf(bs[i], weight, total, subsidy)
  }

  lemma {:induction false} RewardsAreShares(rewards: seq<Reward>, bs: seq<BlockReward>, weight: Fraction,
      total: nat, subsidy: nat)
    requires Fractions(bs) && weight.num > 0 && AreRewards(rewards, bs, weight, total, subsidy)
    ensures SumRewards(rewards) == SumShares(total, bs, weight)
  {
    hide Quo, Share, Weight;
    if bs != [] {
      RewardsAreShares(rewards[..|bs| - 1], bs[..|bs| - 1], weight, total, subsidy);
    }
  }

  /** 64-bit balances after some rewards. */
  ghost predicate CreditedTo(before: map<Address, nat>, after: map<Address, nat>, rewards: seq<Reward>) {
    forall a :: Balance(after, a) == (Balance(before, a) + Credit(rewards, a)) % U64
  }

  lemma CreditLast(rewards: seq<Reward>, r: Reward, a: Address)
    ensures Credit(rewards + [r], a) == Credit(rewards, a) + if r.coinbase == a then r.total else 0
  {
    assert (rewards + [r])[..|rewards + [r]| - 1] == rewards;
  }

  lemma CreditOne(before: map<Address, nat>, after: map<Address, nat>, rewards: seq<Reward>, r: Reward)
    requires CreditedTo(before, after, rewards)
    ensures CreditedTo(before, after[r.coinbase := (Balance(after, r.coinbase) + r.total) % U64], rewards + [r])
  {
    hide Credit;
    var a' := after[r.coinbase := (Balance(after, r.coinbase) + r.total) % U64];
    forall a
      ensures Balance(a', a) == (Balance(before, a) + Credit(rewards + [r], a)) % U64
    {
      CreditLast(rewards, r, a);
      AddWraps(Balance(before, a) + Credit(rewards, a), r.total);
    }
  }

  method SumWeights(bs: seq<BlockReward>) returns (w: Option<Fraction>)
    ensures w.Some? <==> Fractions(bs)
    ensures w.Some? ==> w.value == TotalWeight(bs) && Value(w.value) == SumOfWeights(bs)
  {
    var sum: Fraction := Rat(0, 1);
    for i := 0 to |bs|
      invariant Fractions(bs[..i]) && sum == TotalWeight(bs[..i])
    {
      if bs[i].denom == 0 {
        return None;
      }
      assert bs[..i + 1][..i] == bs[..i];
      sum := Add(sum, Weight(bs[i]));
    }
    assert bs[..|bs|] == bs;
    TotalWeightValue(bs);
    return Some(sum);
  }

  lemma NothingCredited(bs: seq<BlockReward>, weight: Fraction, total: nat, subsidy: nat, balances: map<Address, nat>)
    requires weight.num > 0 && forall a :: a in balances ==> balances[a] < U64
    ensures AreRewards([], bs[..0], weight, total, subsidy) && CreditedTo(balances, balances, [])
    ensures SumRewards([]) == 0
  {
  }

  lemma {:induction false} ShareFitsWord(x: nat, bs: seq<BlockReward>, weight: Fraction, i: nat)
    requires Fractions(bs) && i < |bs| && weight == TotalWeight(bs) && weight.num > 0 && x < U64
    ensures Share(x, Quo(Weight(bs[i]), weight)) < U64
  {
    SharesConserve(x, bs);
    ShareWithinSum(x, bs, weight, i);
  }

  lemma {:induction false} NoTransferWrap(rewards: seq<Reward>, r: Reward, bs: seq<BlockReward>, weight: Fraction,
      total: nat, subsidy: nat, i: nat)
    requires Fractions(bs) && i < |bs| && weight == TotalWeight(bs) && weight.num > 0 && total < U64
    requires Fractions(bs[..i]) && AreRewards(rewards, bs[..i], weight, total, subsidy)
    requires r == RewardOf(bs[i], weight, total, subsidy)
    ensures Fractions(bs[..i + 1]) && AreRewards(rewards + [r], bs[..i + 1], weight, total, subsidy)
    ensures SumRewards(rewards + [r]) == SumRewards(rewards) + r.total < U64
  {
    hide Norm, Quo, Share, Weight, TotalWeight;
    SharesConserve(total, bs);
    SharesMonotone(total, bs, weight, i + 1);
    RewardsAreShares(rewards + [r], bs[..i + 1], weight, total, subsidy);
    assert (rewards + [r])[..|rewards + [r]| - 1] == rewards;
  }

  method CreditAll(subsidy: nat, total: nat, bs: seq<BlockReward>, weight: Fraction, balances: map<Address, nat>)
    returns (o: Outcome)
    requires subsidy < U64 && total < U64
    requires forall a :: a in balances ==> balances[a] < U64
    requires Fractions(bs) && bs != [] && weight == TotalWeight(bs) && weight.num > 0
    ensures o.Credited?
    ensures AreRewards(o.rewards, bs, weight, total, subsidy)
    ensures CreditedTo(balances, o.balances, o.rewards)
    ensures o.transferred == SumRewards(o.rewards)
  {
    hide Norm, Add, Quo, Share, Weight, TotalWeight, CreditedTo, AreRewards, SumRewards, Credit;
    var rewards: seq<Reward>, accounts: map<Address, nat>, transferred: nat := [], balances, 0;
    NothingCredited(bs, weight, total, subsidy, balances);
    for i := 0 to |bs|
      invariant Fractions(bs[..i]) && AreRewards(rewards, bs[..i], weight, total, subsidy)
      invariant CreditedTo(balances, accounts, rewards)
      invariant transferred == SumRewards(rewards)
    {
      var relative := Quo(Weight(bs[i]), weight);
      var totalReward, subsidyReward := Share(total, relative), Share(subsidy, relative);
      ShareFitsWord(total, bs, weight, i);
      ShareFitsWord(subsidy, bs, weight, i);
      if totalReward >= U64 || subsidyReward >= U64 {
        assert false;
        return Overflow;
      }
      var r := Reward(bs[i].coinbase, bs[i].smesher, totalReward, subsidyReward);
      CreditOne(balances, accounts, rewards, r);
      accounts := accounts[r.coinbase := (Balance(accounts, r.coinbase) + r.total) % U64];
      NoTransferWrap(rewards, r, bs, weight, total, subsidy, i);
      transferred := (transferred + r.total) % U64;
      rewards := rewards + [r];
    }
    assert bs[..|bs|] == bs;
    return Credited(rewards, accounts, transferred);
  }

  /** `addRewards`: `subsidy` comes from the emission schedule and `fees` from the layer's
      transactions.  Amounts are 64-bit and wrap. */
  method AddRewards(subsidy: nat, fees: nat, bs: seq<BlockReward>, balances: map<Address, nat>) returns (o: Outcome)
    requires subsidy < U64 && fees < U64
    requires forall a :: a in balances ==> balances[a] < U64
    ensures o.Crashed? <==> Crashes(bs)
    ensures !o.Overflow?
    ensures o.Credited? && bs == [] ==> o == Credited([], balances, 0)
    ensures o.Credited? && bs != [] ==>
      && AreRewards(o.rewards, bs, TotalWeight(bs), (subsidy + fees) % U64, subsidy)
      && AllPaidByWeight(o.rewards, bs, (subsidy + fees) % U64, subsidy)
    ensures o.Credited? ==> CreditedTo(balances, o.balances, o.rewards)
    ensures o.Credited? ==> o.transferred == SumRewards(o.rewards)
  {
    var total := (subsidy + fees) % U64;
    var weight := SumWeights(bs);
    if weight.None? {
      return Crashed;
    }
    if bs == [] {
      return Credited([], balances, 0);
    }
    if weight.value.num == 0 {
      return Crashed;
    }
    o := CreditAll(subsidy, total, bs, weight.value, balances);
    RewardsPayByWeight(o.rewards, bs, total, subsidy);
  }

  // ---- What a layer's distribution means ----

  lemma AddZero(a: Fraction, b: Fraction)
    ensures Add(a, b).num == 0 <==> a.num == 0 && b.num == 0
  {
  }

  lemma {:induction false} WeightZero(bs: seq<BlockReward>)
    requires Fractions(bs)
    ensures TotalWeight(bs).num == 0 <==> forall i :: 0 <= i < |bs| ==> bs[i].num == 0
  {
    if bs != [] {
      hide Norm, Add, Weight;
      var front := bs[..|bs| - 1];
      WeightZero(front);
      AddZero(TotalWeight(front), Weight(bs[|bs| - 1]));
    }
  }

  /** The distribution divides by zero exactly when some weight has a zero denominator or
      every weight of a non-empty list is zero. */
  lemma CrashesIff(bs: seq<BlockReward>)
    ensures Crashes(bs) <==>
      || (exists i :: 0 <= i < |bs| && bs[i].denom == 0)
      || (bs != [] && forall i :: 0 <= i < |bs| ==> bs[i].num == 0)
  {
    if Fractions(bs) {
      WeightZero(bs);
    }
  }

  /** Rewards never exceed what is distributed, and what is burnt is less than one unit per
      recipient. */
  lemma {:induction false} BurnIsRounding(rewards: seq<Reward>, bs: seq<BlockReward>, total: nat, subsidy: nat)
    requires !Crashes(bs) && bs != [] && AreRewards(rewards, bs, TotalWeight(bs), total, subsidy)
    ensures SumRewards(rewards) <= total < SumRewards(rewards) + |bs|
  {
    RewardsAreShares(rewards, bs, TotalWeight(bs), total, subsidy);
    SharesConserve(total, bs);
  }

  /** A recipient's layer part is within its total as long as subsidy plus fees fit 64 bits. */
  lemma {:induction false} LayerWithinTotal(rewards: seq<Reward>, bs: seq<BlockReward>, subsidy: nat, fees: nat, i: nat)
    requires !Crashes(bs) && i < |bs| && AreRewards(rewards, bs, TotalWeight(bs), (subsidy + fees) % U64, subsidy)
    requires subsidy + fees < U64
    ensures rewards[i].layer <= rewards[i].total
  {
    hide Norm, Add, Quo, Share, Weight, TotalWeight;
    ShareMonotone(subsidy, subsidy + fees, Quo(Weight(bs[i]), TotalWeight(bs)));
  }

  /** A sole recipient takes everything, so for it the condition is exact. */
  lemma {:induction false} SoleRecipient(rewards: seq<Reward>, bs: seq<BlockReward>, subsidy: nat, fees: nat)
    requires !Crashes(bs) && |bs| == 1 && AreRewards(rewards, bs, TotalWeight(bs), (subsidy + fees) % U64, subsidy)
    requires subsidy < U64 && fees < U64
    ensures rewards[0].total == (subsidy + fees) % U64 && rewards[0].layer == subsidy
    ensures rewards[0].layer <= rewards[0].total <==> subsidy + fees < U64
  {
    var w := TotalWeight(bs);
    SoleShare((subsidy + fees) % U64, bs);
    SoleShare(subsidy, bs);
    assert rewards[0] == RewardOf(bs[0], w, (subsidy + fees) % U64, subsidy);
  }

  lemma SoleShare(x: nat, bs: seq<BlockReward>)
    requires Fractions(bs) && |bs| == 1 && TotalWeight(bs).num > 0
    ensures Share(x, Quo(Weight(bs[0]), TotalWeight(bs))) == x
  {
    hide Norm, Add, Quo, Share, Weight, TotalWeight;
    var w := TotalWeight(bs);
    SharesConserve(x, bs);
    assert SumShares(x, bs[..0], w) == 0;
  }

  // ---- The ledger ----

  ghost predicate Distinct(addresses: seq<Address>) {
    forall i, j :: 0 <= i < j < |addresses| ==> addresses[i] != addresses[j]
  }

  ghost function Holdings(balances: map<Address, nat>, addresses: seq<Address>): nat {
    if addresses == [] then 0
    else Balance(balances, addresses[0]) + Holdings(balances, addresses[1..])
  }

  ghost function Credits(rewards: seq<Reward>, addresses: seq<Address>): nat {
    if addresses == [] then 0 else Credit(rewards, addresses[0]) + Credits(rewards, addresses[1..])
  }

  lemma {:induction false} CreditsGrow(rewards: seq<Reward>, addresses: seq<Address>)
    requires rewards != [] && Distinct(addresses)
    ensures var front, r := rewards[..|rewards| - 1], rewards[|rewards| - 1];
      Credits(rewards, addresses) == Credits(front, addresses) + if r.coinbase in addresses then r.total else 0
  {
    if addresses != [] {
      CreditsGrow(rewards, addresses[1..]);
    }
  }

  /** Coinbases may repeat: what distinct accounts are credited is what the rewards sum to. */
  lemma {:induction false} CreditsAreRewards(rewards: seq<Reward>, addresses: seq<Address>)
    requires Distinct(addresses) && forall i :: 0 <= i < |rewards| ==> rewards[i].coinbase in addresses
    ensures Credits(rewards, addresses) == SumRewards(rewards)
  {
    if rewards == [] {
      NoCredits(addresses);
    } else {
      CreditsGrow(rewards, addresses);
      CreditsAreRewards(rewards[..|rewards| - 1], addresses);
    }
  }

  lemma {:induction false} NoCredits(addresses: seq<Address>)
    ensures Credits([], addresses) == 0
  {
    if addresses != [] {
      NoCredits(addresses[1..]);
    }
  }

  ghost predicate NoneWraps(before: map<Address, nat>, rewards: seq<Reward>, addresses: seq<Address>) {
    forall i :: 0 <= i < |addresses| ==> Balance(before, addresses[i]) + Credit(rewards, addresses[i]) < U64
  }

  lemma {:induction false} HoldingsGrow(before: map<Address, nat>, after: map<Address, nat>, rewards: seq<Reward>,
      addresses: seq<Address>)
    requires CreditedTo(before, after, rewards)
    ensures Holdings(after, addresses) <= Holdings(before, addresses) + Credits(rewards, addresses)
    ensures Holdings(after, addresses) == Holdings(before, addresses) + Credits(rewards, addresses)
      <==> NoneWraps(before, rewards, addresses)
  {
    if addresses != [] {
      HoldingsGrow(before, after, rewards, addresses[1..]);
      var a := addresses[0];
      assert Balance(after, a) == (Balance(before, a) + Credit(rewards, a)) % U64;
      NoneWrapsSplit(before, rewards, addresses);
    }
  }

  lemma NoneWrapsSplit(before: map<Address, nat>, rewards: seq<Reward>, addresses: seq<Address>)
    requires addresses != []
    ensures NoneWraps(before, rewards, addresses) <==>
      && Balance(before, addresses[0]) + Credit(rewards, addresses[0]) < U64
      && NoneWraps(before, rewards, addresses[1..])
  {
  }

  /** Over any accounts that include every coinbase, the ledger grows by exactly the rewards
      if and only if no balance passes 64 bits. */
  lemma {:induction false} LedgerGrowsByRewards(before: map<Address, nat>, after: map<Address, nat>,
      rewards: seq<Reward>, addresses: seq<Address>)
    requires CreditedTo(before, after, rewards) && Distinct(addresses)
    requires forall i :: 0 <= i < |rewards| ==> rewards[i].coinbase in addresses
    ensures Holdings(after, addresses) <= Holdings(before, addresses) + SumRewards(rewards)
    ensures Holdings(after, addresses) == Holdings(before, addresses) + SumRewards(rewards)
      <==> NoneWraps(before, rewards, addresses)
  {
    CreditsAreRewards(rewards, addresses);
    HoldingsGrow(before, after, rewards, addresses);
  }
}
