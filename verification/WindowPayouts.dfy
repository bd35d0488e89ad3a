/** From the window to the payout: the split the pool dictates is a function of the shares in
    the window and the value alone. */
module WindowPayouts {
  import opened Basics
  import opened ShareWindow
  import opened Weights
  import opened WindowContents
  import opened Split
  import opened SplitInPool

  const MAX_COINBASER_OUTPUTS := 1024

  ghost predicate IsListing(weights: seq<Weight>, held: seq<Share>) {
    AreWeightsOf(weights, held) && NoneIdle(weights, held)
  }

  /** Whatever indices the identities were given, and so in whatever order the window lists
      them, the same shares give the same split; and while the value times each identity's work fits
      in 128 bits its payouts total the whole value, or nothing when nobody in the window reaches
      the minimum. */
  lemma SplitIsAFunctionOfTheWindow(a: seq<Weight>, b: seq<Weight>, held: seq<Share>, value: nat, minPayout: nat, maxOutputs: nat)
    requires IsListing(a, held) && IsListing(b, held)
    ensures SplitInU128(a, value, minPayout, maxOutputs) == SplitInU128(b, value, minPayout, maxOutputs)
    ensures Fits(a, value) ==>
      TotalPaid(SplitInU128(a, value, minPayout, maxOutputs)) ==
        if Keeping(a, value, minPayout, maxOutputs) == [] then 0 else value
  {
    hide Work, Of, Total, Sorting.Sort, SatKept, SatPaying, Keeping, SplitOf, TotalPaid;
    WeightsAreDetermined(a, b, held);
    MoreWorkIsStrictTotalOrder();
    Sorting.SortForgetsOrder(MoreWork, a, b);
    if Fits(a, value) {
      PoolSplitIsExact(a, value, minPayout, maxOutputs);
      SplitConserves(a, value, minPayout, maxOutputs);
    }
  }

  lemma ListsOneEach(weights: seq<Weight>, held: seq<Share>)
    requires AreWeightsOf(weights, held)
    ensures OneEach(weights)
  {
  }

  /** The split of a block's value over the window, less the operator's fee. */
  method SplitValue(contents: Contents, value: nat, feeBps: nat) returns (payouts: seq<Payout>)
    requires contents.Valid() && feeBps <= BASIS_POINTS_PER_UNIT
    ensures forall weights :: IsListing(weights, contents.held) ==>
      payouts == SplitInU128(weights, Sub(value, FeeOn(value, feeBps)), MIN_PAYOUT, MAX_COINBASER_OUTPUTS)
    ensures TotalPaid(payouts) + FeeOn(value, feeBps) <= value
    ensures exists weights, first ::
      IsListing(weights, contents.held)
      && SplitsAmongTheFirst(payouts, first, weights, Sub(value, FeeOn(value, feeBps)), MIN_PAYOUT, MAX_COINBASER_OUTPUTS)
  {
    hide Contents.Valid, AreWeightsOf, NoneIdle, FeeOn, SplitInU128, TotalPaid, SplitsAmongTheFirst;
    FeeAtMostValue(value, feeBps);
    var weights := contents.Weights();
    var minersValue := Sub(value, FeeOn(value, feeBps));
    payouts := SplitWith(weights, minersValue, MIN_PAYOUT, MAX_COINBASER_OUTPUTS);
    assert OneEach(weights) by { ListsOneEach(weights, contents.held); }
    forall other | IsListing(other, contents.held)
      ensures payouts == SplitInU128(other, minersValue, MIN_PAYOUT, MAX_COINBASER_OUTPUTS)
    {
      SplitIsAFunctionOfTheWindow(weights, other, contents.held, minersValue, MIN_PAYOUT, MAX_COINBASER_OUTPUTS);
    }
  }
}
