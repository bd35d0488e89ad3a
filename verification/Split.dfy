/** The split of a value by weights: a sorted prefix is kept, by count and by minimum, and the rounding
    cascades so that no satoshi is lost. */
module Split {
  import opened Weights
  import opened Sorting
  import opened Arithmetic

  const MIN_PAYOUT := 546
  const BASIS_POINTS_PER_UNIT := 10_000
  const U128_MAX := 0xffff_ffff_ffff_ffff_ffff_ffff_ffff_ffff

  datatype Payout = Payout(identity: string, sats: nat)

  function TotalPaid(payouts: seq<Payout>): nat {
    if payouts == [] then 0 else payouts[0].sats + TotalPaid(payouts[1..])
  }

  // ---- The order ----

  /** The order of payment: by work, ties by name. */
  predicate MoreWork(a: Weight, b: Weight) {
    a.work > b.work || (a.work == b.work && NameBefore(a.identity, b.identity))
  }

  lemma MoreWorkIsStrictTotalOrder()
    ensures StrictTotalOrder(MoreWork)
  {
    forall a: Weight, b: Weight | MoreWork(a, b) ensures !MoreWork(b, a) {
      if a.work == b.work {
        NamesAsymmetric(a.identity, b.identity);
      }
    }
    forall a: Weight, b: Weight | a != b ensures MoreWork(a, b) || MoreWork(b, a) {
      if a.work == b.work {
        NamesTotal(a.identity, b.identity);
      }
    }
    forall a: Weight, b: Weight, c: Weight | MoreWork(a, b) && MoreWork(b, c) ensures MoreWork(a, c) {
      if a.work == b.work == c.work {
        NamesTransitive(a.identity, b.identity, c.identity);
      }
    }
  }

  // ---- Who is kept ----

  /** Whether the last of `kept` would be paid at least the minimum. */
  predicate LastMeets(kept: seq<Weight>, value: nat, minPayout: nat) {
    kept != [] && Total(kept) > 0 && value * kept[|kept| - 1].work / Total(kept) >= minPayout
  }

  /** The longest prefix whose last member meets the minimum. */
  function Kept(weights: seq<Weight>, value: nat, minPayout: nat): (kept: seq<Weight>)
    ensures kept <= weights
    ensures kept == [] || LastMeets(kept, value, minPayout)
    ensures forall n :: |kept| < n <= |weights| ==> !LastMeets(weights[..n], value, minPayout)
    decreases |weights|
  {
    assert weights[..|weights|] == weights;
    if weights == [] || LastMeets(weights, value, minPayout) then weights
    else
      var front := weights[..|weights| - 1];
      assert forall n :: 0 <= n <= |front| ==> front[..n] == weights[..n];
      Kept(front, value, minPayout)
  }

  // ---- What each is paid ----

  lemma AmountAtMostLeft(left: nat, w: nat, work: nat)
    requires w <= work && work > 0
    ensures left * w / work <= left
  {
    MulMono(w, work, left);
    FloorMonotone(left * w, left * work, work);
    FloorOfMultiple(left, work);
  }

  /** The part of what is left for `w` of the work left. */
  function Amount(left: nat, w: nat, work: nat): (amount: nat)
    requires w <= work && work > 0
    ensures amount <= left
  {
    AmountAtMostLeft(left, w, work);
    left * w / work
  }

  /** What each of `kept` is given: its part of what is left, out of the work left. */
  function Amounts(kept: seq<Weight>, left: nat, work: nat): (amounts: seq<nat>)
    requires work == Total(kept)
    ensures |amounts| == |kept|
  {
    if kept == [] then []
    else
      TotalDropFirst(kept);
      if work == 0 then [0] + Amounts(kept[1..], left, 0)
      else
        var amount := Amount(left, kept[0].work, work);
        [amount] + Amounts(kept[1..], left - amount, work - kept[0].work)
  }

  function Sum(amounts: seq<nat>): nat {
    if amounts == [] then 0 else amounts[0] + Sum(amounts[1..])
  }

  /** Conservation: the amounts total what there was to divide. */
  lemma {:induction false} AmountsConserve(kept: seq<Weight>, left: nat, work: nat)
    requires work == Total(kept)
    ensures work > 0 ==> Sum(Amounts(kept, left, work)) == left
    ensures work == 0 ==> Sum(Amounts(kept, left, work)) == 0
  {
    if kept != [] {
      TotalDropFirst(kept);
      if work == 0 {
        AmountsConserve(kept[1..], left, 0);
      } else {
        var amount := Amount(left, kept[0].work, work);
        AmountsConserve(kept[1..], left - amount, work - kept[0].work);
        if work == kept[0].work {
          FloorOfMultiple(left, work);
        }
      }
    }
  }

  /** One step of the cascade keeps what is left between its exact share of the value and one
      more for each amount rounded down. */
  lemma CascadeStep(left: nat, w: nat, work: nat, value: nat, whole: nat, i: nat)
    requires w <= work <= whole && 0 < work
    requires value * work <= left * whole <= value * work + i * whole
    ensures var amount := Amount(left, w, work);
      && amount >= value * w / whole
      && amount <= value * w / whole + i
      && amount <= left
      && value * (work - w) <= (left - amount) * whole <= value * (work - w) + (i + 1) * whole
  {
    hide Amount;
    var amount := Amount(left, w, work);
    AmountBounds(left, w, work);
    CascadeLower(left, w, work, value, whole, amount);
    CascadeUpper(left, w, work, value, whole, i, amount);
    CascadeRest(left, w, work, value, whole, i, amount, left * w - amount * work);
  }

  lemma AmountBounds(left: nat, w: nat, work: nat)
    requires w <= work && 0 < work
    ensures var amount := Amount(left, w, work); amount * work <= left * w < amount * work + work
  {
    FloorBounds(left * w, work);
    Distribute(left * w / work, 1, work);
  }

  lemma CascadeLower(left: nat, w: nat, work: nat, value: nat, whole: nat, amount: nat)
    requires 0 < work && 0 < whole && value * work <= left * whole && left * w < amount * work + work
    ensures amount >= value * w / whole
  {
    var exact := value * w / whole;
    FloorBounds(value * w, whole);
    MulMono(exact * whole, value * w, work);
    MulMono(value * work, left * whole, w);
    MulSwap(value, work, w);
    MulSwap(left, whole, w);
    MulSwap(exact, whole, work);
    MulCancel(exact * work, left * w, whole);
    Distribute(amount, 1, work);
    MulCancelStrict(exact, amount + 1, work);
  }

  lemma CascadeUpper(left: nat, w: nat, work: nat, value: nat, whole: nat, i: nat, amount: nat)
    requires w <= work <= whole && 0 < work && amount * work <= left * w
    requires left * whole <= value * work + i * whole
    ensures amount <= value * w / whole + i
  {
    var iw := i * whole;
    MulMono(amount * work, left * w, whole);
    MulMono(left * whole, value * work + iw, w);
    Distribute(value * work, iw, w);
    MulMono(w, work, iw);
    MulSwap(amount, work, whole);
    MulSwap(left, w, whole);
    MulSwap(value, work, w);
    AtMostWithSlack(amount, value * w, whole, i, work);
  }

  lemma AtMostWithSlack(amount: nat, part: nat, whole: nat, i: nat, work: nat)
    requires 0 < work && 0 < whole && (amount * whole) * work <= part * work + (i * whole) * work
    ensures amount <= part / whole + i
  {
    Distribute(part, i * whole, work);
    MulCancel(amount * whole, part + i * whole, work);
    Distribute(amount, i, whole);
    FloorIsLargest(part, whole, amount - i);
  }

  lemma CascadeRest(left: nat, w: nat, work: nat, value: nat, whole: nat, i: nat, amount: nat, rest: nat)
    requires w <= work <= whole && 0 < work && left * w == amount * work + rest && rest < work && amount <= left
    requires value * work <= left * whole <= value * work + i * whole
    ensures value * (work - w) <= (left - amount) * whole <= value * (work - w) + (i + 1) * whole
  {
    var next, scaled := work - w, (left - amount) * whole;
    ScaledRest(left, w, work, whole, amount, rest);
    RestFromBelow(left * whole, next, work, value, rest * whole, scaled);
    MulMono(rest, work, whole);
    RestFromAbove(left * whole, next, work, value, i * whole, rest * whole, whole, scaled);
    Distribute(i, 1, whole);
  }

  lemma ScaledRest(left: nat, w: nat, work: nat, whole: nat, amount: nat, rest: nat)
    requires w <= work && left * w == amount * work + rest
    ensures (left - amount) * whole * work == (left * whole) * (work - w) + rest * whole
  {
    var next := work - w;
    assert left * work == left * w + left * next;
    Distribute(left, amount, work);
    Distribute(left * next, rest, whole);
    assert (left * next) * whole == (left * whole) * next;
    assert (left - amount) * whole * work == ((left - amount) * work) * whole;
  }

  lemma RestFromBelow(share: nat, next: nat, work: nat, value: nat, extra: nat, scaled: int)
    requires work > 0 && value * work <= share && scaled * work == share * next + extra
    ensures value * next <= scaled
  {
    MulMono(value * work, share, next);
    assert (value * work) * next == (value * next) * work;
    MulCancel(value * next, scaled, work);
  }

  lemma RestFromAbove(share: nat, next: nat, work: nat, value: nat, over: nat, extra: nat, whole: nat, scaled: int)
    requires next <= work && work > 0 && share <= value * work + over
    requires scaled * work == share * next + extra && extra <= work * whole
    ensures scaled <= value * next + over + whole
  {
    MulMono(share, value * work + over, next);
    Distribute(value * work, over, next);
    assert (value * work) * next == (value * next) * work;
    MulMono(next, work, over);
    Distribute(value * next + over, whole, work);
    Distribute(value * next, over, work);
    MulCancel(scaled, value * next + over + whole, work);
  }

  /** The error bound: each is paid at least its exact share rounded down, and at most one more
      for each paid before it. */
  lemma {:induction false} AmountsNearExact(kept: seq<Weight>, left: nat, value: nat, whole: nat, i: nat, j: nat)
    requires Total(kept) <= whole && 0 < whole && j < |kept|
    requires value * Total(kept) <= left * whole <= value * Total(kept) + i * whole
    ensures Amounts(kept, left, Total(kept))[j] >= value * kept[j].work / whole
    ensures Amounts(kept, left, Total(kept))[j] <= value * kept[j].work / whole + i + j
    decreases |kept|
  {
    hide Total;
    var work := Total(kept);
    TotalDropFirst(kept);
    if work == 0 {
      NothingWeighed(kept, left, j);
    } else {
      CascadeStep(left, kept[0].work, work, value, whole, i);
      if j > 0 {
        AmountsNearExact(kept[1..], left - Amount(left, kept[0].work, work), value, whole, i + 1, j - 1);
      }
    }
  }

  lemma {:induction false} NothingWeighed(kept: seq<Weight>, left: nat, j: nat)
    requires Total(kept) == 0 && j < |kept|
    ensures kept[j].work == 0 && Amounts(kept, left, 0)[j] == 0
  {
    TotalDropFirst(kept);
    if j > 0 {
      NothingWeighed(kept[1..], left, j - 1);
    }
  }

  // ---- The split ----

  /** Each identity's amount, in order, those of nothing left out. */
  function Paying(kept: seq<Weight>, amounts: seq<nat>): (payouts: seq<Payout>)
    requires |amounts| == |kept|
    ensures TotalPaid(payouts) == Sum(amounts) && |payouts| <= |kept|
  {
    if kept == [] then []
    else
      var rest := Paying(kept[1..], amounts[1..]);
      if amounts[0] == 0 then rest else [Payout(kept[0].identity, amounts[0])] + rest
  }

  function MostWork(weights: seq<Weight>, maxOutputs: nat): seq<Weight> {
    var sorted := Sort(MoreWork, weights);
    if |sorted| > maxOutputs then sorted[..maxOutputs] else sorted
  }

  /** The split: who is kept, and what each is paid. */
  function Keeping(weights: seq<Weight>, value: nat, minPayout: nat, maxOutputs: nat): seq<Weight> {
    Kept(MostWork(weights, maxOutputs), value, minPayout)
  }

  function SplitOf(weights: seq<Weight>, value: nat, minPayout: nat, maxOutputs: nat): seq<Payout> {
    var kept := Keeping(weights, value, minPayout, maxOutputs);
    Paying(kept, Amounts(kept, value, Total(kept)))
  }

  ghost predicate OneEach(weights: seq<Weight>) {
    forall j, k :: 0 <= j < k < |weights| ==> weights[j].identity != weights[k].identity
  }

  /** The first of the weights in the order of payment: some of them, in order, with more work than any
      left out. */
  ghost predicate FirstOf(first: seq<Weight>, weights: seq<Weight>) {
    && Sorted(MoreWork, first)
    && (forall w <- first :: w in weights)
    && (forall w <- weights, f <- first :: w in first || MoreWork(f, w))
  }

  /** As many as there may be outputs are kept, and they are those with the most work. */
  lemma MostWorkIsFirst(weights: seq<Weight>, maxOutputs: nat)
    requires OneEach(weights)
    ensures |MostWork(weights, maxOutputs)| == if |weights| < maxOutputs then |weights| else maxOutputs
    ensures FirstOf(MostWork(weights, maxOutputs), weights)
  {
    hide MoreWork, Sort;
    MoreWorkIsStrictTotalOrder();
    SortSorts(MoreWork, weights);
    var sorted, most := Sort(MoreWork, weights), MostWork(weights, maxOutputs);
    PrefixIsFirst(most, sorted, weights);
  }

  lemma PrefixIsFirst(first: seq<Weight>, sorted: seq<Weight>, weights: seq<Weight>)
    requires first <= sorted && Sorted(MoreWork, sorted) && SameItems(weights, sorted)
    ensures FirstOf(first, weights)
  {
    hide MoreWork;
    forall w, f | w in weights && f in first && w !in first ensures MoreWork(f, w) {
      var i :| 0 <= i < |first| && first[i] == f;
      assert w in sorted;
      var j :| 0 <= j < |sorted| && sorted[j] == w;
      assert j >= |first|;
    }
    forall w | w in first ensures w in weights {
      assert w in sorted;
    }
  }

  /** A prefix of the first is the first still. */
  lemma PrefixOfFirst(kept: seq<Weight>, first: seq<Weight>, weights: seq<Weight>)
    requires kept <= first && FirstOf(first, weights)
    ensures FirstOf(kept, weights)
  {
    hide MoreWork;
    forall w, f | w in weights && f in kept && w !in kept ensures MoreWork(f, w) {
      var i :| 0 <= i < |kept| && kept[i] == f;
      assert f in first;
      if w in first {
        var j :| 0 <= j < |first| && first[j] == w;
        assert j >= |kept|;
      }
    }
    forall w | w in kept ensures w in weights {
      assert w in first;
    }
  }

  /** Nobody is left out of the split who has more work than someone kept in it. */
  lemma KeptHaveTheMostWork(weights: seq<Weight>, value: nat, minPayout: nat, maxOutputs: nat)
    requires OneEach(weights)
    ensures |Keeping(weights, value, minPayout, maxOutputs)| <= maxOutputs
    ensures FirstOf(Keeping(weights, value, minPayout, maxOutputs), weights)
  {
    hide MostWork, FirstOf;
    MostWorkIsFirst(weights, maxOutputs);
    PrefixOfFirst(Keeping(weights, value, minPayout, maxOutputs), MostWork(weights, maxOutputs), weights);
  }

  /** Nothing is lost: if anyone is kept the amounts are the whole value, and the remainder is
      otherwise all of it. */
  lemma SplitConserves(weights: seq<Weight>, value: nat, minPayout: nat, maxOutputs: nat)
    ensures TotalPaid(SplitOf(weights, value, minPayout, maxOutputs)) ==
      if Keeping(weights, value, minPayout, maxOutputs) == [] then 0 else value
  {
    var kept := Keeping(weights, value, minPayout, maxOutputs);
    AmountsConserve(kept, value, Total(kept));
  }

  /** The kept are ordered by work, so what the last would be paid bounds what each is. */
  lemma KeptMeetTheMinimum(weights: seq<Weight>, value: nat, minPayout: nat, maxOutputs: nat, j: nat)
    requires OneEach(weights)
    requires j < |Keeping(weights, value, minPayout, maxOutputs)|
    ensures var kept := Keeping(weights, value, minPayout, maxOutputs);
      Total(kept) > 0 && value * kept[j].work / Total(kept) >= minPayout
  {
    hide Kept, Total, MostWork;
    var kept := Keeping(weights, value, minPayout, maxOutputs);
    KeptInOrder(MostWork(weights, maxOutputs), kept, j) by {
      MostWorkIsFirst(weights, maxOutputs);
    }
    var last := kept[|kept| - 1];
    MulMono(last.work, kept[j].work, value);
    FloorMonotone(value * last.work, value * kept[j].work, Total(kept));
  }

  lemma KeptInOrder(most: seq<Weight>, kept: seq<Weight>, j: nat)
    requires Sorted(MoreWork, most) && kept <= most && j < |kept|
    ensures kept[j].work >= kept[|kept| - 1].work
  {
    assert j < |kept| - 1 ==> MoreWork(most[j], most[|kept| - 1]);
  }

  /** Everyone kept is paid, at least the minimum and at least their exact share rounded down,
      and at most one satoshi more for each identity before them. */
  lemma SplitIsFair(weights: seq<Weight>, value: nat, minPayout: nat, maxOutputs: nat, j: nat)
    requires OneEach(weights) && j < |Keeping(weights, value, minPayout, maxOutputs)|
    ensures var kept := Keeping(weights, value, minPayout, maxOutputs);
      var amount := Amounts(kept, value, Total(kept))[j];
      && amount >= minPayout
      && value * kept[j].work / Total(kept) <= amount <= value * kept[j].work / Total(kept) + j
    ensures minPayout > 0 ==>
      var kept := Keeping(weights, value, minPayout, maxOutputs);
      var paid := SplitOf(weights, value, minPayout, maxOutputs);
      |paid| == |kept| && paid[j] == Payout(kept[j].identity, Amounts(kept, value, Total(kept))[j])
  {
    hide Kept, Total, Sort;
    var kept := Keeping(weights, value, minPayout, maxOutputs);
    var amounts := Amounts(kept, value, Total(kept));
    forall k: nat | k < |kept|
      ensures amounts[k] >= minPayout
      ensures value * kept[k].work / Total(kept) <= amounts[k] <= value * kept[k].work / Total(kept) + k
    {
      KeptMeetTheMinimum(weights, value, minPayout, maxOutputs, k);
      AmountsNearExact(kept, value, value, Total(kept), 0, k);
    }
    if minPayout > 0 {
      PayingAll(kept, amounts);
    }
  }

  lemma {:induction false} PayingAll(kept: seq<Weight>, amounts: seq<nat>)
    requires |amounts| == |kept| && forall k :: 0 <= k < |amounts| ==> amounts[k] > 0
    ensures |Paying(kept, amounts)| == |kept|
    ensures forall k :: 0 <= k < |kept| ==> Paying(kept, amounts)[k] == Payout(kept[k].identity, amounts[k])
  {
    if kept != [] {
      PayingAll(kept[1..], amounts[1..]);
    }
  }

  /** Whoever has more work than someone paid is paid, when there is a minimum to reach. */
  lemma NobodyPaidIsOutranked(weights: seq<Weight>, value: nat, minPayout: nat, maxOutputs: nat, p: Payout)
    requires OneEach(weights) && minPayout > 0 && p in SplitOf(weights, value, minPayout, maxOutputs)
    ensures exists w <- weights ::
      w.identity == p.identity && PaysAllBefore(SplitOf(weights, value, minPayout, maxOutputs), weights, w)
  {
    hide MoreWork, Kept, Total, MostWork, Keeping, SplitOf;
    var kept, paid := Keeping(weights, value, minPayout, maxOutputs), SplitOf(weights, value, minPayout, maxOutputs);
    KeptHaveTheMostWork(weights, value, minPayout, maxOutputs);
    AllKeptArePaid(weights, value, minPayout, maxOutputs);
    var j :| 0 <= j < |paid| && paid[j] == p;
    var w := kept[j];
    assert w in kept;
    forall v | v in weights && MoreWork(v, w) ensures Pays(paid, v.identity) {
      if v !in kept {
        assert MoreWork(w, v);
        MoreWorkIsStrictTotalOrder();
      } else {
        var k :| 0 <= k < |kept| && kept[k] == v;
        assert paid[k].identity == v.identity;
      }
    }
  }

  ghost predicate PaysAllBefore(paid: seq<Payout>, weights: seq<Weight>, w: Weight) {
    forall v <- weights :: MoreWork(v, w) ==> Pays(paid, v.identity)
  }

  predicate Pays(paid: seq<Payout>, identity: string) { exists p <- paid :: p.identity == identity }

  lemma PaysAtMostTheKept(weights: seq<Weight>, value: nat, minPayout: nat, maxOutputs: nat)
    ensures |SplitOf(weights, value, minPayout, maxOutputs)| <= |Keeping(weights, value, minPayout, maxOutputs)|
  {
    hide Keeping, Paying, Amounts;
    var kept := Keeping(weights, value, minPayout, maxOutputs);
    assert |Paying(kept, Amounts(kept, value, Total(kept)))| <= |kept|;
  }

  lemma AllKeptArePaid(weights: seq<Weight>, value: nat, minPayout: nat, maxOutputs: nat)
    requires OneEach(weights) && minPayout > 0
    ensures var kept, paid := Keeping(weights, value, minPayout, maxOutputs), SplitOf(weights, value, minPayout, maxOutputs);
      |paid| == |kept| && forall j :: 0 <= j < |kept| ==> paid[j].identity == kept[j].identity
  {
    hide Kept, Total, MostWork, Keeping, SplitOf, Amounts;
    var kept, paid := Keeping(weights, value, minPayout, maxOutputs), SplitOf(weights, value, minPayout, maxOutputs);
    forall j | 0 <= j < |kept| ensures |paid| == |kept| && paid[j].identity == kept[j].identity {
      SplitIsFair(weights, value, minPayout, maxOutputs, j);
    }
    if kept == [] {
      PaysAtMostTheKept(weights, value, minPayout, maxOutputs);
    } else {
      SplitIsFair(weights, value, minPayout, maxOutputs, 0);
    }
  }

  /** Two listings of the same weights split alike. */
  lemma SplitForgetsOrder(a: seq<Weight>, b: seq<Weight>, value: nat, minPayout: nat, maxOutputs: nat)
    requires OneEach(a) && OneEach(b) && forall w :: w in a <==> w in b
    ensures SplitOf(a, value, minPayout, maxOutputs) == SplitOf(b, value, minPayout, maxOutputs)
  {
    hide Kept, Total, Amounts, Paying;
    MoreWorkIsStrictTotalOrder();
    SortForgetsOrder(MoreWork, a, b);
  }
}
