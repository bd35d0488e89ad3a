/** The split as the pool computes it, in loops over 128-bit products, the operator's fee, and
    the scaling of what a short coinbase left owed. */
module SplitInPool {
  import opened Arithmetic
  import opened Weights
  import opened Sorting
  import opened Split

  /** A product of the pool's 128-bit integers. */
  function SatMul(a: nat, b: nat): nat { if a * b > U128_MAX then U128_MAX else a * b }

  predicate SatLastMeets(kept: seq<Weight>, value: nat, minPayout: nat) {
    kept != [] && Total(kept) > 0 && SatMul(value, kept[|kept| - 1].work) / Total(kept) >= minPayout
  }

  /** `Kept` with products that saturate, as the pool's do. */
  function SatKept(weights: seq<Weight>, value: nat, minPayout: nat): (kept: seq<Weight>)
    ensures kept <= weights
  {
    if weights == [] || Total(weights) == 0 then []
    else if SatLastMeets(weights, value, minPayout) then weights
    else SatKept(weights[..|weights| - 1], value, minPayout)
  }

  /** It is the longest prefix whose last meets the minimum. */
  lemma {:induction false} SatKeptIsLongest(weights: seq<Weight>, value: nat, minPayout: nat)
    ensures var kept := SatKept(weights, value, minPayout);
      && (kept == [] || SatLastMeets(kept, value, minPayout))
      && (forall n :: |kept| < n <= |weights| ==> !SatLastMeets(weights[..n], value, minPayout))
  {
    hide SatLastMeets;
    assert weights[..|weights|] == weights;
    if Total(weights) == 0 {
      forall n: nat | n <= |weights| ensures !SatLastMeets(weights[..n], value, minPayout) {
        NoWork(weights, n);
        NotMet(weights[..n], value, minPayout);
      }
    } else if !SatLastMeets(weights, value, minPayout) {
      var front := weights[..|weights| - 1];
      assert forall n :: 0 <= n <= |front| ==> front[..n] == weights[..n];
      SatKeptIsLongest(front, value, minPayout);
    }
  }

  lemma NotMet(kept: seq<Weight>, value: nat, minPayout: nat)
    requires Total(kept) == 0
    ensures !SatLastMeets(kept, value, minPayout)
  {
  }

  lemma {:induction false} NoWork(weights: seq<Weight>, n: nat)
    requires n <= |weights| && Total(weights) == 0
    ensures Total(weights[..n]) == 0
  {
    if n < |weights| {
      var front := weights[..|weights| - 1];
      assert front[..n] == weights[..n];
      NoWork(front, n);
    } else {
      assert weights[..n] == weights;
    }
  }

  lemma SatAtMostLeft(left: nat, w: nat, work: nat)
    requires w <= work && work > 0
    ensures SatMul(left, w) / work <= left
  {
    AmountAtMostLeft(left, w, work);
    FloorMonotone(SatMul(left, w), left * w, work);
  }

  /** What is paid for `w` of the work left, out of the value left. */
  function SatAmount(left: nat, w: nat, work: nat): (amount: nat)
    requires w <= work && work > 0
    ensures amount <= left
  {
    SatAtMostLeft(left, w, work);
    SatMul(left, w) / work
  }

  function SatPaying(kept: seq<Weight>, left: nat, work: nat): seq<Payout>
    requires work == Total(kept)
  {
    if kept == [] || work == 0 then []
    else
      TotalDropFirst(kept);
      var amount := SatAmount(left, kept[0].work, work);
      var rest := SatPaying(kept[1..], left - amount, work - kept[0].work);
      if amount == 0 then rest else [Payout(kept[0].identity, amount)] + rest
  }

  function SplitInU128(weights: seq<Weight>, value: nat, minPayout: nat, maxOutputs: nat): seq<Payout> {
    var kept := SatKept(MostWork(weights, maxOutputs), value, minPayout);
    SatPaying(kept, value, Total(kept))
  }

  // ---- When saturation does not matter ----

  /** The value times each identity's work fits in 128 bits. No product of either loop is larger. */
  ghost predicate Fits(weights: seq<Weight>, value: nat) {
    forall w <- weights :: value * w.work <= U128_MAX
  }

  lemma ProductFits(left: nat, value: nat, w: nat)
    requires left <= value && value * w <= U128_MAX
    ensures SatMul(left, w) == left * w
  {
    MulMono(left, value, w);
  }

  lemma {:induction false} KeptFits(weights: seq<Weight>, value: nat, minPayout: nat)
    requires Fits(weights, value)
    ensures SatKept(weights, value, minPayout) == Kept(weights, value, minPayout)
  {
    hide SatMul;
    if weights != [] {
      var front, last := weights[..|weights| - 1], weights[|weights| - 1];
      ProductFits(value, value, last.work);
      KeptFits(front, value, minPayout);
      if Total(weights) == 0 {
        assert Total(front) == 0;
        KeptNobody(front, value, minPayout);
      }
    }
  }

  lemma {:induction false} KeptNobody(weights: seq<Weight>, value: nat, minPayout: nat)
    requires Total(weights) == 0
    ensures Kept(weights, value, minPayout) == []
  {
    if weights != [] {
      KeptNobody(weights[..|weights| - 1], value, minPayout);
    }
  }

  lemma AmountFits(left: nat, value: nat, w: nat, work: nat)
    requires w <= work && work > 0 && left <= value && value * w <= U128_MAX
    ensures SatAmount(left, w, work) == Amount(left, w, work)
  {
    ProductFits(left, value, w);
  }

  /** One payout, and the rest from what it leaves. */
  function WithPayout(identity: string, amount: nat, rest: seq<Payout>): seq<Payout> {
    if amount == 0 then rest else [Payout(identity, amount)] + rest
  }

  lemma PayingFirst(kept: seq<Weight>, left: nat, work: nat)
    requires kept != [] && work == Total(kept) && work > 0
    ensures kept[0].work <= work && work - kept[0].work == Total(kept[1..])
    ensures var amount := Amount(left, kept[0].work, work);
      Paying(kept, Amounts(kept, left, work)) ==
        WithPayout(kept[0].identity, amount, Paying(kept[1..], Amounts(kept[1..], left - amount, work - kept[0].work)))
  {
    hide Total, Amount;
    TotalDropFirst(kept);
    var amount := Amount(left, kept[0].work, work);
    assert Amounts(kept, left, work)[1..] == Amounts(kept[1..], left - amount, work - kept[0].work);
  }

  lemma SatPayingFirst(kept: seq<Weight>, left: nat, work: nat)
    requires kept != [] && work == Total(kept) && work > 0
    ensures kept[0].work <= work && work - kept[0].work == Total(kept[1..])
    ensures var amount := SatAmount(left, kept[0].work, work);
      SatPaying(kept, left, work) ==
        WithPayout(kept[0].identity, amount, SatPaying(kept[1..], left - amount, work - kept[0].work))
  {
    hide Total, SatAmount;
    TotalDropFirst(kept);
  }

  lemma {:induction false} PayingFits(kept: seq<Weight>, left: nat, work: nat, value: nat)
    requires work == Total(kept) && left <= value && Fits(kept, value)
    ensures SatPaying(kept, left, work) == Paying(kept, Amounts(kept, left, work))
  {
    if kept == [] || work == 0 {
      PayingNobody(kept, left);
    } else {
      hide Total, SatAmount, Amount, SatPaying, Paying, Amounts;
      PayingFirst(kept, left, work);
      SatPayingFirst(kept, left, work);
      AmountFits(left, value, kept[0].work, work);
      PayingFits(kept[1..], left - Amount(left, kept[0].work, work), work - kept[0].work, value);
    }
  }

  lemma {:induction false} PayingNobody(kept: seq<Weight>, left: nat)
    requires Total(kept) == 0
    ensures Paying(kept, Amounts(kept, left, 0)) == []
  {
    if kept != [] {
      TotalDropFirst(kept);
      PayingNobody(kept[1..], left);
      assert Amounts(kept, left, 0)[1..] == Amounts(kept[1..], left, 0);
    }
  }

  lemma MostWorkIsOfThem(weights: seq<Weight>, maxOutputs: nat)
    ensures forall w <- MostWork(weights, maxOutputs) :: w in weights
  {
    SortKeepsItems(MoreWork, weights);
    ItemsOf(weights, Sort(MoreWork, weights));
  }

  /** While the value times each identity's work fits in 128 bits the pool's split is the exact
      one. */
  lemma PoolSplitIsExact(weights: seq<Weight>, value: nat, minPayout: nat, maxOutputs: nat)
    requires Fits(weights, value)
    ensures SplitInU128(weights, value, minPayout, maxOutputs) == SplitOf(weights, value, minPayout, maxOutputs)
  {
    hide MostWork, Total, SatKept, SatPaying, Paying, Amounts, SatMul;
    MostWorkIsOfThem(weights, maxOutputs);
    var most := MostWork(weights, maxOutputs);
    KeptFits(most, value, minPayout);
    var kept := Kept(most, value, minPayout);
    PayingFits(kept, value, Total(kept), value);
  }

  // ---- When the whole value is paid ----

  /** The product the cascade divides for the last identity with work. */
  function LastProduct(kept: seq<Weight>, left: nat): nat
    requires Total(kept) > 0
  {
    TotalDropFirst(kept);
    if kept[0].work == Total(kept) then left * kept[0].work
    else LastProduct(kept[1..], left - SatAmount(left, kept[0].work, Total(kept)))
  }

  lemma LastIsPaidTheRestIff(left: nat, w: nat)
    requires w > 0
    ensures SatAmount(left, w, w) == left <==> left * w <= U128_MAX
  {
    FloorOfMultiple(left, w);
    FloorBounds(U128_MAX, w);
  }

  /** Earlier products that saturate only move what is paid to those after; the last decides whether
      anything is lost. */
  lemma {:induction false} CascadePaysAllIff(kept: seq<Weight>, left: nat)
    requires Total(kept) > 0
    ensures TotalPaid(SatPaying(kept, left, Total(kept))) == left <==> LastProduct(kept, left) <= U128_MAX
  {
    hide SatAmount;
    var work := Total(kept);
    TotalDropFirst(kept);
    var amount := SatAmount(left, kept[0].work, work);
    if kept[0].work == work {
      LastIsPaidTheRestIff(left, work);
      assert SatPaying(kept[1..], left - amount, 0) == [];
    } else {
      CascadePaysAllIff(kept[1..], left - amount);
    }
  }

  lemma {:induction false} KeptHaveWork(weights: seq<Weight>, value: nat, minPayout: nat)
    ensures SatKept(weights, value, minPayout) != [] ==> Total(SatKept(weights, value, minPayout)) > 0
  {
    if weights != [] {
      KeptHaveWork(weights[..|weights| - 1], value, minPayout);
    }
  }

  /** The split pays the whole value exactly when someone is kept and the last product fits in 128
      bits. */
  lemma PoolSplitConservesIff(weights: seq<Weight>, value: nat, minPayout: nat, maxOutputs: nat)
    requires value > 0
    ensures var kept := SatKept(MostWork(weights, maxOutputs), value, minPayout);
      && (kept != [] ==> Total(kept) > 0)
      && (TotalPaid(SplitInU128(weights, value, minPayout, maxOutputs)) == value
          <==> kept != [] && LastProduct(kept, value) <= U128_MAX)
  {
    hide MostWork, SatKept, LastProduct, SatMul;
    var kept := SatKept(MostWork(weights, maxOutputs), value, minPayout);
    KeptHaveWork(MostWork(weights, maxOutputs), value, minPayout);
    if kept != [] {
      CascadePaysAllIff(kept, value);
    }
  }

  /** So an identity alone in the window is paid the value exactly when the value times its work
      fits. */
  lemma AloneIsPaidTheValueIff(id: string, work: nat, value: nat, minPayout: nat, maxOutputs: nat)
    requires 0 < work && minPayout <= value && 0 < maxOutputs
    ensures TotalPaid(SplitInU128([Weight(id, work)], value, minPayout, maxOutputs)) == value
       <==> value * work <= U128_MAX
  {
    hide SatMul, SatPaying;
    var w := Weight(id, work);
    assert [w][..0] == [] && [w][1..] == [];
    assert Total([w]) == work && MostWork([w], maxOutputs) == [w];
    if value == 0 {
      NothingToSplit([w], value, minPayout, maxOutputs);
    } else {
      PoolSplitConservesIff([w], value, minPayout, maxOutputs);
    }
    LastIsPaidTheRestIff(value, work);
  }

  // ---- The pool's loops ----

  lemma {:induction false} PaidConcat(a: seq<Payout>, b: seq<Payout>)
    ensures TotalPaid(a + b) == TotalPaid(a) + TotalPaid(b)
  {
    if a == [] {
      assert a + b == b;
    } else {
      assert (a + b)[1..] == a[1..] + b;
      PaidConcat(a[1..], b);
    }
  }

  lemma {:induction false} ZeroPaysNobody(kept: seq<Weight>, work: nat)
    requires work == Total(kept)
    ensures SatPaying(kept, 0, work) == []
  {
    if kept != [] && work > 0 {
      TotalDropFirst(kept);
      ZeroPaysNobody(kept[1..], work - kept[0].work);
    }
  }

  /** Every payout is to one of those kept. */
  lemma {:induction false} PaysTheKept(kept: seq<Weight>, left: nat)
    ensures |SatPaying(kept, left, Total(kept))| <= |kept|
    ensures forall p <- SatPaying(kept, left, Total(kept)) :: exists w <- kept :: w.identity == p.identity
  {
    hide Total, SatAmount;
    var work := Total(kept);
    if kept != [] && work > 0 {
      TotalDropFirst(kept);
      PaysTheKept(kept[1..], left - SatAmount(left, kept[0].work, work));
      assert kept[0] in kept;
    }
  }

  /** What the split pays whom, said without sorting: of at most `maxOutputs` identities, none with less work
      than one left out, the last who would be paid too little are dropped, and the rest are paid. */
  ghost predicate SplitsAmongTheFirst(
    out: seq<Payout>, first: seq<Weight>, weights: seq<Weight>, value: nat, minPayout: nat, maxOutputs: nat)
  {
    && |first| == (if |weights| < maxOutputs then |weights| else maxOutputs) && FirstOf(first, weights)
    && out == SatPaying(SatKept(first, value, minPayout), value, Total(SatKept(first, value, minPayout)))
  }

  lemma SplitIsAmongTheFirst(weights: seq<Weight>, value: nat, minPayout: nat, maxOutputs: nat)
    requires OneEach(weights)
    ensures exists first ::
      SplitsAmongTheFirst(SplitInU128(weights, value, minPayout, maxOutputs), first, weights, value, minPayout, maxOutputs)
    ensures |SplitInU128(weights, value, minPayout, maxOutputs)| <= maxOutputs
    ensures forall p <- SplitInU128(weights, value, minPayout, maxOutputs) :: exists w <- weights :: w.identity == p.identity
  {
    hide MostWork, FirstOf, SatPaying, Total;
    MostWorkIsFirst(weights, maxOutputs);
    var most := MostWork(weights, maxOutputs);
    var out := SplitInU128(weights, value, minPayout, maxOutputs);
    assert SplitsAmongTheFirst(out, most, weights, value, minPayout, maxOutputs);
    var kept := SatKept(most, value, minPayout);
    PaysTheKept(kept, value);
    forall p | p in out ensures exists w <- weights :: w.identity == p.identity {
      var w :| w in kept && w.identity == p.identity;
      assert w in most;
      assert FirstOf(most, weights) && w in weights by { OfFirst(most, weights, w); }
    }
  }

  lemma OfFirst(first: seq<Weight>, weights: seq<Weight>, w: Weight)
    requires FirstOf(first, weights) && w in first
    ensures w in weights
  {
  }

  method SplitWith(weights: seq<Weight>, value: nat, minPayout: nat, maxOutputs: nat) returns (out: seq<Payout>)
    ensures out == SplitInU128(weights, value, minPayout, maxOutputs)
    ensures TotalPaid(out) <= value
    ensures OneEach(weights) ==>
      exists first :: SplitsAmongTheFirst(out, first, weights, value, minPayout, maxOutputs)
  {
    hide Sort, SatKept, SatPaying, SplitsAmongTheFirst, OneEach, MostWork;
    if OneEach(weights) {
      SplitIsAmongTheFirst(weights, value, minPayout, maxOutputs);
    }
    if Total(weights) == 0 || value == 0 || maxOutputs == 0 {
      NothingToSplit(weights, value, minPayout, maxOutputs);
      return [];
    }
    var entries, work := DropUnderMinimum(MostWork(weights, maxOutputs), value, minPayout);
    out := Cascade(entries, value, work);
  }

  lemma {:induction false} WorkOfOne(weights: seq<Weight>)
    ensures forall w <- weights :: w.work <= Total(weights)
  {
    if weights != [] {
      WorkOfOne(weights[..|weights| - 1]);
    }
  }

  lemma NothingToSplit(weights: seq<Weight>, value: nat, minPayout: nat, maxOutputs: nat)
    requires Total(weights) == 0 || value == 0 || maxOutputs == 0
    ensures SplitInU128(weights, value, minPayout, maxOutputs) == []
  {
    hide Sort;
    var most := MostWork(weights, maxOutputs);
    if Total(weights) == 0 {
      MostWorkIsOfThem(weights, maxOutputs);
      WorkOfOne(weights);
      AllZero(most);
    }
    if value == 0 {
      var kept := SatKept(most, value, minPayout);
      ZeroPaysNobody(kept, Total(kept));
    }
  }

  /** Drops the last while it would be paid less than the minimum. */
  method DropUnderMinimum(most: seq<Weight>, value: nat, minPayout: nat) returns (entries: seq<Weight>, work: nat)
    ensures entries == SatKept(most, value, minPayout) && work == Total(entries)
  {
    entries, work := most, Total(most);
    while entries != []
      invariant work == Total(entries)
      invariant SatKept(most, value, minPayout) == SatKept(entries, value, minPayout)
      decreases |entries|
    {
      if work == 0 {
        entries := [];
        break;
      }
      var w := entries[|entries| - 1].work;
      if SatMul(value, w) / work >= minPayout {
        break;
      }
      work := work - w;
      entries := entries[..|entries| - 1];
    }
  }

  /** Pays each in turn from what is left, by its part of the work left. */
  method Cascade(entries: seq<Weight>, value: nat, whole: nat) returns (out: seq<Payout>)
    requires whole == Total(entries)
    ensures out == SatPaying(entries, value, whole)
    ensures TotalPaid(out) <= value
  {
    hide Total, SatAmount;
    var left, work := value, whole;
    out := [];
    ghost var all := SatPaying(entries, value, work);
    assert entries[0..] == entries && [] + all == all;
    for i := 0 to |entries|
      invariant left >= 0 && work >= 0 && work == Total(entries[i..])
      invariant all == out + SatPaying(entries[i..], left, work)
      invariant TotalPaid(out) + left == value
    {
      if work == 0 {
        break;
      }
      TotalDropFirst(entries[i..]);
      assert entries[i..][1..] == entries[i + 1..];
      var amount := SatAmount(left, entries[i].work, work);
      left := left - amount;
      work := work - entries[i].work;
      if amount != 0 {
        PaidConcat(out, [Payout(entries[i].identity, amount)]);
        out := out + [Payout(entries[i].identity, amount)];
      }
    }
  }

  // ---- The fee, and what a short coinbase left owed ----

  /** The operator's fee, taken before the split. */
  function FeeOn(value: nat, feeBps: nat): nat {
    SatMul(value, feeBps) / BASIS_POINTS_PER_UNIT
  }

  /** The fee is the whole part of so many ten-thousandths of the value: the product of a 64-bit value and
      16-bit basis points always fits. */
  lemma FeeIsTheWholePart(value: nat, feeBps: nat)
    requires value < 0x1_0000_0000_0000_0000 && feeBps < 0x1_0000
    ensures var fee := FeeOn(value, feeBps);
      fee * BASIS_POINTS_PER_UNIT <= value * feeBps < (fee + 1) * BASIS_POINTS_PER_UNIT
  {
    MulMono(value, 0x1_0000_0000_0000_0000, feeBps);
    FloorBounds(value * feeBps, BASIS_POINTS_PER_UNIT);
  }

  /** A fee of at most the whole never takes more than the value. */
  lemma FeeAtMostValue(value: nat, feeBps: nat)
    requires feeBps <= BASIS_POINTS_PER_UNIT
    ensures FeeOn(value, feeBps) <= value
  {
    SatAtMostLeft(value, feeBps, BASIS_POINTS_PER_UNIT);
  }

  /** `owed` in proportion, rounded down. */
  function Scaled(entries: seq<Payout>, available: nat, dictated: nat): (scaled: seq<Payout>)
    requires dictated > 0
    ensures |scaled| == |entries|
  {
    if entries == [] then []
    else [Payout(entries[0].identity, entries[0].sats * available / dictated)] + Scaled(entries[1..], available, dictated)
  }

  function NonZero(entries: seq<Payout>): (kept: seq<Payout>)
    ensures TotalPaid(kept) == TotalPaid(entries)
    ensures forall k :: 0 <= k < |kept| ==> kept[k].sats > 0
  {
    if entries == [] then []
    else if entries[0].sats > 0 then [entries[0]] + NonZero(entries[1..])
    else NonZero(entries[1..])
  }

  /** Rounding down each of `n` parts loses less than one for each: the scaled amounts never
      total more than their exact part of what was received, and fall short by less than n. */
  lemma {:induction false} ScaledTotal(entries: seq<Payout>, available: nat, dictated: nat)
    requires dictated > 0
    ensures var total := TotalPaid(Scaled(entries, available, dictated));
      && total * dictated <= TotalPaid(entries) * available
      && (entries != [] ==> TotalPaid(entries) * available < total * dictated + |entries| * dictated)
  {
    if entries != [] {
      ScaledTotal(entries[1..], available, dictated);
      var part := entries[0].sats * available;
      FloorBounds(part, dictated);
      var rest := TotalPaid(Scaled(entries[1..], available, dictated));
      Distribute(part / dictated, rest, dictated);
      Distribute(part / dictated, 1, dictated);
      Distribute(entries[0].sats, TotalPaid(entries[1..]), available);
      Distribute(|entries[1..]|, 1, dictated);
    }
  }

  /** So what is owed never exceeds what the pool's script received, and falls short of it by less
      than one satoshi for each entry. */
  lemma ScaledIsWithinWhatIsAvailable(entries: seq<Payout>, available: nat)
    requires TotalPaid(entries) > available
    ensures var scaled := TotalPaid(Scaled(entries, available, TotalPaid(entries)));
      scaled <= available < scaled + |entries|
  {
    var dictated := TotalPaid(entries);
    var scaled := TotalPaid(Scaled(entries, available, dictated));
    ScaledTotal(entries, available, dictated);
    MulCancel(scaled, available, dictated);
    Distribute(scaled, |entries|, dictated);
    MulCancelStrict(available, scaled + |entries|, dictated);
  }

  lemma {:induction false} ScaledAt(entries: seq<Payout>, available: nat, dictated: nat, k: nat)
    requires dictated > 0 && k < |entries|
    ensures Scaled(entries, available, dictated)[k]
         == Payout(entries[k].identity, entries[k].sats * available / dictated)
  {
    if k > 0 {
      ScaledAt(entries[1..], available, dictated, k - 1);
    }
  }

  /** Dropping those of nothing leaves every other as often as it was. */
  lemma {:induction false} NonZeroLeaves(entries: seq<Payout>, p: Payout)
    ensures multiset(NonZero(entries))[p] == if p.sats > 0 then multiset(entries)[p] else 0
  {
    if entries != [] {
      NonZeroLeaves(entries[1..], p);
      assert entries == [entries[0]] + entries[1..];
    }
  }

  /** The part of an amount owed, when so much is available of so much dictated. */
  function PartOf(p: Payout, available: nat, dictated: nat): Payout
    requires dictated > 0
  {
    Payout(p.identity, p.sats * available / dictated)
  }

  lemma ScaledHas(entries: seq<Payout>, available: nat, dictated: nat, p: Payout)
    requires dictated > 0
    ensures p in Scaled(entries, available, dictated) <==> exists q <- entries :: PartOf(q, available, dictated) == p
  {
    hide Scaled, PartOf;
    var scaled := Scaled(entries, available, dictated);
    forall k | 0 <= k < |entries| ensures scaled[k] == PartOf(entries[k], available, dictated) {
      ScaledIsPart(entries, available, dictated, k);
    }
    if p in scaled {
      var k :| 0 <= k < |scaled| && scaled[k] == p;
      assert entries[k] in entries;
    }
    if q :| q in entries && PartOf(q, available, dictated) == p {
      var k :| 0 <= k < |entries| && entries[k] == q;
      assert scaled[k] == p;
    }
  }

  lemma ScaledIsPart(entries: seq<Payout>, available: nat, dictated: nat, k: nat)
    requires dictated > 0 && k < |entries|
    ensures Scaled(entries, available, dictated)[k] == PartOf(entries[k], available, dictated)
  {
    hide Scaled;
    ScaledAt(entries, available, dictated, k);
  }

  /** When less is available than was dictated, exactly those whose part is not nothing are owed it. */
  lemma OwedInProportion(unpaid: seq<Payout>, available: nat, p: Payout)
    requires TotalPaid(unpaid) > available
    ensures p in NonZero(Scaled(unpaid, available, TotalPaid(unpaid))) <==>
      p.sats > 0 && exists q <- unpaid :: PartOf(q, available, TotalPaid(unpaid)) == p
  {
    hide Scaled, NonZero, PartOf, TotalPaid;
    var scaled := Scaled(unpaid, available, TotalPaid(unpaid));
    ScaledHas(unpaid, available, TotalPaid(unpaid), p);
    NonZeroLeaves(scaled, p);
    assert p in NonZero(scaled) <==> multiset(NonZero(scaled))[p] > 0;
    assert p in scaled <==> multiset(scaled)[p] > 0;
  }

  /** What the pool records as owed for dictated outputs its coinbase left out: all of them, or
      when they total more than its script received beyond the fee, each in proportion. */
  method OwedFor(unpaid: seq<Payout>, available: nat) returns (entries: seq<Payout>)
    ensures TotalPaid(unpaid) <= available ==> entries == unpaid
    ensures TotalPaid(unpaid) > available ==> entries == NonZero(Scaled(unpaid, available, TotalPaid(unpaid)))
    ensures TotalPaid(entries) <= available
  {
    hide TotalPaid, Scaled, NonZero;
    entries := unpaid;
    var dictated := TotalPaid(unpaid);
    if dictated > available {
      for i := 0 to |entries|
        invariant |entries| == |unpaid|
        invariant forall k :: i <= k < |unpaid| ==> entries[k] == unpaid[k]
        invariant forall k :: 0 <= k < i ==> entries[k] == Scaled(unpaid, available, dictated)[k]
      {
        var p := entries[i];
        ScaledAt(unpaid, available, dictated, i);
        entries := entries[i := p.(sats := p.sats * available / dictated)];
      }
      assert entries == Scaled(unpaid, available, dictated);
      ScaledIsWithinWhatIsAvailable(unpaid, available);
      entries := NonZero(entries);
    }
  }
}
