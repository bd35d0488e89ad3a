/** Difficulties as powers of two in 64 bits. */
module PowersOfTwo {
  import opened Basics

  const U64: nat := 0x1_0000_0000_0000_0000
  const TOP_POWER: nat := 0x8000_0000_0000_0000

  predicate IsPower(v: nat) {
    v == 1 || (v > 1 && v % 2 == 0 && IsPower(v / 2))
  }

  /** The largest power of two at most `v`, and 0 for 0. */
  function Pow2Floor(v: nat): (p: nat)
    ensures v > 0 ==> IsPower(p) && p <= v < 2 * p
    ensures v == 0 ==> p == 0
  {
    if v < 2 then v else 2 * Pow2Floor(v / 2)
  }

  /** The smallest power of two at least `v`, or the largest there is in 64 bits; 0 for 0. */
  function Pow2Ceil(v: nat): (p: nat) {
    if v == 0 then 0 else if v > TOP_POWER then TOP_POWER else Smallest(v)
  }

  function Smallest(v: nat): (p: nat)
    requires v > 0
    ensures IsPower(p) && v <= p < 2 * v
  {
    if v == 1 then 1
    else
      var half := Smallest((v + 1) / 2);
      Doubled(half);
      2 * half
  }

  /** No power of two lies strictly between one and its double. */
  lemma {:induction false} PowersAreApart(a: nat, b: nat)
    requires IsPower(a) && IsPower(b) && a < b
    ensures 2 * a <= b
  {
    if a > 1 {
      PowersAreApart(a / 2, b / 2);
    }
  }

  lemma Doubled(v: nat)
    requires IsPower(v)
    ensures IsPower(2 * v)
  {
  }

  lemma EightDoublings(v: nat)
    requires IsPower(v)
    ensures IsPower(0x40 * v) && IsPower(0x80 * v) && IsPower(0x100 * v)
  {
    hide IsPower;
    Doubled(v);
    Doubled(2 * v);
    Doubled(4 * v);
    Doubled(8 * v);
    Doubled(0x10 * v);
    Doubled(0x20 * v);
    Doubled(0x40 * v);
    Doubled(0x80 * v);
  }

  lemma TopIsAPower()
    ensures IsPower(TOP_POWER) && IsPower(TOP_POWER / 2)
  {
    EightDoublings(1);
    EightDoublings(0x100);
    EightDoublings(0x1_0000);
    EightDoublings(0x100_0000);
    EightDoublings(0x1_0000_0000);
    EightDoublings(0x100_0000_0000);
    EightDoublings(0x1_0000_0000_0000);
    EightDoublings(0x100_0000_0000_0000);
  }

  /** A power of two shifted left by one in 64 bits: its double, or nothing when it was the largest. */
  lemma ShiftedByOne(v: nat)
    requires IsPower(v) && v < U64
    ensures 2 * v % U64 == if v == TOP_POWER then 0 else 2 * v
    ensures v <= TOP_POWER && (v != TOP_POWER ==> v <= TOP_POWER / 2 && IsPower(2 * v))
  {
    hide IsPower;
    TopIsAPower();
    Doubled(v);
    if v > TOP_POWER {
      PowersAreApart(TOP_POWER, v);
    } else if v < TOP_POWER {
      PowersAreApart(v, TOP_POWER);
    }
  }

  /** Shifted left by two. */
  lemma ShiftedByTwo(v: nat)
    requires IsPower(v) && v < U64
    ensures 4 * v % U64 == if v >= TOP_POWER / 2 then 0 else 4 * v
    ensures v < TOP_POWER / 2 ==> IsPower(4 * v)
  {
    ShiftedByOne(v);
    if v < TOP_POWER {
      ShiftedByOne(2 * v);
    }
  }

  lemma Pow2CeilIsSmallest(v: nat)
    ensures v == 0 ==> Pow2Ceil(v) == 0
    ensures v > TOP_POWER ==> Pow2Ceil(v) == TOP_POWER
    ensures 0 < v <= TOP_POWER ==> IsPower(Pow2Ceil(v)) && v <= Pow2Ceil(v) <= TOP_POWER
    ensures 0 < v <= TOP_POWER ==> forall p: nat :: IsPower(p) && v <= p ==> Pow2Ceil(v) <= p
  {
    var c := Pow2Ceil(v);
    TopIsAPower();
    forall p: nat | 0 < v <= TOP_POWER && IsPower(p) && v <= p
      ensures c <= p
    {
      if p < c {
        PowersAreApart(p, c);
      }
    }
  }

  lemma Pow2FloorIsLargest(v: nat)
    requires 0 < v
    ensures forall p: nat :: IsPower(p) && p <= v ==> p <= Pow2Floor(v)
  {
    var f := Pow2Floor(v);
    forall p: nat | IsPower(p) && p <= v
      ensures p <= f
    {
      if f < p {
        PowersAreApart(f, p);
      }
    }
  }
}
