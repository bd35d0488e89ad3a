/** A minimum difficulty as it is configured: an integer, or a decimal with a suffix, compared digit by
    digit with the hash counts of the powers of two. */
module MinimumDifficulty {
  import opened Basics
  import opened Arithmetic
  import opened Decimals
  import opened PowersOfTwo

  const MAX_DIFFICULTY: nat := 0x4000_0000
  const HASHES: nat := 0x1_0000_0000
  const I32_MAX: nat := 0x7fff_ffff
  /** The exponent of the last suffix. */
  const MAX_EXPONENT := 30

  datatype Parsed = Exact(d: nat) | RoundedUp(d: nat) | Legacy(d: nat)

  datatype Ordering = Less | Equal | Greater

  function Compare(a: int, b: int): Ordering { if a < b then Less else if a == b then Equal else Greater }

  // ---- Integers ----

  function DivCeil(n: nat, m: pos): nat { (n + m - 1) / m }

  function ParseInteger(n: nat): Option<Parsed> {
    if n == 0 then None
    else if n <= I32_MAX then Some(Legacy(n))
    else
      var minimum := DivCeil(n, HASHES);
      if minimum > MAX_DIFFICULTY then None
      else
        var d := Pow2Ceil(minimum);
        Some(if d * HASHES > n then RoundedUp(d) else Exact(d))
  }

  /** An integer of 31 bits is a difficulty as older configurations gave it. A larger one is a hash count,
      refused exactly when it is above the most, and otherwise gives the smallest power of two with as
      many hashes, exactly or rounded up. */
  lemma IntegersRoundUp(n: nat)
    ensures ParseInteger(n).None? <==> n == 0 || n > 0x4000_0000 * 0x1_0000_0000
    ensures 0 < n < 0x8000_0000 ==> ParseInteger(n) == Some(Legacy(n))
    ensures ParseInteger(n).Some? && n >= 0x8000_0000 ==>
              var d := ParseInteger(n).value.d;
              && IsPower(d) && d * HASHES >= n && (forall p: nat :: IsPower(p) && p * HASHES >= n ==> d <= p)
              && ParseInteger(n).value == if d * 0x1_0000_0000 == n then Exact(d) else RoundedUp(d)
  {
    hide IsPower;
    var minimum := DivCeil(n, HASHES);
    FloorBounds(n + HASHES - 1, HASHES);
    if n > I32_MAX && minimum <= MAX_DIFFICULTY {
      Pow2CeilIsSmallest(minimum);
      forall p: nat | IsPower(p) && p * HASHES >= n
        ensures Pow2Ceil(minimum) <= p
      {
        assert minimum <= p;
      }
    }
  }

  // ---- Decimals ----

  /** Digits without a leading zero. */
  predicate Canonical(digits: string) { AreDigits(digits) && digits != "" && digits[0] != '0' }

  function Zeros(n: nat): (s: string)
    ensures AreDigits(s) && |s| == n && Number(s) == 0
  {
    if n == 0 then "" else var s := Zeros(n - 1) + "0"; assert s[..n - 1] == Zeros(n - 1); s
  }

  /** Strings of one length, character by character. */
  function CompareStrings(a: string, b: string): Ordering
    requires |a| == |b|
  {
    if a == "" then Equal
    else if a[0] < b[0] then Less
    else if a[0] > b[0] then Greater
    else CompareStrings(a[1..], b[1..])
  }

  function CompareDigits(a: string, b: string): Ordering {
    if |a| < |b| then Less else if |a| > |b| then Greater else CompareStrings(a, b)
  }

  /** The source's rounding to tens of `unit`. */
  function RoundedTo(boundary: nat, unit: pos): nat { Floor(boundary + 5 * unit, 10 * unit) }

  /** `digits` times 10^`exponent` against `boundary` hashes, as the source compares them: the boundary
      is written in units of the last digit given, and the digits are compared. */
  function CompareBoundary(digits: string, exponent: int, boundary: nat): Ordering
    requires exponent <= MAX_EXPONENT
  {
    if exponent > 0 then
      var rounded := RoundedTo(boundary, Pow10(exponent - 1));
      if rounded == 0 then Greater else CompareDigits(digits, Written(rounded))
    else CompareDigits(digits, Written(boundary) + Zeros(-exponent))
  }

  /** The number of `unit`s nearest to `n`, half up. */
  function HalfUp(n: nat, unit: pos): nat { Floor(2 * n + unit, 2 * unit) }

  /** The boundary in units of 10^`exponent`. */
  function InUnits(boundary: nat, exponent: int): nat {
    if exponent > 0 then HalfUp(boundary, Pow10(exponent)) else boundary * Pow10(-exponent)
  }

  lemma RoundedIsHalfUp(boundary: nat, unit: pos)
    ensures RoundedTo(boundary, unit) == HalfUp(boundary, 10 * unit)
  {
    var q, tens := RoundedTo(boundary, unit), 10 * unit;
    FloorBounds(boundary + 5 * unit, tens);
    DoubledFloor(boundary + 5 * unit, tens, q);
  }

  lemma DoubledFloor(n: nat, m: pos, q: nat)
    requires q * m <= n < (q + 1) * m
    ensures 2 * n / (2 * m) == q
  {
    TwiceTimes(q, m);
    TwiceTimes(q + 1, m);
    FloorIs(2 * n, 2 * m, q);
  }

  lemma TwiceTimes(q: nat, m: nat)
    ensures q * (2 * m) == 2 * (q * m)
  {
  }

  lemma HalfUpMonotone(n: nat, more: nat, unit: pos)
    requires n <= more
    ensures HalfUp(n, unit) <= HalfUp(more, unit)
  {
    FloorMonotone(2 * n + unit, 2 * more + unit, 2 * unit);
  }

  lemma {:induction false} NumberBound(s: string)
    requires AreDigits(s)
    ensures Number(s) < Pow10(|s|)
  {
    if s != "" {
      NumberBound(s[..|s| - 1]);
    }
  }

  lemma FirstDigit(s: string)
    requires AreDigits(s) && s != ""
    ensures Number(s) == (s[0] as int - '0' as int) * Pow10(|s| - 1) + Number(s[1..])
  {
    hide Number, Pow10;
    assert s == s[..1] + s[1..];
    NumberConcat(s[..1], s[1..]);
    OneDigit(s[..1]);
  }

  lemma OneDigit(s: string)
    requires AreDigits(s) && |s| == 1
    ensures Number(s) == s[0] as int - '0' as int
  {
    assert s[..0] == "";
  }

  lemma CanonicalBound(s: string)
    requires Canonical(s)
    ensures Pow10(|s| - 1) <= Number(s)
  {
    hide Number, Pow10;
    FirstDigit(s);
    MulMono(1, s[0] as int - '0' as int, Pow10(|s| - 1));
  }

  lemma {:induction false} Pow10Monotone(j: nat, k: nat)
    requires j <= k
    ensures Pow10(j) <= Pow10(k)
    decreases k
  {
    if j < k {
      Pow10Monotone(j, k - 1);
    }
  }

  lemma {:induction false} SameLengthIsNumeric(a: string, b: string)
    requires AreDigits(a) && AreDigits(b) && |a| == |b|
    ensures CompareStrings(a, b) == Compare(Number(a), Number(b))
  {
    hide Number, Pow10;
    if a != "" {
      SameLengthIsNumeric(a[1..], b[1..]);
      FirstDigit(a);
      FirstDigit(b);
      NumberBound(a[1..]);
      NumberBound(b[1..]);
      var p, x, y := Pow10(|a| - 1), a[0] as int - '0' as int, b[0] as int - '0' as int;
      if x < y {
        MulMono(x + 1, y, p);
        Distribute(x, 1, p);
      } else if y < x {
        MulMono(y + 1, x, p);
        Distribute(y, 1, p);
      }
    }
  }

  /** Digits without leading zeros compare as the numbers they write. */
  lemma DigitsCompareAsNumbers(a: string, b: string)
    requires Canonical(a) && Canonical(b)
    ensures CompareDigits(a, b) == Compare(Number(a), Number(b))
  {
    hide Number, Pow10, CompareStrings;
    NumberBound(a);
    NumberBound(b);
    CanonicalBound(a);
    CanonicalBound(b);
    if |a| < |b| {
      Pow10Monotone(|a|, |b| - 1);
    } else if |b| < |a| {
      Pow10Monotone(|b|, |a| - 1);
    } else {
      SameLengthIsNumeric(a, b);
    }
  }

  lemma {:induction false} WrittenIsCanonical(n: nat)
    requires n > 0
    ensures Canonical(Written(n))
  {
    if n >= 10 {
      WrittenIsCanonical(n / 10);
      assert Written(n)[0] == Written(n / 10)[0];
    }
  }

  lemma PositiveNumber(s: string)
    requires Canonical(s)
    ensures Number(s) > 0
  {
    CanonicalBound(s);
  }

  /** Comparing the digits is comparing the number with the boundary, rounded half up to the last digit
      given. */
  lemma BoundaryComparesAsANumber(digits: string, exponent: int, boundary: nat)
    requires Canonical(digits) && exponent <= MAX_EXPONENT && boundary > 0
    ensures CompareBoundary(digits, exponent, boundary) == Compare(Number(digits), InUnits(boundary, exponent))
  {
    hide Number, CompareDigits, Written, Zeros, HalfUp, RoundedTo;
    PositiveNumber(digits);
    if exponent > 0 {
      var rounded := InUnits(boundary, exponent);
      RoundedIsHalfUp(boundary, Pow10(exponent - 1));
      if rounded > 0 {
        WrittenIsCanonical(rounded);
        DigitsCompareAsNumbers(digits, Written(rounded));
      }
    } else {
      var written := Written(boundary) + Zeros(-exponent);
      WrittenIsCanonical(boundary);
      NumberConcat(Written(boundary), Zeros(-exponent));
      DigitsCompareAsNumbers(digits, written);
    }
  }

  // ---- From an estimate ----

  function Boundary(d: nat): nat { d * HASHES }

  /** The difficulty of a decimal, from a power of two estimated for it. */
  function ParseFrom(digits: string, exponent: int, estimate: nat): Option<Parsed>
    requires exponent <= MAX_EXPONENT
  {
    var halves := estimate > 1 && CompareBoundary(digits, exponent, Boundary(estimate / 2)) != Greater;
    var doubles := !halves && CompareBoundary(digits, exponent, Boundary(estimate)) == Greater;
    if doubles && estimate >= MAX_DIFFICULTY then None
    else
      var d := if halves then estimate / 2 else if doubles then 2 * estimate else estimate;
      Some(if CompareBoundary(digits, exponent, Boundary(d)) == Less then RoundedUp(d) else Exact(d))
  }

  /** The hash count of `d` is at least the decimal, to its last digit. */
  predicate Covers(digits: string, exponent: int, d: nat)
    requires AreDigits(digits)
  {
    Number(digits) <= InUnits(d * 0x1_0000_0000, exponent)
  }

  /** An estimate is usable when it is at most one power of two off either way; one at the largest
      difficulty may be any amount below, since estimates are clamped there. */
  predicate Usable(digits: string, exponent: int, estimate: nat)
    requires AreDigits(digits)
  {
    && IsPower(estimate) && estimate <= MAX_DIFFICULTY
    && (estimate < MAX_DIFFICULTY ==> Covers(digits, exponent, 2 * estimate))
    && (estimate >= 4 ==> !Covers(digits, exponent, estimate / 4))
  }

  /** Every usable estimate is put right: the decimal is refused exactly when the largest difficulty
      does not cover it, and otherwise gives the smallest power of two that does, exact just when its
      hash count is the decimal to its last digit. */
  lemma EstimatesArePutRight(digits: string, exponent: int, estimate: nat)
    requires Canonical(digits) && exponent <= MAX_EXPONENT && Usable(digits, exponent, estimate)
    ensures ParseFrom(digits, exponent, estimate).None? <==> !Covers(digits, exponent, MAX_DIFFICULTY)
    ensures ParseFrom(digits, exponent, estimate).Some? ==>
              var d := ParseFrom(digits, exponent, estimate).value.d;
              && IsPower(d) && Covers(digits, exponent, d)
              && (forall p: nat :: IsPower(p) && Covers(digits, exponent, p) ==> d <= p)
              && ParseFrom(digits, exponent, estimate).value ==
                   if Number(digits) == InUnits(d * 0x1_0000_0000, exponent) then Exact(d) else RoundedUp(d)
  {
    hide InUnits, CompareBoundary, Number, IsPower, ParseFrom;
    PutRight(digits, exponent, estimate);
    if estimate < MAX_DIFFICULTY {
      MaxIsPower();
      PowersAreApart(estimate, MAX_DIFFICULTY);
      CoversMore(digits, exponent, 2 * estimate, MAX_DIFFICULTY);
    }
    if ParseFrom(digits, exponent, estimate).Some? {
      var d := ParseFrom(digits, exponent, estimate).value.d;
      PowerHalves(d);
      forall p: nat | IsPower(p) && Covers(digits, exponent, p)
        ensures d <= p
      {
        PowerHalves(p);
        if p < d {
          PowersAreApart(p, d);
          CoversMore(digits, exponent, p, d / 2);
        }
      }
    }
  }

  lemma PutRight(digits: string, exponent: int, estimate: nat)
    requires Canonical(digits) && exponent <= MAX_EXPONENT && Usable(digits, exponent, estimate)
    ensures ParseFrom(digits, exponent, estimate).None? <==>
              !Covers(digits, exponent, estimate) && estimate == MAX_DIFFICULTY
    ensures ParseFrom(digits, exponent, estimate).Some? ==>
              var d := ParseFrom(digits, exponent, estimate).value.d;
              && IsPower(d) && Covers(digits, exponent, d) && (d > 1 ==> !Covers(digits, exponent, d / 2))
              && ParseFrom(digits, exponent, estimate).value ==
                   if Number(digits) == InUnits(d * 0x1_0000_0000, exponent) then Exact(d) else RoundedUp(d)
  {
    hide InUnits, CompareBoundary, Number, IsPower;
    PowerHalves(estimate);
    Doubled(estimate);
    BoundaryComparesAsANumber(digits, exponent, Boundary(estimate));
    BoundaryComparesAsANumber(digits, exponent, Boundary(2 * estimate));
    if estimate > 1 {
      BoundaryComparesAsANumber(digits, exponent, Boundary(estimate / 2));
      if Covers(digits, exponent, estimate / 2) {
        CoversMore(digits, exponent, estimate / 2, estimate);
      }
      if estimate / 2 > 1 {
        PowerHalves(estimate / 2);
      }
    }
  }

  lemma MaxIsPower()
    ensures IsPower(MAX_DIFFICULTY)
  {
    EightDoublings(1);
    EightDoublings(0x100);
    EightDoublings(0x1_0000);
    EightDoublings(0x100_0000);
  }

  lemma PowerHalves(p: nat)
    requires IsPower(p)
    ensures p > 0 && (p > 1 ==> IsPower(p / 2) && p / 2 > 0 && p / 2 * 2 == p)
  {
  }

  lemma CoversMore(digits: string, exponent: int, d: nat, more: nat)
    requires AreDigits(digits) && d <= more && Covers(digits, exponent, d)
    ensures Covers(digits, exponent, more)
  {
    hide Number, Pow10, HalfUp;
    MulMono(d, more, HASHES);
    if exponent > 0 {
      HalfUpMonotone(Boundary(d), Boundary(more), Pow10(exponent));
    } else {
      MulMono(Boundary(d), Boundary(more), Pow10(-exponent));
    }
  }
}
