/** The difficulty a gateway announces: an integer times 65535 / 65536, rounded as an x87 long double
    holds it, in decimal. */
module StratumDifficulty {
  import opened Basics
  import opened Arithmetic
  import opened Bytes
  import opened Decimals

  const SIGNIFICAND_BITS: nat := 64
  const RATIO_NUMERATOR: nat := 0xffff
  const RATIO_DENOMINATOR: nat := 0x1_0000
  /** 10^16 / 2^16. */
  const FRACTION_DECIMAL_SCALE: nat := 152_587_890_625
  const FRACTION_DECIMAL_DIGITS: nat := 16

  // ---- Rounding ----

  /** How many bits `v` takes. */
  function BitLength(v: nat): (bits: nat)
    ensures v > 0 ==> bits > 0 && Pow2(bits - 1) <= v < Pow2(bits)
    ensures v == 0 ==> bits == 0
  {
    if v == 0 then 0 else BitLength(v / 2) + 1
  }

  /** `kept` or one more, by what was dropped below it: to nearest, and to even from halfway. */
  function Nearer(kept: nat, dropped: nat, half: nat): nat {
    if dropped > half || (dropped == half && kept % 2 == 1) then kept + 1 else kept
  }

  function RoundToSignificand(v: nat): nat {
    var bits := BitLength(v);
    if bits <= SIGNIFICAND_BITS then v
    else
      var shift := bits - SIGNIFICAND_BITS;
      Nearer(v / Pow2(shift), v % Pow2(shift), Pow2(shift - 1)) * Pow2(shift)
  }

  /** What a significand of 64 bits can hold: `m` times a power of two. */
  ghost predicate IsHeld(v: nat) {
    exists m: nat, e: nat :: HeldAs(v, m, e)
  }

  predicate HeldAs(v: nat, m: nat, e: nat) { m < Pow2(SIGNIFICAND_BITS) && v == m * Pow2(e) }

  function Distance(a: nat, b: nat): nat { if a <= b then b - a else a - b }

  lemma Pow2Step(k: nat)
    requires k > 0
    ensures Pow2(k) == 2 * Pow2(k - 1)
  {
  }

  lemma {:induction false} Pow2Monotone(j: nat, k: nat)
    requires j <= k
    ensures Pow2(j) <= Pow2(k)
    decreases k
  {
    if j < k {
      Pow2Monotone(j, k - 1);
    }
  }

  /** A multiple of `p` is not strictly between two that follow each other. */
  lemma CoarseIsOutside(m: nat, r: nat, kept: nat, p: nat)
    ensures m * (r * p) <= kept * p || m * (r * p) >= (kept + 1) * p
  {
    MulAssoc(m, r, p);
    if m * r <= kept {
      MulMono(m * r, kept, p);
    } else {
      MulMono(kept + 1, m * r, p);
    }
  }

  lemma FineIsBelow(m: nat, q: nat, top: nat, half: nat, kept: nat)
    requires m <= 2 * top && q <= half && top <= kept
    ensures m * q <= kept * (2 * half)
  {
    MulMono(m, 2 * top, q);
    MulMono(q, half, 2 * top);
    MulMono(top, kept, 2 * half);
    TwiceEither(top, half);
  }

  lemma TwiceEither(x: nat, y: nat)
    ensures 2 * x * y == x * (2 * y) && y * (2 * x) == 2 * x * y
  {
  }

  /** No held number lies strictly between two neighbours of a number with more bits. */
  lemma NothingBetween(kept: nat, shift: nat, w: nat)
    requires shift > 0 && kept >= Pow2(SIGNIFICAND_BITS - 1) && IsHeld(w)
    ensures w <= kept * Pow2(shift) || w >= (kept + 1) * Pow2(shift)
  {
    hide Pow2;
    var m: nat, e: nat :| HeldAs(w, m, e);
    if e >= shift {
      Pow2Add(e - shift, shift);
      CoarseIsOutside(m, Pow2(e - shift), kept, Pow2(shift));
    } else {
      Pow2Monotone(e, shift - 1);
      Pow2Step(shift);
      Pow2Step(SIGNIFICAND_BITS);
      FineIsBelow(m, Pow2(e), Pow2(SIGNIFICAND_BITS - 1), Pow2(shift - 1), kept);
    }
  }

  /** The kept bits of a long number, and what is dropped. */
  lemma KeptBits(v: nat)
    requires BitLength(v) > SIGNIFICAND_BITS
    ensures var p := Pow2(BitLength(v) - SIGNIFICAND_BITS);
            && Pow2(SIGNIFICAND_BITS - 1) <= v / p < Pow2(SIGNIFICAND_BITS)
            && v == v / p * p + v % p && v % p < p
  {
    hide Pow2, BitLength;
    var bits := BitLength(v);
    var shift := bits - SIGNIFICAND_BITS;
    var p := Pow2(shift);
    Pow2Add(SIGNIFICAND_BITS - 1, shift);
    Pow2Add(SIGNIFICAND_BITS, shift);
    FloorIsLargest(v, p, Pow2(SIGNIFICAND_BITS - 1));
    FloorBounds(v, p);
    MulCancelStrict(v / p, Pow2(SIGNIFICAND_BITS), p);
    DivMod(v, p);
  }

  lemma ShortIsHeld(v: nat)
    requires BitLength(v) <= SIGNIFICAND_BITS
    ensures IsHeld(v)
  {
    hide BitLength;
    Pow2Monotone(BitLength(v), SIGNIFICAND_BITS);
    assert Pow2(0) == 1;
    assert HeldAs(v, v, 0);
  }

  lemma MultipleIsHeld(m: nat, e: nat)
    requires m < Pow2(SIGNIFICAND_BITS)
    ensures IsHeld(m * Pow2(e))
  {
    hide Pow2;
    assert HeldAs(m * Pow2(e), m, e);
  }

  lemma PowerIsHeld(e: nat)
    ensures IsHeld(Pow2(e))
  {
    hide Pow2;
    OneBit();
    Pow2Step(SIGNIFICAND_BITS);
    assert HeldAs(Pow2(e), 1, e);
  }

  lemma NeighboursAreHeld(kept: nat, shift: nat)
    requires kept < Pow2(SIGNIFICAND_BITS)
    ensures IsHeld(kept * Pow2(shift)) && IsHeld((kept + 1) * Pow2(shift))
  {
    hide Pow2, IsHeld;
    MultipleIsHeld(kept, shift);
    if kept + 1 < Pow2(SIGNIFICAND_BITS) {
      MultipleIsHeld(kept + 1, shift);
    } else {
      Pow2Add(SIGNIFICAND_BITS, shift);
      PowerIsHeld(SIGNIFICAND_BITS + shift);
    }
  }

  lemma OneBit()
    ensures Pow2(0) == 1
  {
  }

  lemma NoDistance(v: nat)
    ensures Distance(v, v) == 0 && forall w: nat :: Distance(v, w) == 0 ==> w == v
  {
  }

  /** The rounded number is held, and no held number is nearer; where another is as near, the kept
      bits of the rounded number are even. */
  lemma RoundsToNearest(v: nat, w: nat)
    requires IsHeld(w)
    ensures IsHeld(RoundToSignificand(v))
    ensures Distance(v, RoundToSignificand(v)) <= Distance(v, w)
    ensures Distance(v, RoundToSignificand(v)) == Distance(v, w) && w != RoundToSignificand(v) ==>
              && BitLength(v) > SIGNIFICAND_BITS
              && RoundToSignificand(v) / Pow2(BitLength(v) - SIGNIFICAND_BITS) % 2 == 0
  {
    hide Pow2, BitLength, IsHeld, Distance;
    if BitLength(v) <= SIGNIFICAND_BITS {
      ShortIsHeld(v);
      NoDistance(v);
    } else {
      var shift := BitLength(v) - SIGNIFICAND_BITS;
      var p := Pow2(shift);
      KeptBits(v);
      NothingBetween(v / p, shift, w);
      NeighboursAreHeld(v / p, shift);
      Pow2Step(shift);
      Distribute(v / p, 1, p);
      FloorOfMultiple(v / p, p);
      FloorOfMultiple(v / p + 1, p);
      NearestOfTwo(v / p, v % p, Pow2(shift - 1), v / p * p, w);
    }
  }

  /** Between two neighbours the nearer one is taken. */
  lemma NearestOfTwo(kept: nat, dropped: nat, half: nat, low: nat, w: nat)
    requires dropped < 2 * half && (w <= low || w >= low + 2 * half)
    ensures var v, up := low + dropped, Nearer(kept, dropped, half) == kept + 1;
            var r := if up then low + 2 * half else low;
            && Distance(v, r) <= Distance(v, w)
            && (Distance(v, r) == Distance(v, w) && w != r ==> Nearer(kept, dropped, half) % 2 == 0)
  {
  }

  /** Rounding keeps the order. */
  lemma RoundingIsMonotone(a: nat, b: nat)
    requires a <= b
    ensures RoundToSignificand(a) <= RoundToSignificand(b)
  {
    hide RoundToSignificand, IsHeld, BitLength;
    RoundsToNearest(a, 0) by { ZeroIsHeld(); }
    RoundsToNearest(b, 0) by { ZeroIsHeld(); }
    RoundsToNearest(a, RoundToSignificand(b));
    RoundsToNearest(b, RoundToSignificand(a));
  }

  lemma ZeroIsHeld()
    ensures IsHeld(0)
  {
    assert HeldAs(0, 0, 0);
  }

  /** A held number is its own rounding, so rounding twice is rounding once. */
  lemma RoundingIsIdempotent(v: nat)
    ensures RoundToSignificand(RoundToSignificand(v)) == RoundToSignificand(v)
  {
    hide RoundToSignificand, IsHeld, BitLength;
    ZeroIsHeld();
    RoundsToNearest(v, 0);
    RoundsToNearest(RoundToSignificand(v), RoundToSignificand(v));
  }

  // ---- Printing ----

  function Product(n: nat): nat { RoundToSignificand(n * RATIO_NUMERATOR) }

  /** The digits after the point of a fraction of 2^16, all sixteen of them. */
  function FractionDigits(fraction: nat): (s: string)
    ensures AreDigits(s) && |s| == FRACTION_DECIMAL_DIGITS
  {
    Padded(fraction * FRACTION_DECIMAL_SCALE, FRACTION_DECIMAL_DIGITS)
  }

  function Format(n: nat): string {
    var whole, fraction := Product(n) / RATIO_DENOMINATOR, Product(n) % RATIO_DENOMINATOR;
    if fraction == 0 then Written(whole)
    else Written(whole) + "." + Trimmed(FractionDigits(fraction))
  }

  /** How many digits stand before the point. */
  function BeforePoint(s: string): (at: nat)
    ensures at <= |s| && (forall i :: 0 <= i < at ==> s[i] != '.') && (at < |s| ==> s[at] == '.')
  {
    if s == "" || s[0] == '.' then 0 else 1 + BeforePoint(s[1..])
  }

  /** The digits of a decimal, and how many of them follow its point. */
  function DigitsOf(s: string): string {
    var at := BeforePoint(s);
    s[..at] + if at < |s| then s[at + 1..] else ""
  }

  function PlacesOf(s: string): nat {
    var at := BeforePoint(s);
    if at < |s| then |s| - at - 1 else 0
  }

  /** `s` writes `numerator` over `denominator` exactly, with no zero at the end of its fraction. */
  predicate Writes(s: string, numerator: nat, denominator: nat) {
    && AreDigits(DigitsOf(s)) && BeforePoint(s) > 0
    && Number(DigitsOf(s)) * denominator == numerator * Pow10(PlacesOf(s))
    && (BeforePoint(s) < |s| ==> PlacesOf(s) > 0 && s[|s| - 1] != '0')
  }

  lemma PointAt(whole: string, rest: string)
    requires AreDigits(whole)
    ensures BeforePoint(whole) == |whole|
    ensures BeforePoint(whole + "." + rest) == |whole|
  {
    var s := whole + "." + rest;
    assert s[|whole|] == '.';
    assert forall i :: 0 <= i < |whole| ==> s[i] == whole[i];
  }

  lemma ScaleIsExact(fraction: nat)
    requires fraction < RATIO_DENOMINATOR
    ensures fraction * FRACTION_DECIMAL_SCALE < Pow10(FRACTION_DECIMAL_DIGITS)
    ensures fraction * FRACTION_DECIMAL_SCALE * RATIO_DENOMINATOR == fraction * Pow10(FRACTION_DECIMAL_DIGITS)
  {
    TenToTheSixteen();
  }

  lemma TenToTheSixteen()
    ensures Pow10(FRACTION_DECIMAL_DIGITS) == FRACTION_DECIMAL_SCALE * RATIO_DENOMINATOR
  {
    Pow10Add(8, 8);
    Pow10Add(4, 4);
    assert Pow10(4) == 10_000 by {
      assert Pow10(2) == 100;
    }
  }

  lemma WholeIsExact(whole: nat)
    ensures Writes(Written(whole), whole * RATIO_DENOMINATOR, RATIO_DENOMINATOR)
  {
    hide Written, Number, BeforePoint, Pow10;
    PointAt(Written(whole), "");
    NoPlaces();
    assert DigitsOf(Written(whole)) == Written(whole);
  }

  lemma FractionIsExact(whole: nat, fraction: nat)
    requires 0 < fraction < RATIO_DENOMINATOR
    ensures Writes(Written(whole) + "." + Trimmed(FractionDigits(fraction)), whole * RATIO_DENOMINATOR + fraction, RATIO_DENOMINATOR)
  {
    hide Written, Trimmed, Number, FractionDigits, BeforePoint, Pow10;
    var trimmed := Trimmed(FractionDigits(fraction));
    TrimmedFraction(fraction);
    PointAt(Written(whole), trimmed);
    assert DigitsOf(Written(whole) + "." + trimmed) == Written(whole) + trimmed;
    NumberConcat(Written(whole), trimmed);
    WholeAndFraction(whole, fraction, Number(trimmed), Pow10(|trimmed|));
  }

  /** The printed decimal is the rounded product over 2^16, no more and no less. */
  lemma FormatIsExact(n: nat)
    ensures Writes(Format(n), Product(n), RATIO_DENOMINATOR)
  {
    hide Product, Written, Trimmed, FractionDigits, Writes;
    var whole, fraction := Product(n) / RATIO_DENOMINATOR, Product(n) % RATIO_DENOMINATOR;
    if fraction == 0 {
      WholeIsExact(whole);
    } else {
      FractionIsExact(whole, fraction);
    }
  }

  lemma NoPlaces()
    ensures Pow10(0) == 1
  {
  }

  lemma WholeAndFraction(whole: nat, fraction: nat, digits: nat, p: nat)
    requires digits * RATIO_DENOMINATOR == fraction * p
    ensures (whole * p + digits) * RATIO_DENOMINATOR == (whole * RATIO_DENOMINATOR + fraction) * p
  {
    Distribute(whole * RATIO_DENOMINATOR, fraction, p);
    Distribute(whole * p, digits, RATIO_DENOMINATOR);
    MulSwap(whole, p, RATIO_DENOMINATOR);
  }

  lemma FractionNumber(fraction: nat)
    requires 0 < fraction < RATIO_DENOMINATOR
    ensures var n := Number(FractionDigits(fraction));
            n > 0 && n * RATIO_DENOMINATOR == fraction * Pow10(FRACTION_DECIMAL_DIGITS)
  {
    hide Number, Pow10;
    ScaleIsExact(fraction);
    PaddedNumber(fraction * FRACTION_DECIMAL_SCALE, FRACTION_DECIMAL_DIGITS);
  }

  /** Trimming the zeros of the sixteen digits leaves the fraction as it was. */
  lemma TrimmedFraction(fraction: nat)
    requires 0 < fraction < RATIO_DENOMINATOR
    ensures var trimmed := Trimmed(FractionDigits(fraction));
            trimmed != "" && Number(trimmed) * RATIO_DENOMINATOR == fraction * Pow10(|trimmed|)
  {
    hide Trimmed, Number, Pow10, FractionDigits;
    FractionNumber(fraction);
    var digits := FractionDigits(fraction);
    TrimmedNumber(digits);
    var trimmed := Trimmed(digits);
    var cut := FRACTION_DECIMAL_DIGITS - |trimmed|;
    Pow10Add(|trimmed|, cut);
    CancelZeros(Number(trimmed), fraction, Pow10(|trimmed|), Pow10(cut));
  }

  lemma CancelZeros(digits: nat, fraction: nat, p: nat, q: pos)
    requires digits * q * RATIO_DENOMINATOR == fraction * (p * q)
    ensures digits * RATIO_DENOMINATOR == fraction * p
  {
    assert digits * q * RATIO_DENOMINATOR == digits * RATIO_DENOMINATOR * q;
    MulAssoc(fraction, p, q);
    MulCancel(digits * RATIO_DENOMINATOR, fraction * p, q);
    MulCancel(fraction * p, digits * RATIO_DENOMINATOR, q);
  }

  // ---- What an announcement tells ----

  const EXACT_UP_TO: nat := 0x1_0000_0000_0000

  /** The product is exact just when 64 significant bits hold it. */
  lemma ProductIsExactIff(n: nat)
    ensures Product(n) == n * RATIO_NUMERATOR <==> IsHeld(n * RATIO_NUMERATOR)
  {
    hide RoundToSignificand, IsHeld, BitLength;
    var v := n * RATIO_NUMERATOR;
    ZeroIsHeld();
    RoundsToNearest(v, 0);
    if IsHeld(v) {
      RoundsToNearest(v, v);
    }
  }

  /** The decimal written is exactly n times 65535 over 65536 if and only if 64 significant bits hold
      that product. */
  lemma AnnouncedExactlyIff(n: nat)
    ensures Writes(Format(n), n * RATIO_NUMERATOR, RATIO_DENOMINATOR) <==> IsHeld(n * RATIO_NUMERATOR)
  {
    hide Format, Product, DigitsOf, PlacesOf, BeforePoint, IsHeld;
    FormatIsExact(n);
    ProductIsExactIff(n);
    WritesOne(Format(n), Product(n), n * RATIO_NUMERATOR);
  }

  /** A decimal writes one number only. */
  lemma WritesOne(s: string, a: nat, b: nat)
    requires Writes(s, a, RATIO_DENOMINATOR)
    ensures Writes(s, b, RATIO_DENOMINATOR) <==> a == b
  {
    hide DigitsOf, PlacesOf, BeforePoint, Number, Pow10;
    if Writes(s, b, RATIO_DENOMINATOR) {
      MulCancel(a, b, Pow10(PlacesOf(s)));
      MulCancel(b, a, Pow10(PlacesOf(s)));
    }
  }

  lemma ShortProducts(n: nat)
    requires n <= EXACT_UP_TO
    ensures IsHeld(n * RATIO_NUMERATOR)
  {
    hide Pow2, BitLength;
    var v := n * RATIO_NUMERATOR;
    if BitLength(v) > SIGNIFICAND_BITS {
      Pow2Monotone(SIGNIFICAND_BITS, BitLength(v) - 1);
      TwoToTheSixtyFour();
      assert BitLength(v) == 0 || Pow2(BitLength(v) - 1) <= v;
    }
    ShortIsHeld(v);
  }

  lemma TwoToTheSixtyFour()
    ensures Pow2(SIGNIFICAND_BITS) == 0x1_0000_0000_0000_0000
  {
    hide Pow2;
    Pow2OfBytes(8);
    assert Pow256(8) == 0x1_0000_0000_0000_0000;
  }

  lemma PowersAreHeld(k: nat)
    ensures IsHeld(Pow2(k) * RATIO_NUMERATOR)
  {
    hide Pow2;
    TwoToTheSixtyFour();
    assert HeldAs(Pow2(k) * RATIO_NUMERATOR, RATIO_NUMERATOR, k);
  }

  /** So it is exact for every difficulty up to 2^48 and for every power of two. */
  lemma AnnouncedExactly(n: nat)
    requires n <= EXACT_UP_TO || exists k: nat :: n == Pow2(k)
    ensures Writes(Format(n), n * RATIO_NUMERATOR, RATIO_DENOMINATOR)
  {
    hide Format, Writes, IsHeld, Pow2;
    AnnouncedExactlyIff(n);
    if n <= EXACT_UP_TO {
      ShortProducts(n);
    } else {
      var k: nat :| n == Pow2(k);
      PowersAreHeld(k);
    }
  }

  /** And no two of those are announced alike. */
  lemma AnnouncementsDiffer(n: nat, m: nat)
    requires n <= EXACT_UP_TO || exists k: nat :: n == Pow2(k)
    requires m <= EXACT_UP_TO || exists k: nat :: m == Pow2(k)
    requires Format(n) == Format(m)
    ensures n == m
  {
    hide Format, Writes, Pow2;
    AnnouncedExactly(n);
    AnnouncedExactly(m);
    WritesOne(Format(n), n * RATIO_NUMERATOR, m * RATIO_NUMERATOR);
  }

  /** The number one decimal writes is at most that of another. */
  predicate AtMost(s: string, t: string)
    requires AreDigits(DigitsOf(s)) && AreDigits(DigitsOf(t))
  {
    Number(DigitsOf(s)) * Pow10(PlacesOf(t)) <= Number(DigitsOf(t)) * Pow10(PlacesOf(s))
  }

  lemma WrittenInOrder(s: string, a: nat, t: string, b: nat)
    requires Writes(s, a, RATIO_DENOMINATOR) && Writes(t, b, RATIO_DENOMINATOR) && a <= b
    ensures AtMost(s, t)
  {
    hide DigitsOf, PlacesOf, BeforePoint, Number, Pow10;
    var x, y, p, q := Number(DigitsOf(s)), Number(DigitsOf(t)), Pow10(PlacesOf(s)), Pow10(PlacesOf(t));
    InOrder(x, y, p, q, a, b);
  }

  lemma InOrder(x: nat, y: nat, p: nat, q: nat, a: nat, b: nat)
    requires x * RATIO_DENOMINATOR == a * p && y * RATIO_DENOMINATOR == b * q && a <= b
    ensures x * q <= y * p
  {
    MulSwap(x, RATIO_DENOMINATOR, q);
    MulSwap(y, RATIO_DENOMINATOR, p);
    MulSwap(b, q, p);
    MulMono(a, b, p);
    MulMono(a * p, b * p, q);
    MulCancel(x * q, y * p, RATIO_DENOMINATOR);
  }

  /** A larger difficulty is never announced as a smaller number. */
  lemma AnnouncementsAreInOrder(n: nat, m: nat)
    requires n <= m
    ensures AreDigits(DigitsOf(Format(n))) && AreDigits(DigitsOf(Format(m))) && AtMost(Format(n), Format(m))
  {
    hide Format, RoundToSignificand, DigitsOf, PlacesOf, BeforePoint, AtMost;
    FormatIsExact(n);
    FormatIsExact(m);
    MulMono(n, m, RATIO_NUMERATOR);
    RoundingIsMonotone(n * RATIO_NUMERATOR, m * RATIO_NUMERATOR);
    WrittenInOrder(Format(n), Product(n), Format(m), Product(m));
  }
}
