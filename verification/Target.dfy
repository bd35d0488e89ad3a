/** Targets as 256-bit numbers, and the compact encoding of them that a header carries. */
module Target {
  import opened Basics
  import opened Arithmetic
  import opened Bytes

  const TARGET_BYTES: nat := 32
  const DIFF1_EXPONENT: nat := 224
  const MAX_COMPACT_TARGET_SIZE := 34
  const MAX_RELAY_TARGET_SHIFT := 2

  type Target = t: seq<byte> | |t| == TARGET_BYTES witness Zeros(TARGET_BYTES)

  function Zeros(n: nat): (z: seq<byte>)
    ensures |z| == n && forall i :: 0 <= i < n ==> z[i] == 0
  {
    if n == 0 then [] else Zeros(n - 1) + [0]
  }

  // ---- The compact encoding ----

  type Compact = b: nat | b < 0x1_0000_0000

  predicate SignBit(bits: Compact) { bits / 0x80_0000 % 2 == 1 }
  function Size(bits: Compact): nat { bits / 0x100_0000 }
  function Mantissa(bits: Compact): nat { bits % 0x80_0000 }

  /** The size, the sign bit and the mantissa are the bits, in one way. */
  lemma BitsAreTheirParts(bits: Compact)
    ensures Size(bits) < 0x100 && Mantissa(bits) < 0x80_0000
    ensures bits == Size(bits) * 0x100_0000 + (if SignBit(bits) then 0x80_0000 else 0) + Mantissa(bits)
  {
  }

  /** A mantissa shifted by whole bytes, up or down, so that `size` bytes remain. */
  function Shifted(mantissa: nat, size: nat): nat {
    if size >= 3 then mantissa * Pow256(size - 3)
    else Floor(mantissa, Pow256(3 - size))
  }

  /** The number a compact encoding names. */
  function CompactValue(bits: Compact): nat { Shifted(Mantissa(bits), Size(bits)) }

  /** What `bits` decodes to: nothing when the sign bit is set, or the number is zero or does not
      fit in 256 bits. */
  function Decoded(bits: Compact): Option<Target> {
    if SignBit(bits) || CompactValue(bits) == 0 || CompactValue(bits) >= Pow256(TARGET_BYTES) then None
    else Some(BeBytes(CompactValue(bits), TARGET_BYTES))
  }

  /** Byte `i` of a mantissa, most significant first. */
  function ByteAt(mantissa: nat, i: nat): byte
    requires i < 3
  {
    if i == 0 then mantissa / 0x1_0000 % 0x100
    else if i == 1 then mantissa / 0x100 % 0x100
    else mantissa % 0x100
  }

  /** What mantissa byte `i` adds to the target. */
  function Placed(mantissa: nat, size: nat, i: nat): nat
    requires i < 3
  {
    if size >= i + 1 then ByteAt(mantissa, i) * Pow256(size - 1 - i) else 0
  }

  lemma SmallPows()
    ensures Pow256(0) == 1 && Pow256(1) == 0x100 && Pow256(2) == 0x1_0000 && Pow256(3) == 0x100_0000
  {
    assert Pow256(1) == 256 * Pow256(0) && Pow256(2) == 256 * Pow256(1);
  }

  lemma BytesOfMantissa(m: nat)
    requires m < 0x100_0000
    ensures m == ByteAt(m, 0) * 0x1_0000 + ByteAt(m, 1) * 0x100 + ByteAt(m, 2)
    ensures m / 0x1_0000 == ByteAt(m, 0) && m / 0x100 == ByteAt(m, 0) * 0x100 + ByteAt(m, 1)
  {
  }

  lemma ThreeProducts(a: nat, b: nat, c: nat, p: nat)
    ensures (a * 0x1_0000 + b * 0x100 + c) * p == a * (0x1_0000 * p) + b * (0x100 * p) + c * p
  {
    Distribute(a * 0x1_0000 + b * 0x100, c, p);
    Distribute(a * 0x1_0000, b * 0x100, p);
  }

  lemma PlacedBytesAreTheValue(m: nat, size: nat)
    requires m < 0x100_0000
    ensures Placed(m, size, 0) + Placed(m, size, 1) + Placed(m, size, 2) == Shifted(m, size)
  {
    hide Pow256, ByteAt;
    SmallPows();
    BytesOfMantissa(m);
    if size >= 3 {
      PowAdd(2, size - 3);
      PowAdd(1, size - 3);
      ThreeProducts(ByteAt(m, 0), ByteAt(m, 1), ByteAt(m, 2), Pow256(size - 3));
    }
  }

  lemma PowMonotone(j: nat, k: nat)
    requires j <= k
    ensures Pow256(j) <= Pow256(k)
  {
    PowAdd(j, k - j);
    MulMono(1, Pow256(k - j), Pow256(j));
  }

  /** A byte that would fall above the 256 bits makes the number too large. */
  lemma FallsAbove(m: nat, size: nat, i: nat)
    requires m < 0x100_0000 && i < 3 && size > TARGET_BYTES + i && ByteAt(m, i) != 0
    ensures Shifted(m, size) >= Pow256(TARGET_BYTES)
  {
    hide Pow256, Shifted, ByteAt;
    PlacedBytesAreTheValue(m, size);
    PowMonotone(TARGET_BYTES, size - 1 - i);
    MulMono(1, ByteAt(m, i), Pow256(size - 1 - i));
  }

  lemma TooLongDecodesToNothing(bits: Compact)
    requires Size(bits) > MAX_COMPACT_TARGET_SIZE
    ensures Decoded(bits).None?
  {
    hide Pow256;
    if Mantissa(bits) > 0 {
      PowMonotone(TARGET_BYTES, Size(bits) - 3);
      MulMono(1, Mantissa(bits), Pow256(Size(bits) - 3));
    }
  }

  lemma ZerosValue(n: nat)
    ensures Value(Zeros(n)) == 0
  {
    ValueZero(Zeros(n));
  }

  /** The first `i` mantissa bytes placed. */
  function PlacedSoFar(m: nat, size: nat, i: nat): nat
    requires i <= 3
  {
    if i == 0 then 0 else PlacedSoFar(m, size, i - 1) + Placed(m, size, i - 1)
  }

  lemma AllPlaced(m: nat, size: nat)
    requires m < 0x100_0000
    ensures PlacedSoFar(m, size, 3) == Shifted(m, size)
  {
    hide Placed, Shifted;
    PlacedBytesAreTheValue(m, size);
    assert PlacedSoFar(m, size, 2) == PlacedSoFar(m, size, 1) + Placed(m, size, 1);
  }

  /** The target `bits` encodes, byte by byte; none where it is refused. */
  method BitsToTarget(bits: Compact) returns (target: Option<Target>)
    ensures target == Decoded(bits)
  {
    hide Pow256, Value, Shifted, ByteAt, Zeros, BeBytes, PlacedSoFar;
    if SignBit(bits) {
      return None;
    }
    var size, mantissa := Size(bits), Mantissa(bits);
    if size > MAX_COMPACT_TARGET_SIZE {
      TooLongDecodesToNothing(bits);
      return None;
    }
    var t: seq<byte> := Zeros(TARGET_BYTES);
    ZerosValue(TARGET_BYTES);
    NonePlaced(mantissa, size);
    for i := 0 to 3
      invariant |t| == TARGET_BYTES
      invariant Value(t) == PlacedSoFar(mantissa, size, i)
      invariant forall k :: 0 <= k < TARGET_BYTES && k >= TARGET_BYTES - size + i ==> t[k] == 0
    {
      var at := TARGET_BYTES - size + i;
      var b := ByteAt(mantissa, i);
      OneMorePlaced(mantissa, size, i);
      if at >= TARGET_BYTES {
      } else if at >= 0 {
        ValueOfUpdate(t, at, b);
        t := t[at := b];
      } else if b != 0 {
        FallsAbove(mantissa, size, i);
        return None;
      }
    }
    AllPlaced(mantissa, size);
    ValueZero(t);
    ValueBound(t);
    ValueRoundTrip(t);
    return if exists k :: 0 <= k < TARGET_BYTES && t[k] != 0 then Some(t) else None;
  }

  lemma NonePlaced(m: nat, size: nat)
    ensures PlacedSoFar(m, size, 0) == 0
  {
  }

  lemma OneMorePlaced(m: nat, size: nat, i: nat)
    requires i < 3
    ensures PlacedSoFar(m, size, i + 1) == PlacedSoFar(m, size, i) + Placed(m, size, i)
  {
  }

  // ---- Encoding a target ----

  /** The first place from `i` on that is not zero. */
  function FirstNonZero(t: seq<byte>, i: nat): (first: Option<nat>)
    requires i <= |t|
    ensures first.Some? ==> i <= first.value < |t| && t[first.value] != 0
    ensures forall k :: i <= k < (if first.Some? then first.value else |t|) ==> t[k] == 0
    decreases |t| - i
  {
    if i == |t| then None else if t[i] != 0 then Some(i) else FirstNonZero(t, i + 1)
  }

  function At(t: Target, i: nat): byte { if i < TARGET_BYTES then t[i] else 0 }

  function TargetToBits(t: Target): Compact {
    match FirstNonZero(t, 0)
    case None => 0
    case Some(first) =>
      var size := TARGET_BYTES - first;
      var m0: nat, m1: nat, m2: nat := At(t, first), At(t, first + 1), At(t, first + 2);
      if m0 >= 0x80 then (size + 1) * 0x100_0000 + m0 * 0x100 + m1
      else size * 0x100_0000 + m0 * 0x1_0000 + m1 * 0x100 + m2
  }

  /** How many bytes of a target its encoding drops: all but the first three, or all but two when
      the first would set the sign bit. */
  function Dropped(t: Target): nat {
    match FirstNonZero(t, 0)
    case None => 0
    case Some(first) => Sub(TARGET_BYTES - first, if t[first] >= 0x80 then 2 else 3)
  }

  lemma FieldsOf(size: nat, mantissa: nat)
    requires size < 0x100 && mantissa < 0x80_0000
    ensures var bits := size * 0x100_0000 + mantissa;
            bits < 0x1_0000_0000 && Size(bits) == size && Mantissa(bits) == mantissa && !SignBit(bits)
  {
  }

  lemma LeadingBytes(bytes: seq<byte>, n: nat)
    requires n <= |bytes|
    ensures Value(bytes[..n]) == Value(bytes) / Pow256(|bytes| - n)
  {
    hide Value, Pow256;
    var p := Pow256(|bytes| - n);
    assert bytes == bytes[..n] + bytes[n..];
    ValueConcat(bytes[..n], bytes[n..]);
    ValueBound(bytes[n..]);
    Distribute(Value(bytes[..n]), 1, p);
    FloorIs(Value(bytes), p, Value(bytes[..n]));
  }

  lemma FewBytes(bytes: seq<byte>)
    requires 1 <= |bytes| <= 3
    ensures |bytes| == 1 ==> Value(bytes) == bytes[0]
    ensures |bytes| == 2 ==> Value(bytes) == bytes[0] as int * 0x100 + bytes[1] as int
    ensures |bytes| == 3 ==> Value(bytes) == bytes[0] as int * 0x1_0000 + bytes[1] as int * 0x100 + bytes[2] as int
  {
    OneByte(bytes[0]);
    assert bytes[..1] == [bytes[0]];
    if |bytes| >= 2 {
      assert bytes[..2][..1] == bytes[..1];
      assert Value(bytes[..2]) == 256 * Value(bytes[..1]) + bytes[1];
    }
    if |bytes| == 3 {
      assert Value(bytes) == 256 * Value(bytes[..2]) + bytes[2];
    } else {
      assert bytes == bytes[..|bytes|];
    }
  }

  /** The bytes in front of the first that is not zero count for nothing. */
  lemma WithoutLeadingZeros(t: Target, first: nat)
    requires FirstNonZero(t, 0) == Some(first)
    ensures Value(t[first..]) == Value(t) >= Pow256(TARGET_BYTES - 1 - first)
  {
    hide Value, Pow256;
    assert t == t[..first] + t[first..];
    ValueConcat(t[..first], t[first..]);
    ValueZero(t[..first]);
    assert t[first..] == [t[first]] + t[first + 1..];
    ValueConcat([t[first]], t[first + 1..]);
    OneByte(t[first]);
    MulMono(1, t[first], Pow256(TARGET_BYTES - 1 - first));
  }

  /** What an encoding keeps of the number: its leading part, with zeros for the dropped bytes. */
  lemma EncodedNumber(t: Target)
    requires FirstNonZero(t, 0).Some?
    ensures !SignBit(TargetToBits(t))
    ensures CompactValue(TargetToBits(t)) == Value(t) / Pow256(Dropped(t)) * Pow256(Dropped(t))
    ensures Dropped(t) > 0 ==> Value(t) / Pow256(Dropped(t)) >= 0x8000
    ensures Value(t) / Pow256(Dropped(t)) > 0
  {
    hide Value, Pow256, FirstNonZero, SignBit, Size, Mantissa;
    var first := FirstNonZero(t, 0).value;
    var rest := t[first..];
    var size := TARGET_BYTES - first;
    var m0: int, m1: int, m2: int := At(t, first), At(t, first + 1), At(t, first + 2);
    SmallPows();
    WithoutLeadingZeros(t, first);
    var keep := Min(size, if m0 >= 0x80 then 2 else 3);
    LeadingBytes(rest, keep);
    FewBytes(rest[..keep]);
    if m0 >= 0x80 {
      FieldsOf(size + 1, m0 * 0x100 + m1);
    } else {
      FieldsOf(size, m0 * 0x1_0000 + m1 * 0x100 + m2);
    }
  }

  /** `u` is `t` with its dropped bytes zeroed: not above it, and less than one unit of the last byte
      kept below it. */
  predicate RoundsDown(t: Target, u: Target) {
    && Value(u) == Value(t) / Pow256(Dropped(t)) * Pow256(Dropped(t))
    && Value(u) <= Value(t) < Value(u) + Pow256(Dropped(t))
  }

  /** The target an encoding names is the number with its dropped bytes zeroed: never above the
      target encoded, and never as much as one unit of the last byte kept below it. A zero target
      encodes to bits that name nothing. */
  lemma EncodingRoundsDown(t: Target)
    ensures Value(t) == 0 ==> TargetToBits(t) == 0 && Decoded(TargetToBits(t)).None?
    ensures Value(t) > 0 ==> Decoded(TargetToBits(t)).Some? && RoundsDown(t, Decoded(TargetToBits(t)).value)
  {
    hide Value, Pow256, BeBytes, FirstNonZero, TargetToBits, Dropped, CompactValue;
    ValueZero(t);
    ValueBound(t);
    if Value(t) == 0 {
      ZeroEncodesToZero(t);
    } else {
      EncodedNumber(t);
      var p := Pow256(Dropped(t));
      FloorBounds(Value(t), p);
      Distribute(Value(t) / p, 1, p);
      MulMono(1, Value(t) / p, p);
      BeRoundTrip(CompactValue(TargetToBits(t)), TARGET_BYTES);
    }
  }

  lemma ZeroEncodesToZero(t: Target)
    requires FirstNonZero(t, 0).None?
    ensures TargetToBits(t) == 0 && Decoded(0).None?
  {
    SmallPows();
  }

  lemma AtMostWhole(m: nat, p: pos)
    ensures Floor(m, p) <= m
  {
    FloorBounds(m, p);
    if m / p > m {
      MulMono(m + 1, m / p, p);
      MulMono(1, p, m + 1);
    }
  }

  /** Below the dropped bytes a mantissa reaches less than 16 bits. */
  lemma ReachesLittle(m: nat, size: nat, k: nat)
    requires m < 0x80_0000 && k > 0 && size < 3 + k
    ensures Shifted(m, size) <= 0x8000 * Pow256(k)
  {
    hide Pow256, Floor;
    SmallPows();
    PowAdd(k - 1, 1);
    var q := Pow256(k - 1);
    assert Pow256(k) == 0x100 * q;
    if size >= 3 {
      var p := Pow256(size - 3);
      PowMonotone(size - 3, k - 1);
      MulMono(m, 0x80_0000, p);
    } else {
      AtMostWhole(m, Pow256(3 - size));
    }
  }

  /** A number of 23 bits shifted by whole bytes that is at most `v` stays at most `v` when `v`
      drops `k` bytes, as long as 16 bits of it or more are left. */
  lemma FitsUnder(m: nat, size: nat, v: nat, k: nat)
    requires m < 0x80_0000 && Shifted(m, size) <= v
    requires k > 0 ==> v / Pow256(k) >= 0x8000
    ensures Shifted(m, size) <= v / Pow256(k) * Pow256(k)
  {
    hide Pow256, Floor;
    var p: pos := Pow256(k);
    if k == 0 {
      SmallPows();
      FloorBounds(v, 1);
    } else if size >= 3 + k {
      var up := m * Pow256(size - 3 - k);
      PowAdd(size - 3 - k, k);
      MulAssoc(m, Pow256(size - 3 - k), p);
      FloorIsLargest(v, p, up);
      MulMono(up, v / p, p);
    } else {
      ReachesLittle(m, size, k);
      MulMono(0x8000, v / p, p);
    }
  }

  /** No encoding names a target nearer from below: whatever bits decode to at most `t` decode to at
      most what the encoding of `t` names. */
  lemma EncodingIsTheLargestBelow(t: Target, bits: Compact)
    requires Value(t) > 0 && Decoded(bits).Some? && Value(Decoded(bits).value) <= Value(t)
    ensures Decoded(TargetToBits(t)).Some?
    ensures Value(Decoded(bits).value) <= Value(Decoded(TargetToBits(t)).value)
  {
    hide Value, Pow256, BeBytes, FirstNonZero, TargetToBits, Dropped, Shifted;
    EncodingRoundsDown(t);
    ValueZero(t);
    EncodedNumber(t);
    BeRoundTrip(CompactValue(bits), TARGET_BYTES);
    FitsUnder(Mantissa(bits), Size(bits), Value(t), Dropped(t));
  }

  /** Decoding what a decoded target encodes to gives it back. */
  lemma DecodeEncodeDecode(bits: Compact)
    requires Decoded(bits).Some?
    ensures Decoded(TargetToBits(Decoded(bits).value)) == Decoded(bits)
  {
    hide Value, Pow256, BeBytes, FirstNonZero, TargetToBits, Dropped, Shifted;
    var t := Decoded(bits).value;
    BeRoundTrip(CompactValue(bits), TARGET_BYTES);
    EncodingRoundsDown(t);
    EncodingIsTheLargestBelow(t, bits);
    ValueRoundTrip(t);
    ValueRoundTrip(Decoded(TargetToBits(t)).value);
  }
}
