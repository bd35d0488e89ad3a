/** Shifting a target up with saturation, and what rests on it: which refused blocks are passed on
    to the node, and the targets that a power of two names. */
module TargetShift {
  import opened Basics
  import opened Arithmetic
  import opened Bytes
  import opened Target

  // ---- One byte of a shift ----

  /** 2^s for a shift within a byte. */
  function TwoTo(s: nat): (p: nat)
    requires s < 8
    ensures 1 <= p <= 128
  {
    if s == 0 then 1 else if s == 1 then 2 else if s == 2 then 4 else if s == 3 then 8
    else if s == 4 then 16 else if s == 5 then 32 else if s == 6 then 64 else 128
  }

  lemma TwoToIsPow2(s: nat)
    requires s < 8
    ensures TwoTo(s) == Pow2(s)
    ensures s > 0 ==> TwoTo(s) * TwoTo(8 - s) == 256
  {
    assert Pow2(1) == 2 * Pow2(0) && Pow2(2) == 2 * Pow2(1) && Pow2(3) == 2 * Pow2(2);
    assert Pow2(4) == 2 * Pow2(3) && Pow2(5) == 2 * Pow2(4) && Pow2(6) == 2 * Pow2(5) && Pow2(7) == 2 * Pow2(6);
  }

  /** The bits of `b` that a shift by `s` moves into the byte above. */
  function Carry(b: byte, s: nat): (c: nat)
    requires s < 8
  {
    if s == 0 then 0 else b / TwoTo(8 - s)
  }

  /** A byte times `p` is its carry and a byte with room for the carry of another. */
  lemma CarryOf(b: byte, low: byte, p: pos, q: pos)
    requires p * q == 256
    ensures b * p == 256 * (b / q) + b * p % 256
    ensures b * p % 256 + low / q < 256
  {
    var c, r := b / q, b % q;
    DivMod(b, q);
    Distribute(c * q, r, p);
    MulAssoc(c, q, p);
    MulStrict(r, q, p);
    RemainderIs(b * p, 256, c, r * p);
    MulMono(r, q - 1, p);
    Distribute(q, 1, p);
    FloorBounds(low, q);
    MulCancelStrict(low / q, p, q);
  }

  /** The byte a shift by `s` makes of a byte and the one below it. */
  function ShiftedByte(high: byte, low: byte, s: nat): (b: byte)
    requires s < 8
  {
    if s == 0 then high
    else
      TwoToIsPow2(s);
      CarryOf(high, low, TwoTo(s), TwoTo(8 - s));
      high * TwoTo(s) % 256 + Carry(low, s)
  }

  lemma CarryIsTheOverflow(b: byte, s: nat)
    requires s < 8
    ensures b * TwoTo(s) == 256 * Carry(b, s) + b * TwoTo(s) % 256
    ensures s == 0 ==> b * TwoTo(s) % 256 == b
  {
    if s > 0 {
      TwoToIsPow2(s);
      CarryOf(b, b, TwoTo(s), TwoTo(8 - s));
    }
  }

  lemma ShiftedByteIs(high: byte, low: byte, s: nat)
    requires s < 8
    ensures ShiftedByte(high, low, s) == high * TwoTo(s) - 256 * Carry(high, s) + Carry(low, s)
  {
    CarryIsTheOverflow(high, s);
  }

  lemma OneMoreByte(front: nat, high: byte, low: byte, s: nat, w: nat)
    requires s < 8 && w == front * TwoTo(s) + Carry(high, s)
    ensures 256 * w + ShiftedByte(high, low, s) == (256 * front + high) * TwoTo(s) + Carry(low, s)
  {
    hide TwoTo, Carry, ShiftedByte;
    ShiftedByteIs(high, low, s);
    Distribute(256 * front, high, TwoTo(s));
    MulAssoc(256, front, TwoTo(s));
  }

  // ---- The whole target ----

  /** Some of the first `n` bytes is not zero. */
  predicate AnySet(t: seq<byte>, n: nat)
    requires n <= |t|
  {
    exists k :: 0 <= k < n && t[k] != 0
  }

  predicate Overflows(t: Target, bits: nat) {
    var byteShift, bitShift := bits / 8, bits % 8;
    if byteShift >= TARGET_BYTES then AnySet(t, TARGET_BYTES)
    else AnySet(t, byteShift) || Carry(t[byteShift], bitShift) != 0
  }

  lemma Pow2Split(bits: nat)
    ensures Pow2(bits) == TwoTo(bits % 8) * Pow256(bits / 8)
  {
    hide TwoTo, Pow2, Pow256;
    Pow2Add(8 * (bits / 8), bits % 8);
    Pow2OfBytes(bits / 8);
    TwoToIsPow2(bits % 8);
  }

  /** A product that loses a set bit is too large. */
  lemma OverflowIsTooLarge(t: Target, bits: nat)
    requires Overflows(t, bits)
    ensures Value(t) * Pow2(bits) >= Pow256(TARGET_BYTES)
  {
    hide TwoTo, Pow2, Pow256, Value, Carry;
    var n, s := bits / 8, bits % 8;
    Pow2Split(bits);
    MulMono(1, TwoTo(s), Pow256(n));
    if n >= TARGET_BYTES {
      ValueZero(t);
      PowMonotone(TARGET_BYTES, n);
      MulMono(1, Value(t), Pow2(bits));
    } else if AnySet(t, n) {
      SetInFront(t, n);
      PowAdd(TARGET_BYTES - n, n);
      MulMono(Pow256(TARGET_BYTES - n), Value(t), Pow256(n));
      MulMono(Pow256(n), Pow2(bits), Value(t));
    } else {
      CarriedOut(t, n, s);
      var q := Pow256(TARGET_BYTES - 1 - n);
      MulMono(256 * q, Value(t) * TwoTo(s), Pow256(n));
      MulAssoc(Value(t), TwoTo(s), Pow256(n));
      PowAdd(TARGET_BYTES - 1 - n, n);
      PowAdd(1, TARGET_BYTES - 1);
      SmallPows();
      MulAssoc(256, q, Pow256(n));
    }
  }

  lemma SetInFront(t: Target, n: nat)
    requires n < TARGET_BYTES && AnySet(t, n)
    ensures Value(t) >= Pow256(TARGET_BYTES - n)
  {
    hide Pow256, Value;
    assert t == t[..n] + t[n..];
    ValueConcat(t[..n], t[n..]);
    ValueZero(t[..n]);
    var k :| 0 <= k < n && t[k] != 0;
    assert t[..n][k] != 0;
    MulMono(1, Value(t[..n]), Pow256(TARGET_BYTES - n));
  }

  lemma CarriedOut(t: Target, n: nat, s: nat)
    requires n < TARGET_BYTES && s < 8 && Carry(t[n], s) != 0
    ensures Value(t) * TwoTo(s) >= 256 * Pow256(TARGET_BYTES - 1 - n)
  {
    hide Pow256, Value, TwoTo;
    var q := Pow256(TARGET_BYTES - 1 - n);
    AtLeastItsByte(t, n);
    TwoToIsPow2(s);
    var p, r := TwoTo(s), TwoTo(8 - s);
    FloorBounds(t[n], r);
    MulMono(1, t[n] / r, r);
    MulMono(r, t[n], p);
    MulMono(t[n] * q, Value(t), p);
    MulAssoc(p, t[n], q);
    MulMono(256, t[n] * p, q);
  }

  lemma AtLeastItsByte(t: Target, n: nat)
    requires n < TARGET_BYTES
    ensures Value(t) >= t[n] * Pow256(TARGET_BYTES - 1 - n)
  {
    hide Pow256, Value;
    ValueOfUpdate(t, n, 0);
    Distribute(0, t[n], Pow256(TARGET_BYTES - 1 - n));
  }

  /** Without an overflow the bytes in front of the shift are zeros. */
  lemma NothingInFront(t: Target, n: nat)
    requires n <= TARGET_BYTES && !AnySet(t, n)
    ensures Value(t[n..]) == Value(t)
  {
    hide Pow256, Value;
    assert t == t[..n] + t[n..];
    ValueConcat(t[..n], t[n..]);
    ValueZero(t[..n]);
  }

  function Ones(n: nat): (bytes: seq<byte>)
    ensures |bytes| == n
  {
    if n == 0 then [] else Ones(n - 1) + [0xff]
  }

  lemma {:induction false} OnesValue(n: nat)
    ensures Value(Ones(n)) == Pow256(n) - 1
  {
    if n > 0 {
      OnesValue(n - 1);
      assert Ones(n)[..n - 1] == Ones(n - 1);
    }
  }

  lemma ValuePush(front: seq<byte>, b: byte)
    ensures Value(front + [b]) == 256 * Value(front) + b
  {
    assert (front + [b])[..|front|] == front;
  }

  /** The bytes written so far and the zeros after them. */
  lemma WrittenValue(out: Target, n: nat)
    requires n <= TARGET_BYTES && forall k :: TARGET_BYTES - n <= k < TARGET_BYTES ==> out[k] == 0
    ensures Value(out) == Value(out[..TARGET_BYTES - n]) * Pow256(n)
  {
    hide Pow256, Value;
    var m := TARGET_BYTES - n;
    assert out == out[..m] + out[m..];
    ValueConcat(out[..m], out[m..]);
    ValueZero(out[m..]);
  }

  /** The first `i` bytes written are the shift of the `i` bytes read, but for what the byte below
      carries in. */
  predicate Moved(t: Target, out: Target, n: nat, s: nat, i: nat)
    requires s < 8 && n + i <= TARGET_BYTES
  {
    Value(out[..i]) == Value(t[n..n + i]) * TwoTo(s) + Carry(At(t, n + i), s)
  }

  lemma NoneMoved(t: Target, out: Target, n: nat, s: nat)
    requires s < 8 && n < TARGET_BYTES && Carry(t[n], s) == 0
    ensures Moved(t, out, n, s, 0)
  {
    hide TwoTo, Carry;
    assert out[..0] == [] && t[n..n] == [];
  }

  lemma OneMoreMoved(t: Target, out: Target, n: nat, s: nat, i: nat)
    requires s < 8 && n + i < TARGET_BYTES && Moved(t, out, n, s, i)
    ensures Moved(t, out[i := ShiftedByte(t[n + i], At(t, n + i + 1), s)], n, s, i + 1)
  {
    hide TwoTo, Carry, ShiftedByte, Value;
    var b := ShiftedByte(t[n + i], At(t, n + i + 1), s);
    OneMoreByte(Value(t[n..n + i]), t[n + i], At(t, n + i + 1), s, Value(out[..i]));
    assert out[i := b][..i + 1] == out[..i] + [b];
    assert t[n..n + i + 1] == t[n..n + i] + [t[n + i]];
    ValuePush(out[..i], b);
    ValuePush(t[n..n + i], t[n + i]);
  }

  /** The shift, saturating: the byte loop computes the product, or the largest target past it. */
  method ShlSaturating(target: Target, bits: nat) returns (out: Target)
    ensures Value(out) == Min(Value(target) * Pow2(bits), Pow256(TARGET_BYTES) - 1)
  {
    hide TwoTo, Carry, ShiftedByte, Pow2, Pow256, Value, Ones, Zeros, AnySet, Moved;
    var byteShift, bitShift := bits / 8, bits % 8;
    if Overflows(target, bits) {
      OverflowIsTooLarge(target, bits);
      OnesValue(TARGET_BYTES);
      return Ones(TARGET_BYTES);
    }
    out := Zeros(TARGET_BYTES);
    if byteShift < TARGET_BYTES {
      NoneMoved(target, out, byteShift, bitShift);
    }
    var count := Sub(TARGET_BYTES, byteShift);
    for i := 0 to count
      invariant |out| == TARGET_BYTES
      invariant byteShift < TARGET_BYTES ==> Moved(target, out, byteShift, bitShift, i)
      invariant forall k :: i <= k < TARGET_BYTES ==> out[k] == 0
    {
      var high, low := target[i + byteShift], At(target, i + byteShift + 1);
      OneMoreMoved(target, out, byteShift, bitShift, i);
      out := out[i := ShiftedByte(high, low, bitShift)];
    }
    ShiftedValue(target, bits, out);
  }

  lemma ShiftedValue(t: Target, bits: nat, out: Target)
    requires !Overflows(t, bits)
    requires forall k :: Sub(TARGET_BYTES, bits / 8) <= k < TARGET_BYTES ==> out[k] == 0
    requires bits / 8 < TARGET_BYTES ==> Moved(t, out, bits / 8, bits % 8, TARGET_BYTES - bits / 8)
    ensures Value(out) == Value(t) * Pow2(bits) < Pow256(TARGET_BYTES)
  {
    hide TwoTo, Pow2, Pow256, Value;
    var n := bits / 8;
    ValueBound(out);
    if n >= TARGET_BYTES {
      ValueZero(t);
      ValueZero(out);
    } else {
      NothingInFront(t, n);
      assert t[n..n + (TARGET_BYTES - n)] == t[n..];
      CarryOfZero(bits % 8);
      WrittenValue(out, n);
      Pow2Split(bits);
      MulAssoc(Value(t), TwoTo(bits % 8), Pow256(n));
    }
  }

  lemma CarryOfZero(s: nat)
    requires s < 8
    ensures Carry(0, s) == 0
  {
  }

  // ---- Which refused blocks are passed on ----

  predicate MeetsTarget(hash: Target, target: Target) { LexAtMost(hash, target) }

  /** Which block a pool passes on to its node, in numbers. `onParent` is the template's bits when
      the template builds on the job's parent, `next` the bits of whatever template the pool holds. */
  predicate MayRelay(hash: Target, jobBits: Compact, allowsMinDifficulty: bool,
                     onParent: Option<Compact>, next: Option<Compact>)
  {
    && Decoded(jobBits).Some? && Value(hash) <= CompactValue(jobBits)
    && (allowsMinDifficulty
        || if onParent.Some? then jobBits == onParent.value
           else next.Some? && Decoded(next.value).Some? ==> CompactValue(jobBits) <= 4 * CompactValue(next.value))
  }

  lemma DecodedValue(bits: Compact)
    requires Decoded(bits).Some?
    ensures Value(Decoded(bits).value) == CompactValue(bits)
  {
    hide Pow256, Value, BeBytes, Shifted;
    BeRoundTrip(CompactValue(bits), TARGET_BYTES);
  }

  /** A target is at most `next` shifted by two bits exactly when it is at most four times `next`:
      saturation makes no difference. */
  lemma FourTimes(own: Target, next: Target, eased: Target)
    requires Value(eased) == Min(Value(next) * Pow2(MAX_RELAY_TARGET_SHIFT), Pow256(TARGET_BYTES) - 1)
    ensures LexAtMost(own, eased) <==> Value(own) <= 4 * Value(next)
  {
    hide Pow256, Value, LexAtMost;
    assert Pow2(2) == 2 * Pow2(1) && Pow2(1) == 2 * Pow2(0);
    LexIsNumeric(own, eased);
    ValueBound(own);
  }

  method Relayable(hash: Target, jobBits: Compact, allowsMinDifficulty: bool,
                   onParent: Option<Compact>, next: Option<Compact>) returns (relay: bool)
    ensures relay <==> MayRelay(hash, jobBits, allowsMinDifficulty, onParent, next)
  {
    hide Pow256, Pow2, Value, CompactValue, BeBytes, LexAtMost, SignBit;
    var own := BitsToTarget(jobBits);
    if own.None? {
      return false;
    }
    DecodedValue(jobBits);
    LexIsNumeric(hash, own.value);
    if !MeetsTarget(hash, own.value) {
      return false;
    }
    if allowsMinDifficulty {
      return true;
    }
    if onParent.Some? {
      return jobBits == onParent.value;
    }
    if next.None? {
      return true;
    }
    var ahead := BitsToTarget(next.value);
    if ahead.None? {
      return true;
    }
    DecodedValue(next.value);
    var eased := ShlSaturating(ahead.value, MAX_RELAY_TARGET_SHIFT);
    FourTimes(own.value, ahead.value, eased);
    return LexAtMost(own.value, eased);
  }

  // ---- The targets a power of two names ----

  function TargetForExponent(exponent: nat): Target {
    var bit := Sub(DIFF1_EXPONENT, exponent);
    Zeros(TARGET_BYTES)[TARGET_BYTES - 1 - bit / 8 := TwoTo(bit % 8)]
  }

  function ShareTarget(exponent: nat): Target {
    if exponent >= DIFF1_EXPONENT then Zeros(TARGET_BYTES)
    else
      var firstSet := 4 + exponent / 8;
      Zeros(firstSet) + [0xff / TwoTo(exponent % 8)] + Ones(TARGET_BYTES - 1 - firstSet)
  }

  lemma ExponentTargetIsThePower(exponent: nat)
    ensures Value(TargetForExponent(exponent)) == Pow2(Sub(DIFF1_EXPONENT, exponent))
  {
    hide TwoTo, Pow2, Pow256, Value, Zeros;
    var bit := Sub(DIFF1_EXPONENT, exponent);
    ZerosValue(TARGET_BYTES);
    ValueOfUpdate(Zeros(TARGET_BYTES), TARGET_BYTES - 1 - bit / 8, TwoTo(bit % 8));
    Pow2Split(bit);
  }

  /** The bytes of one less than a power of two. */
  lemma ShareTargetIsOneLess(exponent: nat)
    ensures Value(ShareTarget(exponent)) == Value(TargetForExponent(exponent)) - 1
  {
    hide TwoTo, Pow2, Pow256, Value, Zeros, Ones, TargetForExponent;
    ExponentTargetIsThePower(exponent);
    if exponent >= DIFF1_EXPONENT {
      ZerosValue(TARGET_BYTES);
      assert Pow2(0) == 1 by { PowerOfNothing(); }
    } else {
      var firstSet := 4 + exponent / 8;
      var count := TARGET_BYTES - 1 - firstSet;
      var b: byte := 0xff / TwoTo(exponent % 8);
      ZerosValue(firstSet);
      ValueConcat(Zeros(firstSet) + [b], Ones(count));
      ValuePush(Zeros(firstSet), b);
      OnesValue(count);
      Distribute(b, 1, Pow256(count));
      var bit := DIFF1_EXPONENT - exponent;
      Pow2Split(bit);
      TopByte(exponent % 8);
      if exponent % 8 == 0 {
        assert bit / 8 == count + 1 && bit % 8 == 0;
        PowAdd(1, count);
        SmallPows();
        TwoToIsPow2(0);
        PowerOfNothing();
      } else {
        assert bit / 8 == count && bit % 8 == 8 - exponent % 8;
      }
    }
  }

  lemma PowerOfNothing()
    ensures Pow2(0) == 1
  {
  }

  lemma TopByte(s: nat)
    requires s < 8
    ensures 0xff / TwoTo(s) + 1 == if s == 0 then 256 else TwoTo(8 - s)
  {
  }

  /** A hash that meets the bits a job for this exponent carries meets the target its shares are
      checked against. */
  lemma ShareBitsAreNoEasier(exponent: nat, hash: Target)
    requires Decoded(TargetToBits(ShareTarget(exponent))).Some?
    requires MeetsTarget(hash, Decoded(TargetToBits(ShareTarget(exponent))).value)
    ensures MeetsTarget(hash, TargetForExponent(exponent)) && Value(hash) < Pow2(Sub(DIFF1_EXPONENT, exponent))
  {
    hide Pow2, Pow256, Value, LexAtMost, Decoded, TargetToBits, ShareTarget, TargetForExponent;
    var t := ShareTarget(exponent);
    EncodingRoundsDown(t);
    ShareTargetIsOneLess(exponent);
    ExponentTargetIsThePower(exponent);
    LexIsNumeric(hash, Decoded(TargetToBits(t)).value);
    LexIsNumeric(hash, TargetForExponent(exponent));
  }
}
