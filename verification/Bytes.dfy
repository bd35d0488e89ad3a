/** Bytes as numbers, in both orders. */
module Bytes {
  import opened Basics
  import opened Arithmetic

  type byte = b: int | 0 <= b < 256

  /** 256^k. */
  function Pow256(k: nat): (p: pos) { if k == 0 then 1 else 256 * Pow256(k - 1) }

  /** `n` in `k` bytes, least significant first. */
  function LeBytes(n: nat, k: nat): (bytes: seq<byte>)
    ensures |bytes| == k
  {
    if k == 0 then [] else [n % 256] + LeBytes(n / 256, k - 1)
  }

  function FromLe(bytes: seq<byte>): nat {
    if bytes == [] then 0 else bytes[0] + 256 * FromLe(bytes[1..])
  }

  lemma {:induction false} LeRoundTrip(n: nat, k: nat)
    requires n < Pow256(k)
    ensures FromLe(LeBytes(n, k)) == n
  {
    if k > 0 {
      LeRoundTrip(n / 256, k - 1);
    }
  }

  lemma {:induction false} FromLeRoundTrip(bytes: seq<byte>)
    ensures LeBytes(FromLe(bytes), |bytes|) == bytes && FromLe(bytes) < Pow256(|bytes|)
  {
    if bytes != [] {
      var rest := FromLe(bytes[1..]);
      FromLeRoundTrip(bytes[1..]);
      assert (bytes[0] + 256 * rest) / 256 == rest && (bytes[0] + 256 * rest) % 256 == bytes[0];
      assert bytes == [bytes[0]] + bytes[1..];
    }
  }

  lemma {:induction false} PowAdd(j: nat, k: nat)
    ensures Pow256(j + k) == Pow256(j) * Pow256(k)
  {
    if j > 0 {
      PowAdd(j - 1, k);
      assert Pow256(j + k) == 256 * Pow256(j - 1 + k);
    }
  }

  /** 2^k. */
  function Pow2(k: nat): (p: pos) { if k == 0 then 1 else 2 * Pow2(k - 1) }

  lemma {:induction false} Pow2Add(j: nat, k: nat)
    ensures Pow2(j + k) == Pow2(j) * Pow2(k)
  {
    if j > 0 {
      Pow2Add(j - 1, k);
      assert Pow2(j + k) == 2 * Pow2(j - 1 + k);
    }
  }

  lemma {:induction false} Pow2OfBytes(k: nat)
    ensures Pow2(8 * k) == Pow256(k)
  {
    if k > 0 {
      Pow2OfBytes(k - 1);
      assert Pow2(8 * k) == 2 * Pow2(8 * k - 1);
      assert Pow2(8 * k - 1) == 2 * Pow2(8 * k - 2) && Pow2(8 * k - 2) == 2 * Pow2(8 * k - 3);
      assert Pow2(8 * k - 3) == 2 * Pow2(8 * k - 4) && Pow2(8 * k - 4) == 2 * Pow2(8 * k - 5);
      assert Pow2(8 * k - 5) == 2 * Pow2(8 * k - 6) && Pow2(8 * k - 6) == 2 * Pow2(8 * k - 7);
      assert Pow2(8 * k - 7) == 2 * Pow2(8 * (k - 1));
    }
  }

  // ---- Most significant first ----

  /** The number `bytes` writes, most significant byte first. */
  function Value(bytes: seq<byte>): nat {
    if bytes == [] then 0 else 256 * Value(bytes[..|bytes| - 1]) + bytes[|bytes| - 1]
  }

  lemma {:induction false} ValueBound(bytes: seq<byte>)
    ensures Value(bytes) < Pow256(|bytes|)
  {
    if bytes != [] {
      ValueBound(bytes[..|bytes| - 1]);
    }
  }

  lemma {:induction false} ValueConcat(a: seq<byte>, b: seq<byte>)
    ensures Value(a + b) == Value(a) * Pow256(|b|) + Value(b)
  {
    if b == [] {
      assert a + b == a;
    } else {
      var front := b[..|b| - 1];
      ValueConcat(a, front);
      assert (a + b)[..|a + b| - 1] == a + front;
      Distribute(Value(a) * Pow256(|front|), Value(front), 256);
      assert Value(a) * Pow256(|b|) == 256 * (Value(a) * Pow256(|front|));
    }
  }

  /** Only zeros write zero. */
  lemma {:induction false} ValueZero(bytes: seq<byte>)
    ensures Value(bytes) == 0 <==> forall i :: 0 <= i < |bytes| ==> bytes[i] == 0
  {
    if bytes != [] {
      ValueZero(bytes[..|bytes| - 1]);
    }
  }

  /** Writing another byte at one place. */
  lemma {:induction false} ValueOfUpdate(bytes: seq<byte>, i: nat, b: byte)
    requires i < |bytes|
    ensures Value(bytes[i := b]) == Value(bytes) + (b - bytes[i]) * Pow256(|bytes| - 1 - i)
  {
    var front := bytes[..|bytes| - 1];
    if i == |bytes| - 1 {
      assert bytes[i := b][..|bytes| - 1] == front;
    } else {
      ValueOfUpdate(front, i, b);
      assert bytes[i := b][..|bytes| - 1] == front[i := b];
      var d, p := b - bytes[i], Pow256(|front| - 1 - i);
      assert d * (256 * p) == 256 * (d * p);
    }
  }

  /** `n` in `k` bytes, most significant first. */
  function BeBytes(n: nat, k: nat): (bytes: seq<byte>)
    ensures |bytes| == k
  {
    if k == 0 then [] else BeBytes(n / 256, k - 1) + [n % 256]
  }

  lemma {:induction false} BeRoundTrip(n: nat, k: nat)
    requires n < Pow256(k)
    ensures Value(BeBytes(n, k)) == n
  {
    if k > 0 {
      BeRoundTrip(n / 256, k - 1);
      assert BeBytes(n, k)[..k - 1] == BeBytes(n / 256, k - 1);
    }
  }

  lemma {:induction false} ValueRoundTrip(bytes: seq<byte>)
    ensures BeBytes(Value(bytes), |bytes|) == bytes
  {
    if bytes != [] {
      var front, last := bytes[..|bytes| - 1], bytes[|bytes| - 1];
      ValueRoundTrip(front);
      assert (256 * Value(front) + last) / 256 == Value(front) && (256 * Value(front) + last) % 256 == last;
      assert bytes == front + [last];
    }
  }

  /** Byte strings of one length are ordered as they compare byte by byte. */
  predicate LexAtMost(a: seq<byte>, b: seq<byte>)
    requires |a| == |b|
  {
    a == [] || a[0] < b[0] || (a[0] == b[0] && LexAtMost(a[1..], b[1..]))
  }

  lemma {:induction false} LexIsNumeric(a: seq<byte>, b: seq<byte>)
    requires |a| == |b|
    ensures LexAtMost(a, b) <==> Value(a) <= Value(b)
  {
    if a != [] {
      LexIsNumeric(a[1..], b[1..]);
      var p := Pow256(|a| - 1);
      assert a == [a[0]] + a[1..] && b == [b[0]] + b[1..];
      ValueConcat([a[0]], a[1..]);
      ValueConcat([b[0]], b[1..]);
      OneByte(a[0]);
      OneByte(b[0]);
      ValueBound(a[1..]);
      ValueBound(b[1..]);
      if a[0] < b[0] {
        MulMono(a[0] + 1, b[0], p);
        Distribute(a[0], 1, p);
      } else if b[0] < a[0] {
        MulMono(b[0] + 1, a[0], p);
        Distribute(b[0], 1, p);
      }
    }
  }

  lemma OneByte(b: byte)
    ensures Value([b]) == b
  {
    assert [b][..0] == [];
  }
}
