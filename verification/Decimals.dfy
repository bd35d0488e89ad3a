/** Numbers written in decimal. */
module Decimals {
  import opened Basics
  import opened Arithmetic

  predicate AreDigits(s: string) { forall i :: 0 <= i < |s| ==> '0' <= s[i] <= '9' }

  /** The number a string of digits writes. */
  function Number(s: string): nat
    requires AreDigits(s)
  {
    if s == "" then 0 else 10 * Number(s[..|s| - 1]) + (s[|s| - 1] as int - '0' as int)
  }

  function Pow10(k: nat): (p: pos) { if k == 0 then 1 else 10 * Pow10(k - 1) }

  function Digit(d: nat): (c: char)
    requires d < 10
    ensures '0' <= c <= '9' && c as int - '0' as int == d
  {
    (d + '0' as int) as char
  }

  /** `n` in decimal, without leading zeros. */
  function Written(n: nat): (s: string)
    ensures AreDigits(s) && Number(s) == n && |s| > 0
  {
    if n < 10 then assert [Digit(n)][..0] == ""; [Digit(n)]
    else var front := Written(n / 10); assert (front + [Digit(n % 10)])[..|front|] == front; front + [Digit(n % 10)]
  }

  /** `n` in `width` digits, zeros in front. */
  function Padded(n: nat, width: nat): (s: string)
    ensures AreDigits(s) && |s| == width
  {
    if width == 0 then "" else Padded(n / 10, width - 1) + [Digit(n % 10)]
  }

  lemma {:induction false} PaddedNumber(n: nat, width: nat)
    requires n < Pow10(width)
    ensures Number(Padded(n, width)) == n
  {
    if width > 0 {
      PaddedNumber(n / 10, width - 1);
      assert Padded(n, width)[..width - 1] == Padded(n / 10, width - 1);
    }
  }

  lemma {:induction false} Pow10Add(j: nat, k: nat)
    ensures Pow10(j + k) == Pow10(j) * Pow10(k)
  {
    if j > 0 {
      Pow10Add(j - 1, k);
      assert Pow10(j + k) == 10 * Pow10(j - 1 + k);
    }
  }

  lemma {:induction false} NumberConcat(a: string, b: string)
    requires AreDigits(a) && AreDigits(b)
    ensures Number(a + b) == Number(a) * Pow10(|b|) + Number(b)
  {
    if b == "" {
      assert a + b == a;
    } else {
      var front := b[..|b| - 1];
      NumberConcat(a, front);
      assert (a + b)[..|a + b| - 1] == a + front;
      Distribute(Number(a) * Pow10(|front|), Number(front), 10);
      TenTimes(Number(a), |front|);
    }
  }

  /** Without the zeros at its end. */
  function Trimmed(s: string): (t: string)
    requires AreDigits(s)
    ensures t <= s && AreDigits(t) && (t != "" ==> t[|t| - 1] != '0')
  {
    if s != "" && s[|s| - 1] == '0' then Trimmed(s[..|s| - 1]) else s
  }

  lemma {:induction false} TrimmedNumber(s: string)
    requires AreDigits(s)
    ensures Number(s) == Number(Trimmed(s)) * Pow10(|s| - |Trimmed(s)|)
    ensures Number(s) > 0 ==> Trimmed(s) != ""
  {
    if s != "" && s[|s| - 1] == '0' {
      var front := s[..|s| - 1];
      TrimmedNumber(front);
      assert Number(s) == 10 * Number(front) && Trimmed(s) == Trimmed(front);
      TenTimes(Number(Trimmed(s)), |front| - |Trimmed(s)|);
    } else {
      assert Pow10(0) == 1;
    }
  }

  lemma TenTimes(a: nat, k: nat)
    ensures a * Pow10(k + 1) == 10 * (a * Pow10(k))
  {
    MulTen(a, Pow10(k));
  }

  lemma MulTen(a: nat, p: nat)
    ensures a * (10 * p) == 10 * (a * p)
  {
  }
}
