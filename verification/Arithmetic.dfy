/** Products and floors over the integers, one step at a time. */
module Arithmetic {
  import opened Basics

  function Floor(a: nat, b: pos): nat { a / b }

  lemma MulMono(x: int, y: int, c: int)
    requires x <= y && c >= 0
    ensures x * c <= y * c
  {
  }

  lemma MulStrict(x: int, y: int, c: int)
    requires x < y && c > 0
    ensures x * c < y * c
  {
  }

  lemma MulCancel(x: int, y: int, c: int)
    requires x * c <= y * c && c > 0
    ensures x <= y
  {
    if x > y {
      MulStrict(y, x, c);
    }
  }

  lemma MulCancelStrict(x: int, y: int, c: int)
    requires x * c < y * c && c > 0
    ensures x < y
  {
    if x >= y {
      MulMono(y, x, c);
    }
  }

  lemma Distribute(x: int, y: int, c: int)
    ensures (x + y) * c == x * c + y * c
    ensures (x - y) * c == x * c - y * c
  {
  }

  lemma MulAssoc(x: int, y: int, z: int)
    ensures x * (y * z) == (x * y) * z
  {
  }

  lemma MulSwap(x: int, y: int, z: int)
    ensures (x * y) * z == (x * z) * y
  {
  }

  /** The floor is the largest whole number of times `b` goes into `a`. */
  lemma FloorBounds(a: int, b: int)
    requires b > 0
    ensures a / b * b <= a < (a / b + 1) * b
  {
    assert a == a / b * b + a % b;
    Distribute(a / b, 1, b);
  }

  lemma FloorIsLargest(a: int, b: int, q: int)
    requires b > 0 && q * b <= a
    ensures q <= a / b
  {
    FloorBounds(a, b);
    MulCancelStrict(q, a / b + 1, b);
  }

  lemma FloorIs(a: int, b: int, q: int)
    requires b > 0 && q * b <= a < (q + 1) * b
    ensures a / b == q
  {
    FloorBounds(a, b);
    FloorIsLargest(a, b, q);
    MulCancelStrict(a / b, q + 1, b);
  }

  lemma FloorMonotone(a: int, b: int, c: int)
    requires a <= b && c > 0
    ensures a / c <= b / c
  {
    FloorBounds(a, c);
    FloorIsLargest(b, c, a / c);
  }

  lemma FloorOfMultiple(a: int, c: int)
    requires c > 0
    ensures a * c / c == a
  {
    Distribute(a, 1, c);
    FloorIs(a * c, c, a);
  }

  /** A number is its floor times the divisor and its remainder, in one way only. */
  lemma DivMod(a: int, b: int)
    requires b > 0
    ensures a == a / b * b + a % b && 0 <= a % b < b
  {
  }

  lemma RemainderIs(a: int, b: int, q: int, r: int)
    requires 0 <= r < b && a == q * b + r
    ensures a / b == q && a % b == r
  {
    Distribute(q, 1, b);
    FloorIs(a, b, q);
    DivMod(a, b);
  }
}
