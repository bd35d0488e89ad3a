/** The weights a block's value is divided by. */
module Weights {

  /** One identity's part of the window's work. */
  datatype Weight = Weight(identity: string, work: nat)

  function Total(weights: seq<Weight>): nat {
    if weights == [] then 0 else Total(weights[..|weights| - 1]) + weights[|weights| - 1].work
  }

  lemma {:induction false} AllZero(weights: seq<Weight>)
    requires forall k :: 0 <= k < |weights| ==> weights[k].work == 0
    ensures Total(weights) == 0
  {
    if weights != [] {
      AllZero(weights[..|weights| - 1]);
    }
  }

  lemma {:induction false} TotalOfUpdate(weights: seq<Weight>, at: nat, w: Weight)
    requires at < |weights|
    ensures Total(weights[at := w]) == Total(weights) - weights[at].work + w.work
  {
    var front := weights[..|weights| - 1];
    if at == |weights| - 1 {
      assert weights[at := w][..at] == front;
    } else {
      assert weights[at := w][..|weights| - 1] == front[at := w];
      TotalOfUpdate(front, at, w);
    }
  }

  lemma {:induction false} TotalConcat(a: seq<Weight>, b: seq<Weight>)
    ensures Total(a + b) == Total(a) + Total(b)
  {
    if b == [] {
      assert a + b == a;
    } else {
      assert (a + b)[..|a + b| - 1] == a + b[..|b| - 1];
      TotalConcat(a, b[..|b| - 1]);
    }
  }

  lemma TotalDropFirst(s: seq<Weight>)
    requires s != []
    ensures Total(s) == s[0].work + Total(s[1..])
  {
    assert s == s[..1] + s[1..];
    TotalConcat(s[..1], s[1..]);
    assert s[..1][..0] == [];
  }
}
