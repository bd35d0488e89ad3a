/** Merkle trees over any pair hash: the branch form a coinbase is folded through, the whole
    tree, and the flag that tells a list hiding a duplicated tail. */
module Merkle {
  import opened Basics

  type Hash2<!T> = (T, T) -> T

  /** The right child of node `i` of the next level: the left one again where the level runs out. */
  function RightChild(n: nat, i: nat): (j: nat)
    requires 2 * i < n
    ensures j < n && (j == 2 * i + 1 || j == 2 * i == n - 1)
  {
    if 2 * i + 1 < n then 2 * i + 1 else 2 * i
  }

  function NextUpTo<T>(hash: Hash2<T>, level: seq<T>, k: nat): (next: seq<T>)
    requires k <= (|level| + 1) / 2
    ensures |next| == k
    ensures forall i :: 0 <= i < k ==> next[i] == hash(level[2 * i], level[RightChild(|level|, i)])
  {
    if k == 0 then []
    else NextUpTo(hash, level, k - 1) + [hash(level[2 * (k - 1)], level[RightChild(|level|, k - 1)])]
  }

  /** The next level of the tree. */
  function NextLevel<T>(hash: Hash2<T>, level: seq<T>): (next: seq<T>)
    ensures |next| == (|level| + 1) / 2
    ensures forall i :: 0 <= i < |next| ==> next[i] == hash(level[2 * i], level[RightChild(|level|, i)])
  {
    NextUpTo(hash, level, (|level| + 1) / 2)
  }

  function Root<T>(hash: Hash2<T>, level: seq<T>): T
    requires level != []
    decreases |level|
  {
    if |level| == 1 then level[0] else Root(hash, NextLevel(hash, level))
  }

  function Height(n: nat): nat
    decreases n
  {
    if n <= 1 then 0 else 1 + Height((n + 1) / 2)
  }

  /** A pair of equal siblings. */
  predicate AnyTwins<T(==)>(level: seq<T>) {
    exists i :: 0 <= i < |level| / 2 && level[2 * i] == level[2 * i + 1]
  }

  /** Some level of the tree has equal siblings. */
  predicate Mutated<T(==)>(hash: Hash2<T>, level: seq<T>)
    decreases |level|
  {
    |level| > 1 && (AnyTwins(level) || Mutated(hash, NextLevel(hash, level)))
  }

  // ---- The branch form ----

  /** What the first entry is folded with on its way to the root: its sibling at each level. */
  function Branches<T>(hash: Hash2<T>, level: seq<T>): seq<T>
    decreases |level|
  {
    if |level| <= 1 then [] else [level[1]] + Branches(hash, NextLevel(hash, level))
  }

  function Fold<T>(hash: Hash2<T>, first: T, branches: seq<T>): T {
    if branches == [] then first else Fold(hash, hash(first, branches[0]), branches[1..])
  }

  /** Folding the first entry through its branches gives the root of the whole tree, and there
      is one branch for each level. */
  lemma {:induction false} FoldingIsTheRoot<T>(hash: Hash2<T>, level: seq<T>)
    requires level != []
    ensures Fold(hash, level[0], Branches(hash, level)) == Root(hash, level)
    ensures |Branches(hash, level)| == Height(|level|)
    decreases |level|
  {
    if |level| > 1 {
      FoldingIsTheRoot(hash, NextLevel(hash, level));
      assert Branches(hash, level)[1..] == Branches(hash, NextLevel(hash, level));
    }
  }

  /** Two levels that agree but for their first entry. */
  ghost predicate SameButFirst<T>(a: seq<T>, b: seq<T>) {
    |a| == |b| && forall i :: 1 <= i < |a| ==> a[i] == b[i]
  }

  /** The branches do not depend on the first entry, so they can be computed before the coinbase
      is known. */
  lemma {:induction false} BranchesIgnoreTheFirst<T>(hash: Hash2<T>, a: seq<T>, b: seq<T>)
    requires SameButFirst(a, b)
    ensures Branches(hash, a) == Branches(hash, b)
    decreases |a|
  {
    if |a| > 1 {
      BranchesIgnoreTheFirst(hash, NextLevel(hash, a), NextLevel(hash, b));
    }
  }

  /** A level whose first entry is not known. */
  ghost predicate IsMasked<T>(masked: seq<Option<T>>, level: seq<T>) {
    && |masked| == |level| > 0
    && masked[0] == None
    && forall i :: 1 <= i < |level| ==> masked[i] == Some(level[i])
  }

  function HashKnown<T>(hash: Hash2<T>): Hash2<Option<T>> {
    (a: Option<T>, b: Option<T>) => if a.Some? && b.Some? then Some(hash(a.value, b.value)) else None
  }

  lemma MaskedNext<T>(hash: Hash2<T>, masked: seq<Option<T>>, level: seq<T>)
    requires IsMasked(masked, level) && |level| > 1
    ensures IsMasked(NextLevel(HashKnown(hash), masked), NextLevel(hash, level))
  {
  }

  /** The branches of a coinbase placed before `txids`, whatever it is: the sibling on its path
      is known at every level. */
  method MerkleBranches<T>(hash: Hash2<T>, txids: seq<T>, ghost coinbase: T) returns (branches: seq<T>)
    ensures branches == Branches(hash, [coinbase] + txids)
  {
    branches := [];
    if txids == [] {
      return;
    }
    var level: seq<Option<T>> := [None] + KnownAll(txids);
    ghost var tree := [coinbase] + txids;
    while |level| > 1
      invariant IsMasked(level, tree)
      invariant Branches(hash, [coinbase] + txids) == branches + Branches(hash, tree)
      decreases |level|
    {
      MaskedNext(hash, level, tree);
      branches := branches + [level[1].value];
      level := NextLevel(HashKnown(hash), level);
      tree := NextLevel(hash, tree);
    }
  }

  function KnownAll<T>(txids: seq<T>): (known: seq<Option<T>>)
    ensures |known| == |txids| && forall i :: 0 <= i < |txids| ==> known[i] == Some(txids[i])
  {
    if txids == [] then [] else KnownAll(txids[..|txids| - 1]) + [Some(txids[|txids| - 1])]
  }

  method MerkleRootFromBranches<T>(hash: Hash2<T>, coinbase: T, branches: seq<T>) returns (root: T)
    ensures root == Fold(hash, coinbase, branches)
  {
    root := coinbase;
    for i := 0 to |branches|
      invariant Fold(hash, coinbase, branches) == Fold(hash, root, branches[i..])
    {
      assert branches[i..][1..] == branches[i + 1..];
      root := hash(root, branches[i]);
    }
  }

  datatype MerkleTreeRoot<T> = MerkleTreeRoot(root: T, mutated: bool)

  method TreeRoot<T(==)>(hash: Hash2<T>, txids: seq<T>) returns (r: Option<MerkleTreeRoot<T>>)
    ensures r == if txids == [] then None else Some(MerkleTreeRoot(Root(hash, txids), Mutated(hash, txids)))
  {
    if txids == [] {
      return None;
    }
    var level, mutated := txids, false;
    while |level| > 1
      invariant level != [] && Root(hash, level) == Root(hash, txids)
      invariant Mutated(hash, txids) == (mutated || Mutated(hash, level))
      decreases |level|
    {
      mutated := mutated || AnyTwins(level);
      level := NextLevel(hash, level);
    }
    return Some(MerkleTreeRoot(level[0], mutated));
  }

  // ---- What is flagged ----

  /** Level `k` of the tree, the list being level 0. */
  function LevelAt<T>(hash: Hash2<T>, level: seq<T>, k: nat): seq<T>
    decreases k
  {
    if k == 0 then level else LevelAt(hash, NextLevel(hash, level), k - 1)
  }

  lemma {:induction false} OfOne<T>(hash: Hash2<T>, level: seq<T>, k: nat)
    requires |level| <= 1
    ensures |LevelAt(hash, level, k)| <= 1
    decreases k
  {
    if k > 0 {
      OfOne(hash, NextLevel(hash, level), k - 1);
    }
  }

  /** A list is flagged exactly when two siblings of some level are equal. */
  lemma {:induction false} FlaggedIff<T>(hash: Hash2<T>, level: seq<T>)
    ensures Mutated(hash, level) <==> exists k: nat :: HasTwinsAt(hash, level, k)
    decreases |level|
  {
    hide HasTwinsAt;
    if |level| <= 1 {
      forall k: nat ensures !HasTwinsAt(hash, level, k) {
        OfOne(hash, level, k);
        NoTwins(hash, level, k);
      }
    } else {
      var next := NextLevel(hash, level);
      FlaggedIff(hash, next);
      FirstTwins(hash, level);
      forall k: nat | HasTwinsAt(hash, level, k) ensures Mutated(hash, level) {
        if k > 0 {
          TwinsBelow(hash, level, k - 1);
        }
      }
      if Mutated(hash, next) {
        var k: nat :| HasTwinsAt(hash, next, k);
        TwinsBelow(hash, level, k);
        assert HasTwinsAt(hash, level, k + 1);
      }
    }
  }

  ghost predicate HasTwinsAt<T>(hash: Hash2<T>, level: seq<T>, k: nat) {
    exists i :: 0 <= i && 2 * i + 1 < |LevelAt(hash, level, k)|
                && LevelAt(hash, level, k)[2 * i] == LevelAt(hash, level, k)[2 * i + 1]
  }

  lemma NoTwins<T>(hash: Hash2<T>, level: seq<T>, k: nat)
    requires |LevelAt(hash, level, k)| <= 1
    ensures !HasTwinsAt(hash, level, k)
  {
  }

  lemma TwinsBelow<T>(hash: Hash2<T>, level: seq<T>, k: nat)
    ensures HasTwinsAt(hash, level, k + 1) <==> HasTwinsAt(hash, NextLevel(hash, level), k)
  {
    hide NextLevel;
    assert LevelAt(hash, level, k + 1) == LevelAt(hash, NextLevel(hash, level), k);
  }

  lemma FirstTwins<T>(hash: Hash2<T>, level: seq<T>)
    ensures HasTwinsAt(hash, level, 0) <==> AnyTwins(level)
  {
    assert LevelAt(hash, level, 0) == level;
    if AnyTwins(level) {
      var i :| 0 <= i < |level| / 2 && level[2 * i] == level[2 * i + 1];
      assert 2 * i + 1 < |level|;
    }
  }

  // ---- What the flag catches ----

  ghost predicate Injective<T(!new)>(hash: Hash2<T>) {
    forall a, b, c, d :: hash(a, b) == hash(c, d) ==> a == c && b == d
  }

  lemma LevelsBelow<T(!new)>(hash: Hash2<T>, a: seq<T>, b: seq<T>)
    requires Injective(hash) && NextLevel(hash, a) == NextLevel(hash, b)
    ensures |a| == |b| ==> a == b
    ensures |a| < |b| ==> AnyTwins(b)
  {
    forall i | 0 <= i < (|a| + 1) / 2
      ensures a[2 * i] == b[2 * i] && a[RightChild(|a|, i)] == b[RightChild(|b|, i)]
    {
      assert NextLevel(hash, a)[i] == NextLevel(hash, b)[i];
    }
    if |a| == |b| {
      forall i | 0 <= i < |a| ensures a[i] == b[i] {
        assert i == 2 * (i / 2) || i == RightChild(|a|, i / 2);
      }
    } else if |a| < |b| {
      var last := |b| / 2 - 1;
      assert b[2 * last] == a[2 * last] == b[2 * last + 1];
    }
  }

  /** Lists of one length with one root are one list, flag or no flag. */
  lemma {:induction false} SameLengthRootsAreInjective<T(!new)>(hash: Hash2<T>, a: seq<T>, b: seq<T>)
    requires Injective(hash) && |a| == |b| > 0 && Root(hash, a) == Root(hash, b)
    ensures a == b
    decreases |a|
  {
    if |a| > 1 {
      SameLengthRootsAreInjective(hash, NextLevel(hash, a), NextLevel(hash, b));
      LevelsBelow(hash, a, b);
    }
  }

  /** Of two lists of one tree height and one root, the longer is always flagged: the flag
      catches exactly what an odd level's duplication hides. */
  lemma {:induction false} TheLongerIsFlagged<T(!new)>(hash: Hash2<T>, a: seq<T>, b: seq<T>)
    requires Injective(hash) && 0 < |a| < |b| && Height(|a|) == Height(|b|)
    requires Root(hash, a) == Root(hash, b)
    ensures Mutated(hash, b)
    decreases |b|
  {
    var nextA, nextB := NextLevel(hash, a), NextLevel(hash, b);
    if |nextA| == |nextB| {
      SameLengthRootsAreInjective(hash, nextA, nextB);
      LevelsBelow(hash, a, b);
    } else {
      TheLongerIsFlagged(hash, nextA, nextB);
    }
  }

  /** And it catches nothing else: with an injective pair hash a list without repetitions is not flagged. */
  lemma {:induction false} DistinctAreNotFlagged<T(!new)>(hash: Hash2<T>, level: seq<T>)
    requires Injective(hash) && forall i, j :: 0 <= i < j < |level| ==> level[i] != level[j]
    ensures !Mutated(hash, level)
    decreases |level|
  {
    if |level| > 1 {
      var next := NextLevel(hash, level);
      forall i, j | 0 <= i < j < |next| ensures next[i] != next[j] {
        assert level[2 * i] != level[2 * j];
      }
      DistinctAreNotFlagged(hash, next);
    }
  }

  /** So an unflagged list is the only unflagged one of its height with its root. */
  lemma UnflaggedRootsAreInjective<T(!new)>(hash: Hash2<T>, a: seq<T>, b: seq<T>)
    requires Injective(hash) && a != [] && b != [] && Height(|a|) == Height(|b|)
    requires Root(hash, a) == Root(hash, b) && !Mutated(hash, a) && !Mutated(hash, b)
    ensures a == b
  {
    if |a| == |b| {
      SameLengthRootsAreInjective(hash, a, b);
    } else if |a| < |b| {
      TheLongerIsFlagged(hash, a, b);
    } else {
      TheLongerIsFlagged(hash, b, a);
    }
  }

  /** And the flag is needed: every list of odd length has a longer one with its root, its last
      entry repeated, which is flagged. */
  lemma RepeatingTheLastHides<T>(hash: Hash2<T>, a: seq<T>)
    requires |a| % 2 == 1 && |a| > 1
    ensures var b := a + [a[|a| - 1]];
      Root(hash, b) == Root(hash, a) && Height(|b|) == Height(|a|) && Mutated(hash, b)
  {
    var b := a + [a[|a| - 1]];
    assert NextLevel(hash, a) == NextLevel(hash, b);
    var last := |b| / 2 - 1;
    assert b[2 * last] == b[2 * last + 1];
  }

  // ---- What the pool checks of a job's transactions ----

  /** The transactions are as many as the job's and form its branches. */
  predicate TxnsMatchJob<T(==)>(hash: Hash2<T>, txids: seq<T>, count: nat, branches: seq<T>, anyCoinbase: T) {
    |txids| == count && Branches(hash, [anyCoinbase] + txids) == branches
  }

  /** Under any coinbase, transactions that match the job give the root its header commits to,
      and the check does not depend on the coinbase it is made with. */
  lemma MatchingTxnsGiveTheRoot<T>(hash: Hash2<T>, txids: seq<T>, branches: seq<T>, anyCoinbase: T, coinbase: T)
    requires TxnsMatchJob(hash, txids, |txids|, branches, anyCoinbase)
    ensures Fold(hash, coinbase, branches) == Root(hash, [coinbase] + txids)
    ensures TxnsMatchJob(hash, txids, |txids|, branches, coinbase)
  {
    BranchesIgnoreTheFirst(hash, [anyCoinbase] + txids, [coinbase] + txids);
    FoldingIsTheRoot(hash, [coinbase] + txids);
  }

  /** Two sets of transactions that both match one job are the same transactions in the same
      order: the count and the branches determine them. */
  lemma MatchingTxnsAreTheJobs<T(!new)>(
    hash: Hash2<T>, a: seq<T>, b: seq<T>, count: nat, branches: seq<T>, coinbaseA: T, coinbaseB: T)
    requires Injective(hash)
    requires TxnsMatchJob(hash, a, count, branches, coinbaseA) && TxnsMatchJob(hash, b, count, branches, coinbaseB)
    ensures a == b
  {
    MatchingTxnsGiveTheRoot(hash, a, branches, coinbaseA, coinbaseA);
    MatchingTxnsGiveTheRoot(hash, b, branches, coinbaseB, coinbaseA);
    SameLengthRootsAreInjective(hash, [coinbaseA] + a, [coinbaseA] + b);
    assert a == ([coinbaseA] + a)[1..] && b == ([coinbaseA] + b)[1..];
  }
}
