/** The work of the newest shares of a window, in all and by identity. */
module WorkSince {
  import opened Basics
  import opened ShareWindow
  import opened Weights
  import opened WindowContents

  /** Where the shares accepted at or after `cutoff` start, going back from the newest until one is
      older. */
  function SinceFrom(held: seq<Share>, cutoff: nat): (at: nat)
    ensures at <= |held|
    ensures forall i :: at <= i < |held| ==> AcceptedAt32(held[i].acceptedAt) >= cutoff
    ensures at > 0 ==> AcceptedAt32(held[at - 1].acceptedAt) < cutoff
  {
    if held == [] || AcceptedAt32(held[|held| - 1].acceptedAt) < cutoff then |held|
    else SinceFrom(held[..|held| - 1], cutoff)
  }

  function Since(held: seq<Share>, cutoff: nat): seq<Share> { held[SinceFrom(held, cutoff)..] }

  /** The shares accepted at or after the cutoff, wherever they stand. */
  function AllSince(held: seq<Share>, cutoff: nat): seq<Share> {
    if held == [] then []
    else
      var last := held[|held| - 1];
      AllSince(held[..|held| - 1], cutoff) + if AcceptedAt32(last.acceptedAt) >= cutoff then [last] else []
  }

  /** The shares accepted at or after the cutoff by their own times, before those were cut to 32 bits. */
  function AllByTime(held: seq<Share>, cutoff: nat): seq<Share> {
    if held == [] then []
    else
      var last := held[|held| - 1];
      AllByTime(held[..|held| - 1], cutoff) + if last.acceptedAt >= cutoff then [last] else []
  }

  /** The 32-bit times tell them exactly, for every cutoff that fits in 32 bits. */
  lemma {:induction false} TimesTellThem(held: seq<Share>, cutoff: nat)
    requires cutoff < 0x1_0000_0000
    ensures AllSince(held, cutoff) == AllByTime(held, cutoff)
  {
    if held != [] {
      TimesTellThem(held[..|held| - 1], cutoff);
    }
  }

  /** No share accepted at or after the cutoff stands before an older one. */
  ghost predicate NoneBeforeAnOlder(held: seq<Share>, cutoff: nat) {
    forall i, j :: 0 <= i < j < |held| ==>
      !(AcceptedAt32(held[j].acceptedAt) < cutoff <= AcceptedAt32(held[i].acceptedAt))
  }

  ghost predicate InOrder(held: seq<Share>) {
    forall i, j :: 0 <= i < j < |held| ==> AcceptedAt32(held[i].acceptedAt) <= AcceptedAt32(held[j].acceptedAt)
  }

  lemma {:induction false} NoneSince(held: seq<Share>, cutoff: nat)
    ensures AllSince(held, cutoff) == [] <==> forall i :: 0 <= i < |held| ==> AcceptedAt32(held[i].acceptedAt) < cutoff
  {
    if held != [] {
      var front := held[..|held| - 1];
      NoneSince(front, cutoff);
      assert forall i :: 0 <= i < |front| ==> front[i] == held[i];
    }
  }

  lemma NewerAppended(front: seq<Share>, last: Share, cutoff: nat)
    requires AcceptedAt32(last.acceptedAt) >= cutoff
    ensures Since(front + [last], cutoff) == Since(front, cutoff) + [last]
    ensures AllSince(front + [last], cutoff) == AllSince(front, cutoff) + [last]
    ensures NoneBeforeAnOlder(front + [last], cutoff) <==> NoneBeforeAnOlder(front, cutoff)
  {
    hide AcceptedAt32;
    var held := front + [last];
    assert held[..|held| - 1] == front;
    forall i | 0 <= i < |front|
      ensures held[i] == front[i]
    {
    }
  }

  lemma OlderAppended(front: seq<Share>, last: Share, cutoff: nat)
    requires AcceptedAt32(last.acceptedAt) < cutoff
    ensures Since(front + [last], cutoff) == []
    ensures AllSince(front + [last], cutoff) == AllSince(front, cutoff)
    ensures NoneBeforeAnOlder(front + [last], cutoff)
       <==> forall i :: 0 <= i < |front| ==> AcceptedAt32(front[i].acceptedAt) < cutoff
  {
    hide AcceptedAt32;
    var held := front + [last];
    assert held[..|held| - 1] == front;
    forall i | 0 <= i < |front|
      ensures held[i] == front[i]
    {
    }
  }

  /** The scan finds all the shares accepted at or after the cutoff exactly when none of them stands
      before an older one. */
  lemma {:induction false} SinceIsAllOfThemIff(held: seq<Share>, cutoff: nat)
    ensures Since(held, cutoff) == AllSince(held, cutoff) <==> NoneBeforeAnOlder(held, cutoff)
  {
    if held != [] {
      hide Since, AllSince, NoneBeforeAnOlder, AcceptedAt32;
      var front, last := held[..|held| - 1], held[|held| - 1];
      assert held == front + [last];
      if AcceptedAt32(last.acceptedAt) >= cutoff {
        SinceIsAllOfThemIff(front, cutoff);
        NewerAppended(front, last, cutoff);
        AppendedAlike(Since(front, cutoff), AllSince(front, cutoff), last);
      } else {
        NoneSince(front, cutoff);
        OlderAppended(front, last, cutoff);
      }
    }
  }

  lemma AppendedAlike<T>(a: seq<T>, b: seq<T>, x: T)
    ensures a + [x] == b + [x] <==> a == b
  {
    assert (a + [x])[..|a|] == a && (b + [x])[..|b|] == b;
    if a + [x] == b + [x] {
      assert |a| + 1 == |b| + 1;
    }
  }

  /** It does so for every cutoff exactly when the shares are in order of their 32-bit times. */
  lemma SinceIsAllForEveryCutoffIff(held: seq<Share>)
    ensures (forall cutoff: nat :: Since(held, cutoff) == AllSince(held, cutoff)) <==> InOrder(held)
  {
    hide SinceFrom, AllSince, AcceptedAt32;
    forall cutoff: nat
      ensures Since(held, cutoff) == AllSince(held, cutoff) <==> NoneBeforeAnOlder(held, cutoff)
    {
      SinceIsAllOfThemIff(held, cutoff);
    }
    if !InOrder(held) {
      var i, j :| 0 <= i < j < |held| && AcceptedAt32(held[i].acceptedAt) > AcceptedAt32(held[j].acceptedAt);
      assert !NoneBeforeAnOlder(held, AcceptedAt32(held[i].acceptedAt));
    }
  }

  /** A share that waited to be recorded stands behind one accepted after it. Asked for the shares
      since the newer, the scan finds none. */
  lemma OneOutOfOrderHidesTheRest()
    ensures var newer, older := Share(20, "a", 8, 0, ""), Share(10, "b", 1, 1, "");
      Since([newer, older], 20) == [] && AllSince([newer, older], 20) == [newer]
  {
    var newer, older := Share(20, "a", 8, 0, ""), Share(10, "b", 1, 1, "");
    assert [newer, older][..1] == [newer] && AllSince([newer], 20) == [newer];
  }

  /** Going back stops at the first older share, and there alone. */
  lemma StopsHere(held: seq<Share>, cutoff: nat, at: nat)
    requires at <= |held| && forall i :: at <= i < |held| ==> AcceptedAt32(held[i].acceptedAt) >= cutoff
    requires at > 0 ==> AcceptedAt32(held[at - 1].acceptedAt) < cutoff
    ensures SinceFrom(held, cutoff) == at
  {
  }

  method TotalSince(c: Contents, cutoff: nat) returns (work: nat)
    requires c.Valid()
    ensures work == Work(Since(c.held, cutoff))
  {
    hide Work, Of, Summarises, SinceFrom;
    work := 0;
    var i := |c.shares|;
    NoWork(c.held[i..]);
    while i > 0 && c.shares[i - 1].acceptedAt >= cutoff
      invariant i <= |c.shares| && work == Work(c.held[i..])
      invariant forall k :: i <= k < |c.held| ==> AcceptedAt32(c.held[k].acceptedAt) >= cutoff
    {
      i := i - 1;
      assert Represents(c.shares[i], c.held[i], c.identities.entries);
      WorkDropFirst(c.held[i..]);
      assert c.held[i..][1..] == c.held[i + 1..];
      work := work + c.shares[i].difficulty;
    }
    if i > 0 {
      assert Represents(c.shares[i - 1], c.held[i - 1], c.identities.entries);
    }
    StopsHere(c.held, cutoff, i);
  }

  lemma NoWork(held: seq<Share>)
    requires held == []
    ensures Work(held) == 0
  {
  }

  // ---- By identity ----

  /** `byIndex` holds the work in `tail` of each identity with a share in it, under its index. */
  ghost predicate IndexesWork(byIndex: map<nat, nat>, entries: seq<Option<IdentityEntry>>, tail: seq<Share>) {
    && (forall i <- byIndex :: i < |entries| && entries[i].Some?
          && Of(tail, entries[i].value.name) != [] && byIndex[i] == Work(Of(tail, entries[i].value.name)))
    && (forall i: nat :: i < |entries| && entries[i].Some? && i !in byIndex ==> Of(tail, entries[i].value.name) == [])
  }

  /** One older share adds its difficulty to its identity's work. */
  lemma IndexedOneMore(byIndex: map<nat, nat>, c: Contents, at: nat)
    requires c.Valid() && at < |c.shares| && IndexesWork(byIndex, c.identities.entries, c.held[at + 1..])
    ensures c.shares[at].credit < |c.identities.entries|
    ensures var i := c.shares[at].credit;
            IndexesWork(byIndex[i := (if i in byIndex then byIndex[i] else 0) + c.shares[at].difficulty],
                        c.identities.entries, c.held[at..])
  {
    hide Of, Work, Summarises;
    var entries, tail, share := c.identities.entries, c.held[at + 1..], c.held[at];
    assert Represents(c.shares[at], share, entries);
    var i := c.shares[at].credit;
    assert c.held[at..] == [share] + tail;
    forall k: nat | k < |entries| && entries[k].Some?
      ensures entries[k].value.name == share.identity <==> k == i
      ensures Of(c.held[at..], entries[k].value.name) ==
                if k == i then [share] + Of(tail, entries[k].value.name) else Of(tail, entries[k].value.name)
    {
      OfDropFirst(c.held[at..], entries[k].value.name);
    }
    WorkDropFirst([share] + Of(tail, share.identity));
    assert ([share] + Of(tail, share.identity))[1..] == Of(tail, share.identity);
    if i !in byIndex {
      NoWork(Of(tail, share.identity));
    }
  }

  /** Each identity's work since `cutoff`; together they are all of it. */
  method TotalSinceByIdentity(c: Contents, cutoff: nat) returns (weights: seq<Weight>)
    requires c.Valid()
    ensures AreWeightsOf(weights, Since(c.held, cutoff)) && NoneIdle(weights, Since(c.held, cutoff))
    ensures Total(weights) == Work(Since(c.held, cutoff))
  {
    hide Of, Work, Total, Summarises, SinceFrom, IndexesWork;
    var byIndex: map<nat, nat> := map[];
    var at := |c.shares|;
    NothingIndexed(c.identities.entries, c.held[at..]);
    while at > 0 && c.shares[at - 1].acceptedAt >= cutoff
      invariant at <= |c.shares| && IndexesWork(byIndex, c.identities.entries, c.held[at..])
      invariant forall k :: at <= k < |c.held| ==> AcceptedAt32(c.held[k].acceptedAt) >= cutoff
    {
      at := at - 1;
      assert Represents(c.shares[at], c.held[at], c.identities.entries);
      IndexedOneMore(byIndex, c, at);
      var i := c.shares[at].credit;
      byIndex := byIndex[i := (if i in byIndex then byIndex[i] else 0) + c.shares[at].difficulty];
    }
    if at > 0 {
      assert Represents(c.shares[at - 1], c.held[at - 1], c.identities.entries);
    }
    StopsHere(c.held, cutoff, at);
    weights := NameWork(c, byIndex, c.held[at..]);
    WeightsTotalTheWindow(weights, c.held[at..]);
  }

  lemma NothingIndexed(entries: seq<Option<IdentityEntry>>, tail: seq<Share>)
    requires tail == []
    ensures IndexesWork(map[], entries, tail)
  {
  }

  /** The work under each index, under the identity's name instead. */
  method NameWork(c: Contents, byIndex: map<nat, nat>, ghost tail: seq<Share>) returns (weights: seq<Weight>)
    requires c.Valid() && IndexesWork(byIndex, c.identities.entries, tail)
    requires forall s :: s in tail ==> s in c.held
    ensures AreWeightsOf(weights, tail) && NoneIdle(weights, tail)
  {
    hide Of, Work, Summarises, Agrees, Represents, FreeIsVacant, Lists;
    weights := [];
    var entries := c.identities.entries;
    var left := byIndex.Keys;
    while left != {}
      invariant left <= byIndex.Keys
      invariant forall k :: 0 <= k < |weights| ==> IsListed(weights[k], byIndex, left, c.identities)
      invariant forall j, k :: 0 <= j < k < |weights| ==> weights[j].identity != weights[k].identity
      invariant forall i :: i in byIndex && i !in left ==> Lists(weights, entries[i].value.name)
      decreases |left|
    {
      var i :| i in left;
      assert i < |entries| && entries[i].Some?;
      ghost var before := weights;
      weights := weights + [Weight(entries[i].value.name, byIndex[i])];
      left := left - {i};
      ListsMore(before, weights[|weights| - 1]);
    }
    AllListed(c, byIndex, tail, weights);
  }

  lemma ListsMore(weights: seq<Weight>, w: Weight)
    ensures Lists(weights + [w], w.identity)
    ensures forall n :: Lists(weights, n) ==> Lists(weights + [w], n)
  {
    assert (weights + [w])[|weights|] == w;
    forall n | Lists(weights, n)
      ensures Lists(weights + [w], n)
    {
      var k :| 0 <= k < |weights| && weights[k].identity == n;
      assert (weights + [w])[k].identity == n;
    }
  }

  lemma AllListed(c: Contents, byIndex: map<nat, nat>, tail: seq<Share>, weights: seq<Weight>)
    requires c.Valid() && IndexesWork(byIndex, c.identities.entries, tail)
    requires forall s :: s in tail ==> s in c.held
    requires forall i :: i in byIndex ==> Lists(weights, c.identities.entries[i].value.name)
    ensures forall s :: s in tail ==> Lists(weights, s.identity)
  {
    hide Of, Work, Summarises, Lists;
    c.HoldersAreNamed();
    forall s | s in tail
      ensures Lists(weights, s.identity)
    {
      var i := c.identities.byName[s.identity];
      OfIsOwn(tail, s.identity);
      assert s in Of(tail, c.identities.entries[i].value.name);
    }
  }

  ghost predicate IsListed(w: Weight, byIndex: map<nat, nat>, left: set<nat>, identities: Identities)
    reads identities
  {
    && w.identity in identities.byName
    && var i := identities.byName[w.identity];
       i in byIndex && i !in left && w.work == byIndex[i]
  }
}
