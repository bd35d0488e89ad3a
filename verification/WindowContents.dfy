/** The window in memory: a queue of shares that name their identity by an index, and the
    table of identities those indices refer to. Both are kept incrementally; `held` is the
    queue of whole shares they stand for. */
module WindowContents {
  import opened Basics
  import opened ShareWindow
  import opened Weights

  const U32_MAX := 0xffff_ffff

  /** Seconds since the epoch, held in 32 bits. */
  function AcceptedAt32(at: nat): nat { if at <= U32_MAX then at else U32_MAX }

  // ---- What one identity holds in a window, as a function of the window ----

  /** The shares of `held` that credit `name`, oldest first. */
  function Of(held: seq<Share>, name: string): seq<Share> {
    if held == [] then []
    else
      var last := held[|held| - 1];
      var front := Of(held[..|held| - 1], name);
      if last.identity == name then front + [last] else front
  }

  lemma OfPush(held: seq<Share>, share: Share, name: string)
    ensures Of(held + [share], name) == if share.identity == name then Of(held, name) + [share] else Of(held, name)
  {
    assert (held + [share])[..|held|] == held;
  }

  lemma {:induction false} OfDropFirst(held: seq<Share>, name: string)
    requires held != []
    ensures Of(held, name) == if held[0].identity == name then [held[0]] + Of(held[1..], name) else Of(held[1..], name)
  {
    var front := held[..|held| - 1];
    if front == [] {
      assert held[1..] == [];
      assert Of(front, name) == [];
    } else {
      OfDropFirst(front, name);
      assert front[1..] == held[1..][..|held| - 2];
    }
  }

  lemma {:induction false} OfIsOwn(held: seq<Share>, name: string)
    ensures forall s :: s in Of(held, name) <==> s in held && s.identity == name
    ensures (forall s <- held :: s.identity != name) ==> Of(held, name) == []
    ensures |Of(held, name)| <= |held|
  {
    if held != [] {
      OfIsOwn(held[..|held| - 1], name);
      assert held == held[..|held| - 1] + [held[|held| - 1]];
    }
  }

  /** `weights` lists every identity with a share in `held` once, with the work of its shares. */
  ghost predicate AreWeightsOf(weights: seq<Weight>, held: seq<Share>) {
    && (forall j, k :: 0 <= j < k < |weights| ==> weights[j].identity != weights[k].identity)
    && (forall k :: 0 <= k < |weights| ==> weights[k].work == Work(Of(held, weights[k].identity)))
    && (forall s :: s in held ==> Lists(weights, s.identity))
  }

  /** Every listed identity has a share in `held`. */
  ghost predicate NoneIdle(weights: seq<Weight>, held: seq<Share>) {
    forall k :: 0 <= k < |weights| ==> Of(held, weights[k].identity) != []
  }

  ghost predicate Lists(weights: seq<Weight>, name: string) {
    exists k :: 0 <= k < |weights| && weights[k].identity == name
  }

  /** Conservation: the weights of a window total its work, in whatever order they are listed. */
  lemma {:induction false} WeightsTotalTheWindow(weights: seq<Weight>, held: seq<Share>)
    requires AreWeightsOf(weights, held)
    ensures Total(weights) == Work(held)
    decreases |held|
  {
    hide Of;
    if held == [] {
      assert forall k :: 0 <= k < |weights| ==> weights[k].work == 0 by {
        NothingHeld(weights);
      }
      AllZero(weights);
    } else {
      var fewer, at := WithoutNewest(weights, held);
      WeightsTotalTheWindow(fewer, held[..|held| - 1]);
      TotalOfUpdate(weights, at, fewer[at]);
      WorkConcat(held[..|held| - 1], [held[|held| - 1]]);
      assert held == held[..|held| - 1] + [held[|held| - 1]];
      WorkOfOne(held[|held| - 1]);
    }
  }

  lemma WorkOfOne(share: Share)
    ensures Work([share]) == share.difficulty
  {
    assert [share][..0] == [];
  }

  lemma NothingHeld(weights: seq<Weight>)
    requires AreWeightsOf(weights, [])
    ensures forall k :: 0 <= k < |weights| ==> weights[k].work == 0
  {
  }

  /** The weights before the newest share was pushed: its identity's is less by its difficulty. */
  lemma WithoutNewest(weights: seq<Weight>, held: seq<Share>) returns (fewer: seq<Weight>, at: nat)
    requires AreWeightsOf(weights, held) && held != []
    ensures at < |weights| && |fewer| == |weights| && fewer == weights[at := fewer[at]]
    ensures AreWeightsOf(fewer, held[..|held| - 1])
    ensures weights[at].work == fewer[at].work + held[|held| - 1].difficulty
  {
    hide Of, Work;
    var front, last := held[..|held| - 1], held[|held| - 1];
    assert held == front + [last];
    assert last in held;
    at :| 0 <= at < |weights| && weights[at].identity == last.identity;
    fewer := weights[at := Weight(last.identity, Work(Of(front, last.identity)))];
    OfPush(front, last, last.identity);
    WorkConcat(Of(front, last.identity), [last]);
    WorkOfOne(last);
    forall k | 0 <= k < |fewer| ensures fewer[k].work == Work(Of(front, fewer[k].identity)) {
      OfPush(front, last, fewer[k].identity);
    }
    forall s | s in front ensures Lists(fewer, s.identity) {
      assert s in held;
      var k :| 0 <= k < |weights| && weights[k].identity == s.identity;
      assert fewer[k].identity == s.identity;
    }
  }

  /** The weights of a window are determined by its shares alone: two lists of them hold the
      same weights, whatever indices the identities were given. */
  lemma WeightsAreDetermined(a: seq<Weight>, b: seq<Weight>, held: seq<Share>)
    requires AreWeightsOf(a, held) && NoneIdle(a, held) && AreWeightsOf(b, held) && NoneIdle(b, held)
    ensures forall w :: w in a <==> w in b
  {
    forall w | w in a ensures w in b {
      ListedInBoth(a, b, held, w);
    }
    forall w | w in b ensures w in a {
      ListedInBoth(b, a, held, w);
    }
  }

  lemma ListedInBoth(a: seq<Weight>, b: seq<Weight>, held: seq<Share>, w: Weight)
    requires AreWeightsOf(a, held) && NoneIdle(a, held) && AreWeightsOf(b, held) && w in a
    ensures w in b
  {
    var k :| 0 <= k < |a| && a[k] == w;
    OfIsOwn(held, w.identity);
    var s := Of(held, w.identity)[0];
    assert s in Of(held, w.identity);
    assert Lists(b, s.identity);
    var j :| 0 <= j < |b| && b[j].identity == s.identity;
  }

  // ---- The identity table ----

  /** An identity's sums over its own shares, and the newest tag among them. */
  datatype IdentityEntry = IdentityEntry(name: string, work: nat, tag: string, shares: nat)

  /** `after` is `before` with only the entry at `index` changed, and that entry is the one
      named `name`. */
  ghost predicate ChangesOnly(
    before: seq<Option<IdentityEntry>>, after: seq<Option<IdentityEntry>>, index: nat, name: string)
  {
    && |before| <= |after|
    && (forall i :: 0 <= i < |after| && i != index ==> after[i] == if i < |before| then before[i] else None)
    && (forall i :: 0 <= i < |after| && i != index && after[i].Some? ==> after[i].value.name != name)
    && (index < |before| && before[index].Some? ==> before[index].value.name == name)
    && (index < |after| && after[index].Some? ==> after[index].value.name == name)
  }

  /** Names and live indices are in bijection. */
  ghost predicate NamesMatch(byName: map<string, nat>, entries: seq<Option<IdentityEntry>>) {
    && (forall n <- byName ::
          byName[n] < |entries| && entries[byName[n]].Some? && entries[byName[n]].value.name == n)
    && (forall i {:trigger entries[i]} :: 0 <= i < |entries| && entries[i].Some? ==>
          entries[i].value.name in byName && byName[entries[i].value.name] == i)
  }

  /** The free list is exactly the vacant indices, each once. */
  ghost predicate FreeIsVacant(free: seq<nat>, entries: seq<Option<IdentityEntry>>) {
    && (forall k {:trigger free[k]} :: 0 <= k < |free| ==> free[k] < |entries| && entries[free[k]].None?)
    && (forall i {:trigger entries[i]} :: 0 <= i < |entries| && entries[i].None? ==> i in free)
    && (forall j, k :: 0 <= j < k < |free| ==> free[j] != free[k])
  }

  lemma FreeTaken(free: seq<nat>, entries: seq<Option<IdentityEntry>>, entry: IdentityEntry)
    requires FreeIsVacant(free, entries) && free != []
    ensures free[|free| - 1] < |entries| && entries[free[|free| - 1]].None?
    ensures FreeIsVacant(free[..|free| - 1], entries[free[|free| - 1] := Some(entry)])
  {
    var i, rest := free[|free| - 1], free[..|free| - 1];
    var after := entries[i := Some(entry)];
    assert free == rest + [i];
    forall k | 0 <= k < |after| && after[k].None? ensures k in rest {
      assert entries[k].None?;
    }
  }

  lemma NoneFree(entries: seq<Option<IdentityEntry>>, entry: IdentityEntry)
    requires FreeIsVacant([], entries)
    ensures FreeIsVacant([], entries + [Some(entry)])
  {
    forall k | 0 <= k < |entries| ensures entries[k].Some? {
      assert entries[k].None? ==> k in [];
    }
  }

  lemma NameAdded(
    byName: map<string, nat>, before: seq<Option<IdentityEntry>>, after: seq<Option<IdentityEntry>>, i: nat, name: string)
    requires NamesMatch(byName, before) && name !in byName
    requires |before| <= |after| && i < |after| && after[i].Some? && after[i].value.name == name
    requires i < |before| ==> before[i].None?
    requires forall k {:trigger after[k]} :: 0 <= k < |after| && k != i ==> k < |before| && after[k] == before[k]
    ensures NamesMatch(byName[name := i], after)
  {
    forall n | n in byName ensures byName[n] != i && byName[n] < |before| && after[byName[n]] == before[byName[n]] {
      assert before[byName[n]].Some?;
    }
  }

  lemma FreeReturned(free: seq<nat>, entries: seq<Option<IdentityEntry>>, i: nat)
    requires FreeIsVacant(free, entries) && i < |entries| && entries[i].Some?
    ensures FreeIsVacant(free + [i], entries[i := None])
  {
    var after := entries[i := None];
    forall k | 0 <= k < |after| && after[k].None? ensures k in free + [i] {
      assert k == i || entries[k].None?;
    }
  }

  /** The interning table. `Valid` is that names and live indices are in bijection and the free list is
      exactly the vacant indices; every method keeps it. */
  class Identities {
    var byName: map<string, nat>
    var entries: seq<Option<IdentityEntry>>
    var free: seq<nat>

    ghost predicate Valid()
      reads this
    {
      NamesMatch(byName, entries) && FreeIsVacant(free, entries)
    }

    predicate Live(i: nat)
      reads this
    {
      i < |entries| && entries[i].Some?
    }

    constructor ()
      ensures Valid() && entries == [] && free == [] && byName == map[]
    {
      byName, entries, free := map[], [], [];
    }

    /** Finds the name's index or makes one live for it, preferring a vacant index to a longer table. */
    method IndexOf(name: string) returns (i: nat)
      requires Valid()
      modifies this
      ensures Valid() && Live(i) && entries[i].value.name == name
      ensures name in old(byName) ==> byName == old(byName) && entries == old(entries) && free == old(free)
      ensures name !in old(byName) ==> entries[i].value == IdentityEntry(name, 0, "", 0)
      ensures name !in old(byName) ==> !old(Live(i)) && |entries| == if old(free) == [] then |old(entries)| + 1 else |old(entries)|
      ensures forall k: nat :: k < |old(entries)| && k != i ==> k < |entries| && entries[k] == old(entries[k])
      ensures forall k: nat :: Live(k) ==> k == i || old(Live(k))
    {
      if name in byName {
        return byName[name];
      }
      var entry := IdentityEntry(name, 0, "", 0);
      hide NamesMatch, FreeIsVacant;
      ghost var before := entries;
      if free != [] {
        FreeTaken(free, entries, entry);
        i := free[|free| - 1];
        free := free[..|free| - 1];
        entries := entries[i := Some(entry)];
      } else {
        NoneFree(entries, entry);
        entries := entries + [Some(entry)];
        i := |entries| - 1;
      }
      NameAdded(byName, before, entries, i, name);
      byName := byName[name := i];
    }

    /** The entry the shares at index `i` refer to takes new sums under its own name. */
    method SetEntry(i: nat, entry: IdentityEntry)
      requires Valid() && Live(i) && entry.name == entries[i].value.name
      modifies this`entries
      ensures Valid() && entries == old(entries)[i := Some(entry)]
    {
      entries := entries[i := Some(entry)];
    }

    method Release(i: nat)
      requires Valid() && i < |entries|
      modifies this
      ensures Valid() && entries == old(entries)[i := None]
    {
      if entries[i].Some? {
        FreeReturned(free, entries, i);
        byName := byName - {entries[i].value.name};
        entries := entries[i := None];
        free := free + [i];
      }
    }

    /** A share pushed: `name`'s entry, created if it has none, takes the share's work and tag. */
    method Credit(name: string, work: nat, tag: string) returns (i: nat)
      requires Valid()
      modifies this
      ensures Valid() && Live(i) && ChangesOnly(old(entries), entries, i, name)
      ensures name in old(byName) ==> |entries| == |old(entries)| && i == old(byName)[name]
      ensures name !in old(byName) ==> |entries| == if old(free) == [] then |old(entries)| + 1 else |old(entries)|
      ensures entries[i].value ==
        var was := if name in old(byName) then old(entries)[i].value else IdentityEntry(name, 0, "", 0);
        was.(work := was.work + work, tag := tag, shares := was.shares + 1)
    {
      i := IndexOf(name);
      var entry := entries[i].value;
      SetEntry(i, entry.(work := entry.work + work, tag := tag, shares := entry.shares + 1));
    }

    /** A share dropped: its entry gives the work up, and its index with its last share. */
    method Debit(i: nat, work: nat)
      requires Valid() && Live(i) && entries[i].value.work >= work && entries[i].value.shares >= 1
      modifies this
      ensures Valid() && |entries| == |old(entries)| && ChangesOnly(old(entries), entries, i, old(entries[i].value.name))
      ensures var was := old(entries[i].value);
        entries[i] == if was.shares == 1 then None else Some(was.(work := was.work - work, shares := was.shares - 1))
    {
      var entry := entries[i].value;
      SetEntry(i, entry.(work := entry.work - work, shares := entry.shares - 1));
      if entry.shares == 1 {
        Release(i);
      }
    }
  }

  // ---- The queue over the table ----

  /** One share as the window keeps it; `credit` is its identity's index. */
  datatype WindowShare = WindowShare(difficulty: pos, acceptedAt: nat, credit: nat)

  ghost predicate Represents(w: WindowShare, s: Share, entries: seq<Option<IdentityEntry>>) {
    && w.difficulty == s.difficulty
    && w.acceptedAt == AcceptedAt32(s.acceptedAt)
    && w.credit < |entries| && entries[w.credit].Some?
    && entries[w.credit].value.name == s.identity
  }

  /** An entry holds the count, the work and the newest tag of the identity's own shares. */
  ghost predicate Summarises(entry: IdentityEntry, held: seq<Share>) {
    var own := Of(held, entry.name);
    && own != []
    && entry.shares == |own|
    && entry.work == Work(own)
    && entry.tag == own[|own| - 1].tag
  }

  /** The queue and the table stand for the whole shares `held`. */
  ghost predicate Agrees(shares: seq<WindowShare>, entries: seq<Option<IdentityEntry>>, held: seq<Share>) {
    && |shares| == |held|
    && (forall k {:trigger Represents(shares[k], held[k], entries)} ::
          0 <= k < |held| ==> Represents(shares[k], held[k], entries))
    && (forall i {:trigger Summarises(entries[i].value, held)} ::
          0 <= i < |entries| && entries[i].Some? ==> Summarises(entries[i].value, held))
  }

  lemma PushedEntry(entry: IdentityEntry, held: seq<Share>, share: Share)
    requires entry.name == share.identity
    requires Summarises(entry, held) || (entry == IdentityEntry(share.identity, 0, "", 0) && Of(held, share.identity) == [])
    ensures Summarises(entry.(work := entry.work + share.difficulty, tag := share.tag, shares := entry.shares + 1), held + [share])
  {
    OfPush(held, share, share.identity);
    var own := Of(held, share.identity);
    assert (own + [share])[..|own|] == own;
  }

  lemma DroppedEntry(entry: IdentityEntry, held: seq<Share>)
    requires held != [] && entry.name == held[0].identity && Summarises(entry, held)
    ensures entry.work >= held[0].difficulty && entry.shares >= 1
    ensures entry.shares == 1 ==> Of(held[1..], held[0].identity) == []
    ensures entry.shares > 1 ==>
              Summarises(entry.(work := entry.work - held[0].difficulty, shares := entry.shares - 1), held[1..])
  {
    OfDropFirst(held, held[0].identity);
    var own := Of(held, held[0].identity);
    WorkDropFirst(own);
    assert own[1..] == Of(held[1..], held[0].identity);
  }

  lemma PushAgrees(
    shares: seq<WindowShare>, before: seq<Option<IdentityEntry>>, held: seq<Share>,
    w: WindowShare, after: seq<Option<IdentityEntry>>, share: Share)
    requires Agrees(shares, before, held)
    requires ChangesOnly(before, after, w.credit, share.identity)
    requires Represents(w, share, after) && Summarises(after[w.credit].value, held + [share])
    ensures Agrees(shares + [w], after, held + [share])
  {
    forall k | 0 <= k < |held + [share]| ensures Represents((shares + [w])[k], (held + [share])[k], after) {
      if k < |held| {
        assert Represents(shares[k], held[k], before);
      }
    }
    forall i | 0 <= i < |after| && after[i].Some? ensures Summarises(after[i].value, held + [share]) {
      if i != w.credit {
        assert Summarises(before[i].value, held);
        OfPush(held, share, after[i].value.name);
      }
    }
  }

  lemma DropAgrees(
    shares: seq<WindowShare>, before: seq<Option<IdentityEntry>>, held: seq<Share>,
    after: seq<Option<IdentityEntry>>)
    requires Agrees(shares, before, held) && held != [] && shares[0].credit < |before|
    requires ChangesOnly(before, after, shares[0].credit, held[0].identity)
    requires after[shares[0].credit].Some? ==> Summarises(after[shares[0].credit].value, held[1..])
    requires after[shares[0].credit].None? ==> Of(held[1..], held[0].identity) == []
    ensures Agrees(shares[1..], after, held[1..])
  {
    var index := shares[0].credit;
    assert Represents(shares[0], held[0], before);
    forall k | 0 <= k < |held[1..]| ensures Represents(shares[1..][k], held[1..][k], after) {
      assert Represents(shares[k + 1], held[k + 1], before);
      OfIsOwn(held[1..], held[0].identity);
      assert held[1..][k] in held[1..];
    }
    forall i | 0 <= i < |after| && after[i].Some? ensures Summarises(after[i].value, held[1..]) {
      if i != index {
        assert Summarises(before[i].value, held);
        OfDropFirst(held, after[i].value.name);
      }
    }
  }

  lemma WholeIsSuffix(all: seq<Share>)
    ensures IsSuffix(all, all)
  {
  }

  lemma OldestNotNeeded(held: seq<Share>, all: seq<Share>, window: pos)
    requires held != [] && IsSuffix(held, all) && |held| >= Need(all, window) && Work(held[1..]) >= window
    ensures IsSuffix(held[1..], all) && |held[1..]| >= Need(all, window)
  {
    hide Need, Work;
    NeedAfterDrop(held, window);
    NeedOfSuffix(held, all, window);
    SuffixDrop(held, all);
  }

  lemma OldestIsNeeded(held: seq<Share>, all: seq<Share>, window: pos)
    requires IsSuffix(held, all) && |held| >= Need(all, window)
    requires held == [] || Work(held[1..]) < window
    ensures held == Newest(all, Need(all, window))
  {
    hide Need, Work;
    NeedOfSuffix(held, all, window);
    if held != [] {
      NeedAfterDrop(held, window);
    }
  }

  lemma LastOne(held: seq<Share>)
    requires held != []
    ensures |held| == 1 ==> Work(held[1..]) == 0
  {
  }

  lemma NewestIsWindow(held: seq<Share>, all: seq<Share>, window: pos, maxShares: nat)
    requires var needed := Newest(all, Need(all, window));
      IsSuffix(held, needed) && Min(|needed|, maxShares) <= |held| <= maxShares
    ensures held == Window(all, window, maxShares)
  {
    hide Need;
    SuffixOfSuffix(held, Newest(all, Need(all, window)), all);
  }

  class Contents {
    var shares: seq<WindowShare>
    const identities: Identities
    var totalWork: nat
    /** The whole shares the queue stands for, oldest first. */
    ghost var held: seq<Share>

    ghost predicate Valid()
      reads this, identities
    {
      && identities.Valid()
      && Agrees(shares, identities.entries, held)
      && totalWork == Work(held)
    }

    constructor ()
      ensures Valid() && held == [] && identities.entries == []
      ensures fresh(identities)
    {
      shares, totalWork, held := [], 0, [];
      identities := new Identities();
    }

    /** Every identity with a share in the window is named. */
    lemma HoldersAreNamed()
      requires Valid()
      ensures forall s <- held :: s.identity in identities.byName
    {
      forall s | s in held ensures s.identity in identities.byName {
        var k :| 0 <= k < |held| && held[k] == s;
        assert Represents(shares[k], held[k], identities.entries);
      }
    }

    lemma UnnamedHoldsNothing(name: string)
      requires Valid() && name !in identities.byName
      ensures Of(held, name) == []
    {
      HoldersAreNamed();
      OfIsOwn(held, name);
    }

    /** With every index live, each is some share's, so there are no more indices than shares. */
    lemma IndicesAtMostShares()
      requires Valid() && identities.free == []
      ensures |identities.entries| <= |held|
    {
      var entries := identities.entries;
      var credits := seq(|shares|, k requires 0 <= k < |shares| reads this => shares[k].credit);
      forall i: nat | i < |entries| ensures i in credits {
        assert i !in identities.free;
        assert Summarises(entries[i].value, held);
        var name := entries[i].value.name;
        OfIsOwn(held, name);
        var s := Of(held, name)[0];
        assert s in Of(held, name);
        var k :| 0 <= k < |held| && held[k] == s;
        assert Represents(shares[k], held[k], entries);
        assert identities.Live(shares[k].credit);
        assert credits[k] == i;
      }
      CoveredAtMost(credits, |entries|);
    }

    /** The entry of `name`, or the one it is given when it has none. */
    function EntryOf(name: string): IdentityEntry
      requires Valid()
      reads this, identities
    {
      if name in identities.byName then identities.entries[identities.byName[name]].value
      else IdentityEntry(name, 0, "", 0)
    }

    lemma PushReady(share: Share)
      requires Valid()
      ensures identities.free == [] ==> |identities.entries| <= |held|
      ensures var was := EntryOf(share.identity);
        Summarises(was.(work := was.work + share.difficulty, tag := share.tag, shares := was.shares + 1), held + [share])
    {
      if identities.free == [] {
        IndicesAtMostShares();
      }
      if share.identity in identities.byName {
        assert Summarises(EntryOf(share.identity), held);
      } else {
        UnnamedHoldsNothing(share.identity);
      }
      PushedEntry(EntryOf(share.identity), held, share);
    }

    /** Appends the share: no index is created past `maxShares + 1`. */
    method Push(share: Share, ghost maxShares: nat)
      requires Valid() && |held| <= maxShares && |identities.entries| <= maxShares + 1
      modifies this, identities
      ensures Valid() && held == old(held) + [share]
      ensures |identities.entries| <= maxShares + 1
    {
      hide Agrees, Summarises, Of, Work, ChangesOnly;
      PushReady(share);
      var index := identities.Credit(share.identity, share.difficulty, share.tag);
      var w := WindowShare(share.difficulty, AcceptedAt32(share.acceptedAt), index);
      PushAgrees(shares, old(identities.entries), held, w, identities.entries, share);
      WorkConcat(held, [share]);
      WorkOfOne(share);
      totalWork, shares, held := totalWork + share.difficulty, shares + [w], held + [share];
    }

    lemma Lengths()
      requires Valid()
      ensures |shares| == |held|
    {
    }

    /** The front of the queue is the oldest held share, under a live index. */
    lemma OldestIsLive()
      requires Valid() && shares != []
      ensures |shares| == |held| && Represents(shares[0], held[0], identities.entries)
      ensures identities.Live(shares[0].credit)
      ensures Summarises(identities.entries[shares[0].credit].value, held)
      ensures totalWork == shares[0].difficulty + Work(held[1..])
    {
      WorkDropFirst(held);
    }

    /** Drops the oldest share, and its identity with its last share. Neither subtraction goes
        below zero and the index it names is live. */
    method DropOldest()
      requires Valid()
      modifies this, identities
      ensures Valid() && held == if old(held) == [] then [] else old(held)[1..]
      ensures |identities.entries| == |old(identities.entries)|
    {
      hide Agrees, Summarises, Of, Work, ChangesOnly;
      Lengths();
      if shares == [] {
        return;
      }
      OldestIsLive();
      var oldest := shares[0];
      totalWork := totalWork - oldest.difficulty;
      DroppedEntry(identities.entries[oldest.credit].value, held);
      identities.Debit(oldest.credit, oldest.difficulty);
      DropAgrees(shares, old(identities.entries), held, identities.entries);
      shares, held := shares[1..], held[1..];
    }

    method Len() returns (n: nat)
      requires Valid()
      ensures n == |held|
    {
      return |shares|;
    }

    /** Both trims, by work and then by count, leave the window over what was held. */
    method Trim(window: pos, maxShares: nat)
      requires Valid()
      modifies this, identities
      ensures Valid() && held == Window(old(held), window, maxShares)
      ensures |identities.entries| == |old(identities.entries)|
    {
      hide Valid, Window, Need, IsSuffix;
      TrimToWork(window);
      ghost var needed := held;
      Lengths();
      WholeIsSuffix(needed);
      while |shares| > maxShares
        invariant Valid() && |shares| == |held|
        invariant IsSuffix(held, needed) && Min(|needed|, maxShares) <= |held| <= |needed|
        invariant |identities.entries| == |old(identities.entries)|
        decreases |shares|
      {
        SuffixDrop(held, needed);
        DropOldest();
        Lengths();
      }
      NewestIsWindow(held, old(held), window, maxShares);
    }

    method TrimToWork(window: pos)
      requires Valid()
      modifies this, identities
      ensures Valid() && held == Newest(old(held), Need(old(held), window))
      ensures |identities.entries| == |old(identities.entries)|
    {
      hide Valid, Need, Work, IsSuffix, Summarises, Represents;
      ghost var all := held;
      Lengths();
      WholeIsSuffix(all);
      while |shares| > 1 && totalWork > window
        invariant Valid() && |shares| == |held|
        invariant IsSuffix(held, all) && |held| >= Need(all, window)
        invariant |identities.entries| == |old(identities.entries)|
        decreases |shares|
      {
        var over := totalWork - window;
        OldestIsLive();
        if shares[0].difficulty > over {
          break;
        }
        OldestNotNeeded(held, all, window);
        DropOldest();
        Lengths();
      }
      if shares != [] {
        OldestIsLive();
        LastOne(held);
      }
      OldestIsNeeded(held, all, window);
    }

    ghost predicate IsWeightAt(w: Weight, i: nat)
      reads this, identities
    {
      identities.Live(i) && w == Weight(identities.entries[i].value.name, identities.entries[i].value.work)
    }

    /** Listing each live entry once lists the window's weights. */
    lemma ListingIsComplete(weights: seq<Weight>, at: seq<nat>)
      requires Valid() && |at| == |weights|
      requires forall k :: 0 <= k < |at| ==> IsWeightAt(weights[k], at[k])
      requires forall j, k :: 0 <= j < k < |at| ==> at[j] < at[k]
      requires forall j: nat :: identities.Live(j) ==> j in at
      ensures AreWeightsOf(weights, held) && NoneIdle(weights, held)
    {
      hide Of, Work, Total;
      var entries := identities.entries;
      forall k | 0 <= k < |weights|
        ensures weights[k].work == Work(Of(held, weights[k].identity)) && Of(held, weights[k].identity) != []
      {
        assert Summarises(entries[at[k]].value, held);
      }
      forall s | s in held ensures Lists(weights, s.identity) {
        HoldersAreNamed();
        var i := identities.byName[s.identity];
        assert identities.Live(i);
        var j :| 0 <= j < |at| && at[j] == i;
        assert weights[j].identity == s.identity;
      }
    }

    /** One weight for each live entry: the window's weights, complete and without repeats. */
    method Weights() returns (weights: seq<Weight>)
      requires Valid()
      ensures AreWeightsOf(weights, held) && NoneIdle(weights, held) && Total(weights) == totalWork
    {
      hide Of, Work, Total;
      weights := [];
      var entries := identities.entries;
      ghost var at: seq<nat> := [];  // the index each weight came from
      for i := 0 to |entries|
        invariant |at| == |weights|
        invariant forall k :: 0 <= k < |at| ==> at[k] < i && IsWeightAt(weights[k], at[k])
        invariant forall j, k :: 0 <= j < k < |at| ==> at[j] < at[k]
        invariant forall j: nat :: j < i && identities.Live(j) ==> j in at
      {
        if entries[i].Some? {
          weights, at := weights + [Weight(entries[i].value.name, entries[i].value.work)], at + [i];
        }
      }
      ListingIsComplete(weights, at);
      WeightsTotalTheWindow(weights, held);
    }
  }

  /** A sequence that takes every value below `n` has at least `n` elements. */
  lemma {:induction false} CoveredAtMost(s: seq<nat>, n: nat)
    requires forall i: nat :: i < n ==> i in s
    ensures n <= |s|
  {
    if n > 0 {
      assert n - 1 in s;
      var k :| 0 <= k < |s| && s[k] == n - 1;
      var t := s[..k] + s[k + 1..];
      forall i: nat | i < n - 1 ensures i in t {
        assert i in s;
        assert s == s[..k] + [s[k]] + s[k + 1..];
      }
      CoveredAtMost(t, n - 1);
    }
  }
}
