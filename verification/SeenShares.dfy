/** The hashes of the shares a gateway accepted, in a table that prunes before it grows. */
module SeenShares {
  import opened Basics

  type Hash = nat

  const MIN_CAPACITY: nat := 1024
  const MIN_FREED_PERCENT: nat := 5
  const GROWTH_PERCENT: nat := 25
  /** The most entries scanned for each accepted share, over any run. */
  const SCANS_PER_SHARE: nat := 21

  /** The table, with how many shares it accepted and how many entries its prunes looked at. */
  datatype Table = Table(seen: map<Hash, nat>, capacity: nat, accepted: nat, scanned: nat)

  function Fresh(capacity: nat): Table { Table(map[], Max(capacity, MIN_CAPACITY), 0, 0) }

  /** The shares whose job is no older than `window`. */
  function Kept(seen: map<Hash, nat>, window: nat, now: nat): map<Hash, nat> {
    map h | h in seen && Sub(now, seen[h]) <= window :: seen[h]
  }

  function Pruned(t: Table, window: nat, now: nat): Table {
    var kept := Kept(t.seen, window, now);
    var freed := Sub(|t.seen|, |kept|);
    t.(seen := kept, scanned := t.scanned + |t.seen|,
       capacity := if freed < t.capacity * MIN_FREED_PERCENT / 100
                   then t.capacity + t.capacity * GROWTH_PERCENT / 100 else t.capacity)
  }

  predicate Accepts(t: Table, h: Hash) { h !in t.seen }

  function Inserted(t: Table, window: nat, h: Hash, createdAt: nat, now: nat): Table {
    if !Accepts(t, h) then t
    else
      var room := if |t.seen| >= t.capacity then Pruned(t, window, now) else t;
      room.(seen := room.seen[h := createdAt], accepted := room.accepted + 1)
  }

  // ---- What every insert keeps ----

  /** The table fits its capacity, and each entry scanned is paid for by a share accepted: 21 for each
      share, less what the entries still held will cost. */
  predicate Inv(t: Table) {
    && t.capacity >= MIN_CAPACITY && |t.seen| <= t.capacity && |t.seen| <= t.accepted
    && t.scanned + t.capacity <= SCANS_PER_SHARE * (t.accepted + t.capacity - |t.seen|)
    && t.scanned <= SCANS_PER_SHARE * t.accepted
  }

  lemma {:induction false} SubsetSize<T>(a: set<T>, b: set<T>)
    requires a <= b
    ensures |a| <= |b|
  {
    if a != {} {
      var x :| x in a;
      SubsetSize(a - {x}, b - {x});
    }
  }

  lemma KeptIsNoLarger(seen: map<Hash, nat>, window: nat, now: nat)
    ensures |Kept(seen, window, now)| <= |seen|
  {
    SubsetSize(Kept(seen, window, now).Keys, seen.Keys);
    assert |Kept(seen, window, now)| == |Kept(seen, window, now).Keys| && |seen| == |seen.Keys|;
  }

  lemma OneMore(seen: map<Hash, nat>, h: Hash, createdAt: nat)
    requires h !in seen
    ensures |seen[h := createdAt]| == |seen| + 1
  {
    assert seen[h := createdAt].Keys == seen.Keys + {h};
    assert |seen[h := createdAt]| == |seen[h := createdAt].Keys| && |seen| == |seen.Keys|;
  }

  /** A full table is pruned or grown by enough to pay for the scan of it. */
  lemma ScanIsPaidFor(t: Table, window: nat, now: nat)
    requires Inv(t) && |t.seen| == t.capacity
    ensures var after := Pruned(t, window, now);
            && after.capacity >= MIN_CAPACITY && |after.seen| < after.capacity && |after.seen| <= after.accepted
            && after.scanned + after.capacity <= SCANS_PER_SHARE * (after.accepted + after.capacity - |after.seen|)
            && after.scanned <= SCANS_PER_SHARE * after.accepted
  {
    hide Kept;
    KeptIsNoLarger(t.seen, window, now);
  }

  lemma InsertKeeps(t: Table, window: nat, h: Hash, createdAt: nat, now: nat)
    requires Inv(t)
    ensures Inv(Inserted(t, window, h, createdAt, now))
  {
    hide Kept, Pruned;
    if Accepts(t, h) {
      if |t.seen| >= t.capacity {
        ScanIsPaidFor(t, window, now);
        PrunedHolds(t, window, now);
        OneMore(Pruned(t, window, now).seen, h, createdAt);
      } else {
        OneMore(t.seen, h, createdAt);
      }
    }
  }

  /** A prune of a full table grows it by a quarter, rounded down, exactly when it freed less than a twentieth
      of it. */
  lemma GrowsIffLittleIsFreed(t: Table, window: nat, now: nat)
    ensures var after := Pruned(t, window, now);
      var freed, grown := |t.seen| - |after.seen|, after.capacity - t.capacity;
      if (freed + 1) * 20 <= t.capacity then grown * 4 <= t.capacity < grown * 4 + 4 else grown == 0
  {
    hide Kept;
    KeptIsNoLarger(t.seen, window, now);
  }

  lemma PrunedHolds(t: Table, window: nat, now: nat)
    ensures forall h :: h in Pruned(t, window, now).seen <==> h in t.seen && Sub(now, t.seen[h]) <= window
    ensures forall h :: h in Pruned(t, window, now).seen ==> Pruned(t, window, now).seen[h] == t.seen[h]
    ensures Pruned(t, window, now).accepted == t.accepted
  {
  }

  // ---- Runs ----

  datatype Share = Share(hash: Hash, jobCreatedAt: nat, at: nat)

  function After(capacity: nat, window: nat, shares: seq<Share>, n: nat): Table
    requires n <= |shares|
  {
    if n == 0 then Fresh(capacity)
    else
      var s := shares[n - 1];
      Inserted(After(capacity, window, shares, n - 1), window, s.hash, s.jobCreatedAt, s.at)
  }

  /** Over any run the table holds no more than its capacity, and its prunes look at no more than 21
      entries for each share accepted. */
  lemma {:induction false} RunsScanLittle(capacity: nat, window: nat, shares: seq<Share>, n: nat)
    requires n <= |shares|
    ensures Inv(After(capacity, window, shares, n))
  {
    hide Inserted;
    if n > 0 {
      RunsScanLittle(capacity, window, shares, n - 1);
      var s := shares[n - 1];
      InsertKeeps(After(capacity, window, shares, n - 1), window, s.hash, s.jobCreatedAt, s.at);
    }
  }

  /** The share at place `i` was accepted. */
  predicate AcceptedAt(capacity: nat, window: nat, shares: seq<Share>, i: nat)
    requires i < |shares|
  {
    Accepts(After(capacity, window, shares, i), shares[i].hash)
  }

  predicate ClockRises(shares: seq<Share>) {
    forall i, j :: 0 <= i < j < |shares| ==> shares[i].at <= shares[j].at
  }

  /** An accepted share stays held, with its job's time, until its job is past the window. */
  lemma {:induction false} HeldUntilPastTheWindow(capacity: nat, window: nat, shares: seq<Share>, i: nat, n: nat)
    requires i < n <= |shares| && AcceptedAt(capacity, window, shares, i) && ClockRises(shares)
    ensures var s := shares[i];
            || Sub(shares[n - 1].at, s.jobCreatedAt) > window
            || (s.hash in After(capacity, window, shares, n).seen
                && After(capacity, window, shares, n).seen[s.hash] == s.jobCreatedAt)
  {
    hide Pruned;
    var before := After(capacity, window, shares, n - 1);
    PrunedHolds(before, window, shares[n - 1].at);
    if n > i + 1 {
      HeldUntilPastTheWindow(capacity, window, shares, i, n - 1);
      assert shares[n - 2].at <= shares[n - 1].at;
    }
  }

  /** A hash is accepted a second time only once the job it was first accepted for has aged past the
      window. */
  lemma AcceptedAgainOnlyPastTheWindow(capacity: nat, window: nat, shares: seq<Share>, i: nat, j: nat)
    requires i < j < |shares| && ClockRises(shares) && shares[i].hash == shares[j].hash
    requires AcceptedAt(capacity, window, shares, i) && AcceptedAt(capacity, window, shares, j)
    ensures Sub(shares[j].at, shares[i].jobCreatedAt) > window
  {
    HeldUntilPastTheWindow(capacity, window, shares, i, j);
    assert shares[j - 1].at <= shares[j].at;
  }

  /** Nothing is taken for a duplicate that was not accepted before: a share is refused only when one with its
      hash was accepted, and is held under the time of the job it was accepted for last. */
  lemma {:induction false} RefusedWasAccepted(capacity: nat, window: nat, shares: seq<Share>, n: nat, h: Hash)
    requires n <= |shares| && h in After(capacity, window, shares, n).seen
    ensures exists i :: 0 <= i < n && AcceptedAt(capacity, window, shares, i) && shares[i].hash == h
              && shares[i].jobCreatedAt == After(capacity, window, shares, n).seen[h]
  {
    hide Pruned;
    var before := After(capacity, window, shares, n - 1);
    PrunedHolds(before, window, shares[n - 1].at);
    if AcceptedAt(capacity, window, shares, n - 1) && shares[n - 1].hash == h {
    } else {
      RefusedWasAccepted(capacity, window, shares, n - 1, h);
    }
  }

  /** How many of the first `n` shares were accepted, and how many entries stood in the table whenever one
      came to a full one. */
  function AcceptedIn(capacity: nat, window: nat, shares: seq<Share>, n: nat): nat
    requires n <= |shares|
  {
    if n == 0 then 0
    else AcceptedIn(capacity, window, shares, n - 1) + if AcceptedAt(capacity, window, shares, n - 1) then 1 else 0
  }

  function ScannedIn(capacity: nat, window: nat, shares: seq<Share>, n: nat): nat
    requires n <= |shares|
  {
    if n == 0 then 0
    else
      var before := After(capacity, window, shares, n - 1);
      ScannedIn(capacity, window, shares, n - 1)
      + if AcceptedAt(capacity, window, shares, n - 1) && |before.seen| >= before.capacity then |before.seen| else 0
  }

  /** So the bound on the scans is one on the entries the prunes really looked at, and the shares accepted. */
  lemma {:induction false} RunsScanAtMost21(capacity: nat, window: nat, shares: seq<Share>, n: nat)
    requires n <= |shares|
    ensures After(capacity, window, shares, n).accepted == AcceptedIn(capacity, window, shares, n)
    ensures After(capacity, window, shares, n).scanned == ScannedIn(capacity, window, shares, n)
    ensures ScannedIn(capacity, window, shares, n) <= 21 * AcceptedIn(capacity, window, shares, n)
  {
    RunsScanLittle(capacity, window, shares, n);
    if n > 0 {
      RunsScanAtMost21(capacity, window, shares, n - 1);
    }
  }

  // ---- The table itself ----

  class SeenShareHashes {
    var seen: map<Hash, nat>
    var capacity: nat
    const window: nat
    ghost var accepted: nat
    ghost var scanned: nat

    ghost function View(): Table
      reads this
    {
      Table(seen, capacity, accepted, scanned)
    }

    constructor (capacity: nat, window: nat)
      ensures View() == Fresh(capacity) && this.window == window && Inv(View())
      ensures seen == map[] && this.capacity == if capacity > 1024 then capacity else 1024
    {
      seen := map[];
      this.capacity := Max(capacity, MIN_CAPACITY);
      this.window := window;
      accepted, scanned := 0, 0;
    }

    method Insert(h: Hash, jobCreatedAt: nat, now: nat) returns (isNew: bool)
      requires Inv(View())
      modifies this
      ensures isNew <==> Accepts(old(View()), h)
      ensures View() == Inserted(old(View()), window, h, jobCreatedAt, now) && Inv(View())
    {
      hide Kept, Inv;
      InsertKeeps(View(), window, h, jobCreatedAt, now);
      if h in seen {
        return false;
      }
      if |seen| >= capacity {
        var held := |seen|;
        KeptIsNoLarger(seen, window, now);
        seen := Kept(seen, window, now);
        scanned := scanned + held;
        var freed := held - |seen|;
        if freed < capacity * MIN_FREED_PERCENT / 100 {
          capacity := capacity + capacity * GROWTH_PERCENT / 100;
        }
      }
      seen := seen[h := jobCreatedAt];
      accepted := accepted + 1;
      return true;
    }
  }
}
