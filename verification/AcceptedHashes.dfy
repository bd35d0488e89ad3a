/** The duplicate check's table of claimed hashes: what it holds, what it lets go of when it expires or
    overflows, and what a restart puts back from the rows. */
module AcceptedHashes {
  import opened Basics

  /** A share's block hash, standing for the header it was computed from: the header time is
      hashed into it, so a resend carries the same one. */
  datatype ShareHash = ShareHash(id: nat, headerTime: nat)

  /** A hash held, or to be held, under a time. */
  datatype Claim = Claim(at: nat, hash: ShareHash)

  datatype Hashes = Hashes(acceptedAt: map<ShareHash, nat>, order: seq<Claim>, capacity: pos)

  function Empty(capacity: pos): Hashes { Hashes(map[], [], capacity) }

  /** The header time and the clock are no further apart than the window, whichever is ahead. */
  predicate TimeAccepted(hash: ShareHash, now: nat) {
    hash.headerTime <= now + NTIME_WINDOW_SECS && now <= hash.headerTime + NTIME_WINDOW_SECS
  }

  predicate Expired(c: Claim, now: nat) { c.at + ACCEPTED_HASH_RETENTION_SECS < now }

  predicate Holds(h: Hashes, c: Claim) { c.hash in h.acceptedAt && h.acceptedAt[c.hash] == c.at }

  /** Forgets the hash if it is held as accepted at this time. */
  function Forget(acceptedAt: map<ShareHash, nat>, c: Claim): map<ShareHash, nat> {
    if c.hash in acceptedAt && acceptedAt[c.hash] == c.at then acceptedAt - {c.hash} else acceptedAt
  }

  /** The oldest leave while they are expired. */
  function Expire(h: Hashes, now: nat): Hashes
    decreases |h.order|
  {
    if h.order == [] || !Expired(h.order[0], now) then h
    else Expire(h.(order := h.order[1..], acceptedAt := Forget(h.acceptedAt, h.order[0])), now)
  }

  /** The oldest leave until there is room for one more; whether a held hash went with them. */
  function MakeRoom(h: Hashes): (Hashes, bool)
    decreases |h.order|
  {
    if |h.order| < h.capacity then (h, false)
    else
      var (after, more) := MakeRoom(h.(order := h.order[1..], acceptedAt := Forget(h.acceptedAt, h.order[0])));
      (after, more || Holds(h, h.order[0]))
  }

  /** What holding a hash does: the hashes after, whether it was new, and whether a hash was
      forgotten before it expired. */
  function Hold(h: Hashes, c: Claim, now: nat): (Hashes, bool, bool) {
    var live := Expire(h, now);
    if c.hash in live.acceptedAt then (live, false, false)
    else
      var (roomy, forgotEarly) := MakeRoom(live);
      (roomy.(acceptedAt := roomy.acceptedAt[c.hash := c.at], order := roomy.order + [c]), true, forgotEarly)
  }

  function Remove(h: Hashes, hash: ShareHash): Hashes { h.(acceptedAt := h.acceptedAt - {hash}) }

  /** Every hash held is in the order under its time, and the order is within the capacity. */
  ghost predicate Valid(h: Hashes) {
    && (forall x <- h.acceptedAt :: Claim(h.acceptedAt[x], x) in h.order)
    && |h.order| <= h.capacity
  }

  lemma {:induction false} ExpireForgetsOnlyExpired(h: Hashes, now: nat)
    requires Valid(h)
    ensures Valid(Expire(h, now)) && Expire(h, now).capacity == h.capacity
    ensures Expire(h, now).acceptedAt.Keys <= h.acceptedAt.Keys
    ensures forall c: Claim :: Holds(h, c) ==> Holds(Expire(h, now), c) || Expired(c, now)
    ensures forall c: Claim :: Holds(Expire(h, now), c) ==> Holds(h, c)
    decreases |h.order|
  {
    if h.order != [] && Expired(h.order[0], now) {
      var next := h.(order := h.order[1..], acceptedAt := Forget(h.acceptedAt, h.order[0]));
      assert h.order == [h.order[0]] + h.order[1..];
      ExpireForgetsOnlyExpired(next, now);
      forall c: Claim | Holds(h, c) ensures Holds(Expire(h, now), c) || Expired(c, now) {
        assert Holds(next, c) || c == h.order[0];
      }
    }
  }

  /** Expiring drops the oldest claims as long as they are past the retention, and stops at the first that is
      not: what is held is what was, but for the claims dropped. */
  lemma {:induction false} ExpireDrops(h: Hashes, now: nat)
    ensures Expire(h, now).capacity == h.capacity && |Expire(h, now).order| <= |h.order|
    ensures var after, n := Expire(h, now), |h.order| - |Expire(h, now).order|;
      && after.order == h.order[n..]
      && (forall i :: 0 <= i < n ==> h.order[i].at + ACCEPTED_HASH_RETENTION_SECS < now)
      && (n < |h.order| ==> h.order[n].at + ACCEPTED_HASH_RETENTION_SECS >= now)
      && (forall c: Claim :: Holds(after, c) <==> Holds(h, c) && c !in h.order[..n])
    decreases |h.order|
  {
    if h.order != [] && Expired(h.order[0], now) {
      var next := h.(order := h.order[1..], acceptedAt := Forget(h.acceptedAt, h.order[0]));
      ExpireDrops(next, now);
      var n := |h.order| - |Expire(h, now).order|;
      assert h.order[..n] == [h.order[0]] + next.order[..n - 1];
      forall c: Claim ensures Holds(next, c) <==> Holds(h, c) && c != h.order[0] {
      }
    }
  }

  lemma {:induction false} MakeRoomKeeps(h: Hashes)
    requires Valid(h)
    ensures var (after, forgot) := MakeRoom(h);
      && Valid(after) && |after.order| < after.capacity == h.capacity
      && after.acceptedAt.Keys <= h.acceptedAt.Keys
      && (!forgot ==> after.acceptedAt == h.acceptedAt)
      && (forgot ==> exists d: Claim :: Holds(h, d) && d.hash !in after.acceptedAt)
    decreases |h.order|
  {
    if |h.order| >= h.capacity {
      assert h.order == [h.order[0]] + h.order[1..];
      var next := h.(order := h.order[1..], acceptedAt := Forget(h.acceptedAt, h.order[0]));
      MakeRoomKeeps(next);
      assert forall d: Claim :: Holds(next, d) ==> Holds(h, d);
    }
  }

  /** What one hold does to what was held: an expired hash may go, and no other does until the
      capacity forgets one early. */
  lemma HoldKeeps(h: Hashes, c: Claim, now: nat)
    requires Valid(h)
    ensures var (after, accepted, forgotEarly) := Hold(h, c, now);
      && Valid(after) && after.capacity == h.capacity
      && (accepted ==> Holds(after, c))
      && (accepted && c.hash in h.acceptedAt ==> Expired(Claim(h.acceptedAt[c.hash], c.hash), now))
      && (c.hash !in h.acceptedAt ==> accepted)
      && (!forgotEarly ==> forall d: Claim :: Holds(h, d) ==> Holds(after, d) || Expired(d, now))
      && (forgotEarly ==> accepted && exists d: Claim :: Holds(Expire(h, now), d) && !Holds(after, d))
      && (!forgotEarly ==> forall d: Claim :: Holds(after, d) ==> Holds(h, d) || d == c)
      && (!accepted ==> after.acceptedAt.Keys <= h.acceptedAt.Keys)
  {
    ExpireForgetsOnlyExpired(h, now);
    var live := Expire(h, now);
    MakeRoomKeeps(live);
    var (after, accepted, forgotEarly) := Hold(h, c, now);
    if c.hash in h.acceptedAt {
      assert Holds(h, Claim(h.acceptedAt[c.hash], c.hash));
    }
    if accepted {
      var (roomy, forgot) := MakeRoom(live);
      if forgot {
        var d: Claim :| Holds(live, d) && d.hash !in roomy.acceptedAt;
        assert !Holds(after, d);
      }
      assert c in after.order;
      forall x | x in after.acceptedAt ensures Claim(after.acceptedAt[x], x) in after.order {
        if x != c.hash {
          assert Claim(roomy.acceptedAt[x], x) in roomy.order;
        }
      }
    }
  }

  /** A hash taken back is held no more and would be accepted at once; every other keeps its time, and none
      its place. */
  lemma RemovedIsAcceptedAgain(h: Hashes, hash: ShareHash, at: nat, now: nat)
    requires Valid(h)
    ensures var after := Remove(h, hash);
      && Valid(after) && after.capacity == h.capacity && after.order == h.order
      && (forall c: Claim :: Holds(after, c) <==> Holds(h, c) && c.hash != hash)
      && Hold(after, Claim(at, hash), now).1
  {
    ExpireForgetsOnlyExpired(Remove(h, hash), now);
  }

  // ---- Reading back at startup ----

  /** Of the first `n` rows, the newest back to the first accepted before `cutoff`, at most
      `max` of them. */
  function SinceTo(rows: seq<Claim>, n: nat, cutoff: nat, max: nat): (since: seq<Claim>)
    requires n <= |rows|
    ensures |since| <= max && |since| <= n
    ensures forall i :: 0 <= i < |since| ==> since[i] == rows[n - |since| + i] && since[i].at >= cutoff
    ensures |since| == max || |since| == n || rows[n - |since| - 1].at < cutoff
  {
    if n == 0 || max == 0 || rows[n - 1].at < cutoff then []
    else SinceTo(rows, n - 1, cutoff, max - 1) + [rows[n - 1]]
  }

  function Since(rows: seq<Claim>, cutoff: nat, max: nat): seq<Claim> { SinceTo(rows, |rows|, cutoff, max) }

  /** Holds each of the first `n` rows as accepted when it was, oldest first. */
  function RestoreTo(h: Hashes, rows: seq<Claim>, n: nat, now: nat): Hashes
    requires n <= |rows|
  {
    if n == 0 then h else Hold(RestoreTo(h, rows, n - 1, now), rows[n - 1], now).0
  }

  function Restore(capacity: pos, rows: seq<Claim>, now: nat): Hashes {
    RestoreTo(Empty(capacity), rows, |rows|, now)
  }

  ghost predicate DistinctHashes(rows: seq<Claim>) {
    forall i, j :: 0 <= i < j < |rows| ==> rows[i].hash != rows[j].hash
  }

  /** The first `n` rows are what is held. */
  ghost predicate HoldsExactly(h: Hashes, rows: seq<Claim>, n: nat)
    requires n <= |rows|
  {
    && |h.order| == n
    && (forall i :: 0 <= i < n ==> h.order[i] == rows[i] && Holds(h, rows[i]))
    && (forall x <- h.acceptedAt :: exists i :: 0 <= i < n && rows[i].hash == x)
  }

  /** Rows that are not expired, each of its own hash and no more than fit, are all held. */
  lemma {:induction false} RestoreHoldsAll(rows: seq<Claim>, n: nat, now: nat, capacity: pos)
    requires n <= |rows| && DistinctHashes(rows) && n <= capacity
    requires forall i :: 0 <= i < |rows| ==> !Expired(rows[i], now)
    ensures var h := RestoreTo(Empty(capacity), rows, n, now);
      h.capacity == capacity && HoldsExactly(h, rows, n)
  {
    hide Hold, Expire, MakeRoom;
    if n > 0 {
      RestoreHoldsAll(rows, n - 1, now, capacity);
      HoldOneMore(RestoreTo(Empty(capacity), rows, n - 1, now), rows, n - 1, now);
    }
  }

  lemma HoldOneMore(h: Hashes, rows: seq<Claim>, n: nat, now: nat)
    requires n < |rows| && HoldsExactly(h, rows, n) && n < h.capacity && DistinctHashes(rows)
    requires forall i :: 0 <= i < |rows| ==> !Expired(rows[i], now)
    ensures Hold(h, rows[n], now).0.capacity == h.capacity && HoldsExactly(Hold(h, rows[n], now).0, rows, n + 1)
  {
    assert Expire(h, now) == h && rows[n].hash !in h.acceptedAt && MakeRoom(h) == (h, false);
    var after := Hold(h, rows[n], now).0;
    forall x | x in after.acceptedAt ensures exists i :: 0 <= i < n + 1 && rows[i].hash == x {
      if x == rows[n].hash {
      } else {
        var i :| 0 <= i < n && rows[i].hash == x;
      }
    }
  }

  // ---- In place ----

  class AcceptedShareHashes {
    var acceptedAt: map<ShareHash, nat>
    /** The claims made, oldest first; a hash removed keeps its place until it expires. */
    var order: seq<Claim>
    const capacity: pos
    var warnedCapped: bool

    ghost function View(): Hashes
      reads this
    {
      Hashes(acceptedAt, order, capacity)
    }

    constructor (capacity: nat)
      ensures View() == Empty(if capacity < 1 then 1 else capacity) && !warnedCapped
    {
      acceptedAt, order, warnedCapped := map[], [], false;
      this.capacity := if capacity < 1 then 1 else capacity;
    }

    /** `Hold` in place; the warning is raised when a live hash had to make room. */
    method HoldAt(hash: ShareHash, at: nat, now: nat) returns (accepted: bool)
      modifies this
      ensures View() == Hold(old(View()), Claim(at, hash), now).0
      ensures accepted == Hold(old(View()), Claim(at, hash), now).1
      ensures warnedCapped == (old(warnedCapped) || Hold(old(View()), Claim(at, hash), now).2)
    {
      ExpireOld(now);
      if hash in acceptedAt {
        return false;
      }
      var forgotEarly := false;
      ghost var live := View();
      while |order| >= capacity
        invariant MakeRoom(live) == (MakeRoom(View()).0, MakeRoom(View()).1 || forgotEarly)
        invariant warnedCapped == old(warnedCapped)
      {
        var oldest := order[0];
        order := order[1..];
        var held := ForgetClaim(oldest);
        forgotEarly := forgotEarly || held;
      }
      warnedCapped := warnedCapped || forgotEarly;
      acceptedAt := acceptedAt[hash := at];
      order := order + [Claim(at, hash)];
      return true;
    }

    method ExpireOld(now: nat)
      modifies this`acceptedAt, this`order
      ensures View() == Expire(old(View()), now)
    {
      while order != [] && order[0].at + ACCEPTED_HASH_RETENTION_SECS < now
        invariant Expire(View(), now) == Expire(old(View()), now)
        decreases |order|
      {
        var oldest := order[0];
        order := order[1..];
        var _ := ForgetClaim(oldest);
      }
    }

    /** Removes the hash if it is held at this time; true when it was. */
    method ForgetClaim(c: Claim) returns (held: bool)
      modifies this`acceptedAt
      ensures acceptedAt == Forget(old(acceptedAt), c)
      ensures held == Holds(old(View()), c)
    {
      held := c.hash in acceptedAt && acceptedAt[c.hash] == c.at;
      if held {
        acceptedAt := acceptedAt - {c.hash};
      }
    }

    /** Takes back a claim, whenever it was made, and leaves every other. */
    method RemoveHash(hash: ShareHash) returns (held: bool)
      modifies this`acceptedAt
      ensures hash !in acceptedAt && acceptedAt.Keys == old(acceptedAt.Keys) - {hash}
      ensures forall x <- acceptedAt :: acceptedAt[x] == old(acceptedAt[x])
      ensures View() == Remove(old(View()), hash) && held == (hash in old(acceptedAt))
    {
      held := hash in acceptedAt;
      acceptedAt := acceptedAt - {hash};
    }
  }

  /** The hashes a starting pool holds: those its ledger recorded within the retention. */
  method RestoredFrom(rows: seq<Claim>, now: nat) returns (hashes: AcceptedShareHashes)
    ensures fresh(hashes)
    ensures hashes.View() == Restore(MAX_ACCEPTED_HASHES, Since(rows, Cutoff(now), MAX_ACCEPTED_HASHES), now)
  {
    var since := AcceptedSince(rows, Cutoff(now), MAX_ACCEPTED_HASHES);
    hashes := new AcceptedShareHashes(MAX_ACCEPTED_HASHES);
    for i := 0 to |since|
      invariant fresh(hashes) && hashes.View() == RestoreTo(Empty(MAX_ACCEPTED_HASHES), since, i, now)
    {
      var _ := hashes.HoldAt(since[i].hash, since[i].at, now);
    }
  }

  function Cutoff(now: nat): nat { Sub(now, ACCEPTED_HASH_RETENTION_SECS) }

  /** The loop behind `Since`: newest rows first, as long as they are recent enough and fit. */
  method AcceptedSince(rows: seq<Claim>, cutoff: nat, max: nat) returns (collected: seq<Claim>)
    ensures collected == Since(rows, cutoff, max)
  {
    collected := [];
    var i := |rows|;
    while |collected| < max && i > 0
      invariant 0 <= i <= |rows| && |collected| <= max
      invariant Since(rows, cutoff, max) == SinceTo(rows, i, cutoff, max - |collected|) + collected
    {
      if rows[i - 1].at < cutoff {
        break;
      }
      collected := [rows[i - 1]] + collected;
      i := i - 1;
    }
  }
}
