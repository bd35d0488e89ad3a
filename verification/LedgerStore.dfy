/** The share rows on disk, oldest first: inserted all or nothing, retained from the newest
    end, and read back as the window they hold. */
module LedgerStore {
  import opened Basics
  import opened ShareWindow

  /** A row as stored. A row that does not unpack is skipped by every reader. */
  datatype Row = Readable(share: Share) | Unreadable

  /** Retention works in steps of at most so many rows. */
  const MAX_RETAINED_PER_CALL := 4096

  /** The shares of the rows from `at` on. */
  function SharesFrom(rows: seq<Row>, at: nat): (shares: seq<Share>)
    requires at <= |rows|
    ensures |shares| <= |rows| - at
    decreases |rows| - at
  {
    if at == |rows| then []
    else
      var rest := SharesFrom(rows, at + 1);
      if rows[at].Readable? then [rows[at].share] + rest else rest
  }

  function SharesOf(rows: seq<Row>): seq<Share> { SharesFrom(rows, 0) }

  function RowsOf(shares: seq<Share>): (rows: seq<Row>)
    ensures |rows| == |shares|
    ensures forall i :: 0 <= i < |rows| ==> rows[i] == Readable(shares[i])
  {
    if shares == [] then []
    else RowsOf(shares[..|shares| - 1]) + [Readable(shares[|shares| - 1])]
  }

  ghost predicate AllReadable(rows: seq<Row>) {
    forall i :: 0 <= i < |rows| ==> rows[i].Readable?
  }

  lemma {:induction false} SharesFromIsSuffix(rows: seq<Row>, at: nat)
    requires at <= |rows|
    ensures IsSuffix(SharesFrom(rows, at), SharesOf(rows))
  {
    if at > 0 {
      SharesFromIsSuffix(rows, at - 1);
    }
  }

  /** Dropping the oldest rows leaves a suffix of the shares. */
  lemma SharesAfterDrop(rows: seq<Row>, k: nat)
    requires k <= |rows|
    ensures IsSuffix(SharesOf(rows[k..]), SharesOf(rows))
  {
    SharesOfSlice(rows, k, k);
    SharesFromIsSuffix(rows, k);
  }

  lemma {:induction false} SharesOfSlice(rows: seq<Row>, k: nat, at: nat)
    requires k <= at <= |rows|
    ensures SharesFrom(rows[k..], at - k) == SharesFrom(rows, at)
    decreases |rows| - at
  {
    if at < |rows| {
      SharesOfSlice(rows, k, at + 1);
    }
  }

  lemma {:induction false} SharesOfInserted(rows: seq<Row>, shares: seq<Share>, at: nat)
    requires at <= |rows|
    ensures SharesFrom(rows + RowsOf(shares), at) == SharesFrom(rows, at) + shares
    decreases |rows| - at
  {
    if at == |rows| {
      InsertedOnly(rows, shares, 0);
    } else {
      SharesOfInserted(rows, shares, at + 1);
    }
  }

  lemma {:induction false} InsertedOnly(rows: seq<Row>, shares: seq<Share>, i: nat)
    requires i <= |shares|
    ensures SharesFrom(rows + RowsOf(shares), |rows| + i) == shares[i..]
    decreases |shares| - i
  {
    if i < |shares| {
      InsertedOnly(rows, shares, i + 1);
    }
  }

  lemma RowsOfConcat(rows: seq<Row>, a: seq<Share>, b: seq<Share>)
    ensures rows + RowsOf(a + b) == rows + RowsOf(a) + RowsOf(b)
  {
    assert RowsOf(a + b) == RowsOf(a) + RowsOf(b);
  }

  lemma {:induction false} AllReadableCount(rows: seq<Row>, at: nat)
    requires AllReadable(rows) && at <= |rows|
    ensures |SharesFrom(rows, at)| == |rows| - at
    decreases |rows| - at
  {
    if at < |rows| {
      AllReadableCount(rows, at + 1);
    }
  }

  // ---- Retention ----

  /** A row the duplicate check reads back at startup: one of the newest `keepNewest`, accepted
      at or after `keepAfter`. */
  predicate ReadBackAtStartup(rows: seq<Row>, position: nat, keepAfter: nat, keepNewest: nat)
    requires position < |rows|
  {
    position >= Sub(|rows|, keepNewest) && rows[position].Readable? && rows[position].share.acceptedAt >= keepAfter
  }

  function Surplus(rows: seq<Row>, configured: nat, floor: nat): (n: nat)
    ensures n <= |rows|
  {
    Min(Sub(|rows|, Max(configured, floor)), MAX_RETAINED_PER_CALL)
  }

  /** `removed` is how many of the oldest rows retention takes: none when every row is kept,
      and otherwise as many of the surplus as come before the first row still needed. */
  ghost predicate IsRetention(
    rows: seq<Row>, keep: Option<nat>, floor: nat, keepAfter: nat, keepNewest: nat, removed: nat)
  {
    match keep
    case None => removed == 0
    case Some(configured) =>
      var surplus := Surplus(rows, configured, floor);
      && removed <= surplus
      && (forall i :: 0 <= i < removed ==> !ReadBackAtStartup(rows, i, keepAfter, keepNewest))
      && (removed < surplus ==> ReadBackAtStartup(rows, removed, keepAfter, keepNewest))
  }

  /** What retention leaves, whatever the rule's own count of the surplus: at least the rows asked for and the
      window's, and every row when none are to go; and it stops short of the larger of the two, and of
      4096 rows a call, only before a row the startup read needs. */
  lemma RetentionLeaves(
    rows: seq<Row>, keep: Option<nat>, floor: nat, keepAfter: nat, keepNewest: nat, removed: nat)
    requires IsRetention(rows, keep, floor, keepAfter, keepNewest, removed)
    ensures removed <= |rows| && removed <= 4096
    ensures keep.None? ==> removed == 0
    ensures removed > 0 ==> |rows| - removed >= keep.value && |rows| - removed >= floor
    ensures keep.Some? && removed < 4096 && |rows| - removed > keep.value && |rows| - removed > floor ==>
      removed < |rows| && ReadBackAtStartup(rows, removed, keepAfter, keepNewest)
  {
  }

  class Store {
    var rows: seq<Row>
    /** How many rows retention aims to leave; none when it never runs. */
    const keep: Option<nat>
    /** The counter of all work ever credited, stored with the rows. */
    var cumulativeWork: nat

    constructor (rows: seq<Row>, keep: Option<nat>, cumulativeWork: nat)
      ensures this.rows == rows && this.keep == keep && this.cumulativeWork == cumulativeWork
    {
      this.rows, this.keep, this.cumulativeWork := rows, keep, cumulativeWork;
    }

    /** One transaction: `commits` is whether it reaches the disk. What every reader reads back grows by
        exactly the batch, or not at all, whatever rows do not unpack. */
    method InsertBatch(shares: seq<Share>, cumulativeWork: nat, commits: bool)
      modifies this
      ensures rows == if commits then old(rows) + RowsOf(shares) else old(rows)
      ensures this.cumulativeWork == if commits then cumulativeWork else old(this.cumulativeWork)
      ensures SharesOf(rows) == SharesOf(old(rows)) + if commits then shares else []
    {
      if commits {
        SharesOfInserted(rows, shares, 0);
        rows := rows + RowsOf(shares);
        this.cumulativeWork := cumulativeWork;
      }
    }

    /** Retention as its rule says, or nothing when its own transaction fails (`commits`). */
    method Retain(floor: nat, keepAfter: nat, keepNewest: nat, commits: bool) returns (removed: nat)
      modifies this`rows
      ensures commits ==> IsRetention(old(rows), keep, floor, keepAfter, keepNewest, removed)
      ensures !commits ==> removed == 0
      ensures removed <= |old(rows)| && rows == old(rows)[removed..]
      ensures removed > 0 ==> keep.Some? && |rows| >= keep.value && |rows| >= floor
    {
      if keep.None? || !commits {
        return 0;
      }
      var surplus := Surplus(rows, keep.value, floor);
      removed := 0;
      while removed < surplus && !ReadBackAtStartup(rows, removed, keepAfter, keepNewest)
        invariant removed <= surplus
        invariant forall i :: 0 <= i < removed ==> !ReadBackAtStartup(rows, i, keepAfter, keepNewest)
      {
        removed := removed + 1;
      }
      rows := rows[removed..];
    }
  }

  // ---- Reading the window back ----

  /** What the rows from `at` on tell about the window: they reach its work exactly when they
      hold at least as many shares as it needs, unless every stored share falls short. */
  lemma ReadSoFar(rows: seq<Row>, at: nat, window: pos)
    requires at <= |rows|
    ensures |SharesFrom(rows, at)| <= |SharesOf(rows)|
    ensures Work(SharesFrom(rows, at)) >= window
       <==> Need(SharesOf(rows), window) <= |SharesFrom(rows, at)|
            && (Need(SharesOf(rows), window) < |SharesOf(rows)| || Work(SharesOf(rows)) >= window)
  {
    SharesFromIsSuffix(rows, at);
    NeedIsShortest(SharesOf(rows), window, |SharesFrom(rows, at)|);
  }

  lemma ReadBackOne(rows: seq<Row>, at: nat)
    requires at < |rows|
    ensures rows[at].Readable? ==>
              && |SharesFrom(rows, at)| == |SharesFrom(rows, at + 1)| + 1
              && Work(SharesFrom(rows, at)) == Work(SharesFrom(rows, at + 1)) + rows[at].share.difficulty
  {
    if rows[at].Readable? {
      assert SharesFrom(rows, at)[1..] == SharesFrom(rows, at + 1);
      WorkDropFirst(SharesFrom(rows, at));
    }
  }

  lemma ReadIsWindow(rows: seq<Row>, start: nat, window: pos, maxShares: nat)
    requires start <= |rows|
    requires |SharesFrom(rows, start)| == Min(Need(SharesOf(rows), window), maxShares)
    ensures SharesFrom(rows, start) == Window(SharesOf(rows), window, maxShares)
  {
    SharesFromIsSuffix(rows, start);
  }

  /** Where the window starts among the rows, found backwards: from there on they hold exactly the
      window. It is truncated when all shares together reach neither the work nor the count. */
  method FindWindowStart(rows: seq<Row>, window: pos, maxShares: nat)
    returns (start: nat, counted: nat, skipped: nat, truncated: bool)
    ensures start <= |rows|
    ensures SharesFrom(rows, start) == Window(SharesOf(rows), window, maxShares)
    ensures counted == |SharesFrom(rows, start)|
    ensures truncated <==> Work(SharesOf(rows)) < window && |SharesOf(rows)| < maxShares
  {
    var work, at, hitCountCap := 0, |rows|, false;
    start, counted, skipped := |rows|, 0, 0;
    while work < window
      invariant 0 <= at <= start <= |rows| && counted <= maxShares
      invariant SharesFrom(rows, at) == SharesFrom(rows, start)
      invariant counted == |SharesFrom(rows, at)| <= Need(SharesOf(rows), window)
      invariant work == Work(SharesFrom(rows, at))
      decreases at
    {
      ReadSoFar(rows, at, window);
      if counted >= maxShares {
        hitCountCap := true;
        break;
      }
      if at == 0 {
        break;
      }
      at := at - 1;
      ReadBackOne(rows, at);
      ReadSoFar(rows, at, window);
      match rows[at] {
        case Readable(share) =>
          work, counted, start := work + share.difficulty, counted + 1, at;
        case Unreadable =>
          skipped := skipped + 1;
      }
    }
    ReadSoFar(rows, at, window);
    ReadIsWindow(rows, start, window, maxShares);
    ReadSoFar(rows, 0, window);
    truncated := work < window && !hitCountCap;
  }
}
