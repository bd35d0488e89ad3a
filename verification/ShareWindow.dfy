/** The share window as a function of the recorded history: the newest shares whose work
    reaches the window, at most `maxShares` of them. Everything the ledger keeps
    incrementally is compared with `Window`. */
module ShareWindow {
  import opened Basics

  /** A 256-bit hash, read as a number. */
  type Hash = nat

  /** A recorded share. Its difficulty is a power of two, so it is at least 1. */
  datatype Share = Share(acceptedAt: nat, identity: string, difficulty: pos, blockHash: Hash, tag: string)

  /** The work of `shares`: the sum of their difficulties. */
  function Work(shares: seq<Share>): nat {
    if shares == [] then 0
    else Work(shares[..|shares| - 1]) + shares[|shares| - 1].difficulty
  }

  /** How many of the newest rows reach `window` work; every row when none do. */
  function Need(rows: seq<Share>, window: int): (n: nat)
    ensures n <= |rows|
  {
    if rows == [] || window <= 0 then 0
    else 1 + Need(rows[..|rows| - 1], window - rows[|rows| - 1].difficulty)
  }

  /** The newest `n` rows. */
  function Newest<T>(rows: seq<T>, n: nat): seq<T>
    requires n <= |rows|
  {
    rows[|rows| - n..]
  }

  ghost predicate IsSuffix<T>(s: seq<T>, t: seq<T>) {
    |s| <= |t| && s == Newest(t, |s|)
  }

  lemma SuffixDrop<T>(s: seq<T>, t: seq<T>)
    requires IsSuffix(s, t) && s != []
    ensures IsSuffix(s[1..], t)
  {
  }

  lemma SuffixOfSuffix<T>(s: seq<T>, t: seq<T>, u: seq<T>)
    requires IsSuffix(s, t) && IsSuffix(t, u)
    ensures IsSuffix(s, u)
  {
  }

  lemma SuffixOfLonger<T>(s: seq<T>, t: seq<T>, u: seq<T>)
    requires IsSuffix(s, u) && IsSuffix(t, u) && |s| <= |t|
    ensures IsSuffix(s, t)
  {
  }

  lemma SuffixAppend<T>(s: seq<T>, t: seq<T>, u: seq<T>)
    requires IsSuffix(s, t)
    ensures IsSuffix(s + u, t + u)
  {
    assert Newest(t + u, |s + u|) == Newest(t, |s|) + u;
  }

  /** The share window over a history, at `window` work and at most `maxShares` shares. */
  function Window(rows: seq<Share>, window: int, maxShares: nat): (held: seq<Share>)
    ensures IsSuffix(held, rows)
    ensures |held| == Min(Need(rows, window), maxShares)
  {
    Newest(rows, Min(Need(rows, window), maxShares))
  }

  lemma {:induction false} WorkConcat(a: seq<Share>, b: seq<Share>)
    ensures Work(a + b) == Work(a) + Work(b)
  {
    if b == [] {
      assert a + b == a;
    } else {
      assert (a + b)[..|a + b| - 1] == a + b[..|b| - 1];
      WorkConcat(a, b[..|b| - 1]);
    }
  }

  lemma WorkDropFirst(s: seq<Share>)
    requires s != []
    ensures Work(s) == s[0].difficulty + Work(s[1..])
  {
    assert s == s[..1] + s[1..];
    WorkConcat(s[..1], s[1..]);
    assert s[..1][..0] == [];
  }

  /** What makes `Window` the shortest suffix that reaches the work: the newest `n` rows reach
      it exactly when `n` is at least `Need`, unless no suffix does. */
  lemma {:induction false} NeedIsShortest(rows: seq<Share>, window: int, n: nat)
    requires n <= |rows|
    ensures Work(Newest(rows, n)) >= window
       <==> Need(rows, window) <= n && (Need(rows, window) < |rows| || Work(rows) >= window)
  {
    if window > 0 && n > 0 {
      var front, last := rows[..|rows| - 1], rows[|rows| - 1];
      assert Newest(rows, n)[..n - 1] == Newest(front, n - 1);
      NeedIsShortest(front, window - last.difficulty, n - 1);
    } else if n == 0 {
      assert Newest(rows, n) == [];
    }
  }

  lemma {:induction false} NeedMonotone(rows: seq<Share>, v: int, w: int)
    requires v <= w
    ensures Need(rows, v) <= Need(rows, w)
  {
    if rows != [] && v > 0 {
      var d := rows[|rows| - 1].difficulty;
      NeedMonotone(rows[..|rows| - 1], v - d, w - d);
    }
  }

  /** A suffix needs what the whole needs, or all of itself. */
  lemma {:induction false} NeedOfSuffix(c: seq<Share>, rows: seq<Share>, window: int)
    requires IsSuffix(c, rows)
    ensures Need(c, window) == Min(|c|, Need(rows, window))
  {
    if c != [] && window > 0 {
      var d := rows[|rows| - 1].difficulty;
      assert c[..|c| - 1] == Newest(rows[..|rows| - 1], |c| - 1);
      NeedOfSuffix(c[..|c| - 1], rows[..|rows| - 1], window - d);
    }
  }

  /** Any suffix holding the window has the same window: the one fact behind recording,
      narrowing, retention and the re-read. */
  lemma WindowOfSuffix(c: seq<Share>, rows: seq<Share>, window: int, maxShares: nat)
    requires IsSuffix(c, rows)
    ensures |Window(c, window, maxShares)| == Min(|c|, |Window(rows, window, maxShares)|)
    ensures IsSuffix(Window(c, window, maxShares), Window(rows, window, maxShares))
    ensures |c| >= |Window(rows, window, maxShares)| ==> Window(c, window, maxShares) == Window(rows, window, maxShares)
  {
    NeedOfSuffix(c, rows, window);
  }

  /** Recording keeps the window incremental: pushing onto the window and trimming gives the
      window over the longer history. */
  lemma WindowOfPush(rows: seq<Share>, share: Share, window: int, maxShares: nat)
    ensures Window(Window(rows, window, maxShares) + [share], window, maxShares)
         == Window(rows + [share], window, maxShares)
  {
    hide Need, Window, IsSuffix;
    var held := Window(rows, window, maxShares);
    SuffixAppend(held, rows, [share]);
    NeedOfPush(rows, share, window);
    NeedMonotone(rows, window - share.difficulty, window);
    WindowOfSuffix(held + [share], rows + [share], window, maxShares);
  }

  lemma NeedOfPush(rows: seq<Share>, share: Share, window: int)
    ensures Need(rows + [share], window) == if window <= 0 then 0 else 1 + Need(rows, window - share.difficulty)
  {
    assert (rows + [share])[..|rows|] == rows;
  }

  lemma WindowOfNarrower(rows: seq<Share>, wide: int, narrow: int, maxShares: nat)
    requires narrow <= wide
    ensures IsSuffix(Window(rows, narrow, maxShares), Window(rows, wide, maxShares))
    ensures Window(Window(rows, wide, maxShares), narrow, maxShares) == Window(rows, narrow, maxShares)
  {
    NeedMonotone(rows, narrow, wide);
    WindowOfSuffix(Window(rows, wide, maxShares), rows, narrow, maxShares);
  }

  /** The oldest share can go exactly when the rest still reach the window. */
  lemma NeedAfterDrop(s: seq<Share>, window: int)
    requires s != []
    ensures Work(s[1..]) >= window ==> Need(s, window) < |s|
    ensures Work(s[1..]) < window ==> Need(s, window) == |s|
  {
    NeedIsShortest(s, window, |s| - 1);
    assert s[1..] == Newest(s, |s| - 1);
  }
}
