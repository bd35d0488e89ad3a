/** A search of the nonce space by threads at a stride, one turn of one thread at a time. */
module NonceSearch {
  import opened Basics
  import opened Arithmetic
  import opened Bytes
  import opened Target

  const CHECK_INTERVAL: nat := 0x40_0000
  const NONCES: nat := 0x1_0000_0000
  const NONCE_SIZE: nat := 4
  const NOT_FOUND: nat := 0xFFFF_FFFF_FFFF_FFFF

  /** What is searched: the input, where its nonce goes, and the target its hash is to meet. */
  datatype Problem = Problem(input: seq<byte>, spliceAt: nat, hash: seq<byte> -> Target, target: Target)

  predicate Fits(p: Problem) { p.spliceAt + NONCE_SIZE <= |p.input| }

  function Spliced(buf: seq<byte>, at: nat, nonce: nat): (r: seq<byte>)
    requires at + NONCE_SIZE <= |buf|
    ensures |r| == |buf|
  {
    buf[..at] + LeBytes(nonce, NONCE_SIZE) + buf[at + NONCE_SIZE..]
  }

  /** The input with this nonce meets the target. */
  predicate Solves(p: Problem, nonce: nat)
    requires Fits(p)
  {
    LexAtMost(p.hash(Spliced(p.input, p.spliceAt, nonce)), p.target)
  }

  datatype Doing = Testing | Polling | Exhausted | Succeeded | Stopped

  datatype Worker = Worker(nonce: nat, buf: seq<byte>, doing: Doing)

  /** `aborted` once a thread stopped for the caller alone. */
  datatype State = State(workers: seq<Worker>, found: nat, aborted: bool)

  predicate Done(w: Worker) { w.doing.Exhausted? || w.doing.Succeeded? || w.doing.Stopped? }

  function Spawned(p: Problem, threads: nat, n: nat): (workers: seq<Worker>)
    requires n <= threads
    ensures |workers| == n && forall t :: 0 <= t < n ==> workers[t] == Worker(t, p.input, Testing)
  {
    if n == 0 then [] else Spawned(p, threads, n - 1) + [Worker(n - 1, p.input, Testing)]
  }

  function Start(p: Problem, threads: pos): State { State(Spawned(p, threads, threads), NOT_FOUND, false) }

  /** One turn of thread `t`: the test of its nonce, or the look at whether to stop. */
  function Turn(p: Problem, s: State, t: nat, abort: bool): State
    requires t < |s.workers| && p.spliceAt + NONCE_SIZE <= |s.workers[t].buf|
  {
    var w := s.workers[t];
    match w.doing
    case Testing =>
      if w.nonce >= NONCES then s.(workers := s.workers[t := w.(doing := Exhausted)])
      else
        var buf := Spliced(w.buf, p.spliceAt, w.nonce);
        if LexAtMost(p.hash(buf), p.target) then
          s.(workers := s.workers[t := w.(buf := buf, doing := Succeeded)], found := Min(s.found, w.nonce))
        else if w.nonce % CHECK_INTERVAL < |s.workers| then
          s.(workers := s.workers[t := w.(buf := buf, doing := Polling)])
        else
          s.(workers := s.workers[t := w.(buf := buf, nonce := w.nonce + |s.workers|)])
    case Polling =>
      if s.found != NOT_FOUND || abort then
        s.(workers := s.workers[t := w.(doing := Stopped)], aborted := s.aborted || s.found == NOT_FOUND)
      else s.(workers := s.workers[t := w.(nonce := w.nonce + |s.workers|, doing := Testing)])
    case _ => s
  }

  // ---- What every turn keeps ----

  /** The thread's nonces are those of its stride, and none before the one it is at solves. */
  ghost predicate WorkerInv(p: Problem, s: State, t: nat)
    requires Fits(p) && t < |s.workers|
  {
    var w := s.workers[t];
    && SameAround(p, w.buf)
    && w.nonce % |s.workers| == t
    && (!w.doing.Succeeded? ==> TestedBelow(p, |s.workers|, t, if w.doing.Polling? then w.nonce + 1 else w.nonce))
    && (w.doing.Exhausted? ==> w.nonce >= NONCES)
    && (w.doing.Succeeded? ==> s.found != NOT_FOUND)
    && (w.doing.Stopped? ==> s.found != NOT_FOUND || s.aborted)
  }

  /** Only the nonce differs from the input. */
  predicate SameAround(p: Problem, buf: seq<byte>) {
    |buf| == |p.input| && p.spliceAt + NONCE_SIZE <= |buf|
    && buf[..p.spliceAt] == p.input[..p.spliceAt]
    && buf[p.spliceAt + NONCE_SIZE..] == p.input[p.spliceAt + NONCE_SIZE..]
  }

  ghost predicate TestedBelow(p: Problem, threads: nat, t: nat, n: nat)
    requires Fits(p) && threads > 0
  {
    forall m: nat {:trigger Solves(p, m)} :: m < n && m < NONCES && m % threads == t ==> !Solves(p, m)
  }

  ghost predicate Inv(p: Problem, s: State)
    requires Fits(p)
  {
    && |s.workers| > 0
    && (forall t :: 0 <= t < |s.workers| ==> WorkerInv(p, s, t))
    && (s.found != NOT_FOUND ==> s.found < NONCES && Solves(p, s.found))
  }

  lemma SplicedAlike(p: Problem, buf: seq<byte>, nonce: nat)
    requires Fits(p) && SameAround(p, buf)
    ensures Spliced(buf, p.spliceAt, nonce) == Spliced(p.input, p.spliceAt, nonce)
    ensures SameAround(p, Spliced(buf, p.spliceAt, nonce))
  {
  }

  /** Between two nonces of a stride there is none of it. */
  lemma NextOfStride(n: nat, threads: pos, m: nat)
    requires n < m < n + threads
    ensures m % threads != n % threads
  {
    DivMod(n, threads);
    DivMod(m, threads);
    var k, j := n / threads, m / threads;
    if m % threads == n % threads {
      Distribute(j, k, threads);
      MulCancelStrict(0, j - k, threads);
      MulCancelStrict(j - k, 1, threads);
    }
  }

  lemma StrideKeepsRemainder(n: nat, threads: pos)
    ensures (n + threads) % threads == n % threads
  {
    DivMod(n, threads);
    Distribute(n / threads, 1, threads);
    RemainderIs(n + threads, threads, n / threads + 1, n % threads);
  }

  /** A nonce that does not solve brings its thread to the next of the stride. */
  lemma TestedOneMore(p: Problem, threads: pos, t: nat, n: nat)
    requires Fits(p) && TestedBelow(p, threads, t, n + 1) && n % threads == t
    ensures TestedBelow(p, threads, t, n + threads)
  {
    hide Solves;
    forall m: nat | n < m < n + threads
      ensures m % threads != t
    {
      NextOfStride(n, threads, m);
    }
  }

  lemma TestedThis(p: Problem, threads: pos, t: nat, n: nat)
    requires Fits(p) && TestedBelow(p, threads, t, n) && (n < NONCES ==> !Solves(p, n))
    ensures TestedBelow(p, threads, t, n + 1)
  {
    hide Solves;
  }

  /** A turn keeps the thread that takes it right. */
  lemma TurnKeepsItsOwn(p: Problem, s: State, t: nat, abort: bool)
    requires Fits(p) && Inv(p, s) && t < |s.workers| && p.spliceAt + NONCE_SIZE <= |s.workers[t].buf|
    ensures WorkerInv(p, Turn(p, s, t, abort), t)
    ensures var found := Turn(p, s, t, abort).found; found != NOT_FOUND ==> found < NONCES && Solves(p, found)
  {
    hide TestedBelow, Spliced, SameAround, LexAtMost;
    var w, threads := s.workers[t], |s.workers|;
    assert WorkerInv(p, s, t);
    StrideKeepsRemainder(w.nonce, threads);
    if w.doing.Testing? && w.nonce < NONCES {
      SplicedAlike(p, w.buf, w.nonce);
      if !Solves(p, w.nonce) {
        TestedThis(p, threads, t, w.nonce);
        TestedOneMore(p, threads, t, w.nonce);
      }
    } else if w.doing.Polling? {
      TestedOneMore(p, threads, t, w.nonce);
      TestedFewer(p, threads, t, w.nonce);
    }
  }

  lemma TestedFewer(p: Problem, threads: pos, t: nat, n: nat)
    requires Fits(p) && TestedBelow(p, threads, t, n + 1)
    ensures TestedBelow(p, threads, t, n)
  {
    hide Solves;
  }

  lemma TurnKeeps(p: Problem, s: State, t: nat, abort: bool)
    requires Fits(p) && Inv(p, s) && t < |s.workers| && p.spliceAt + NONCE_SIZE <= |s.workers[t].buf|
    ensures Inv(p, Turn(p, s, t, abort)) && |Turn(p, s, t, abort).workers| == |s.workers|
  {
    hide TestedBelow, Spliced, SameAround, LexAtMost, Solves;
    TurnKeepsItsOwn(p, s, t, abort);
    assert WorkerInv(p, s, t);
    var after := Turn(p, s, t, abort);
    forall u | 0 <= u < |s.workers| && u != t
      ensures WorkerInv(p, after, u)
    {
      assert WorkerInv(p, s, u) && after.workers[u] == s.workers[u];
    }
  }

  // ---- Runs ----

  /** Which thread takes each turn, and whether the caller asks to stop then. */
  datatype Scheduled = Scheduled(thread: nat, abort: bool)

  function After(p: Problem, threads: pos, turns: seq<Scheduled>, n: nat): (s: State)
    requires Fits(p) && n <= |turns|
    ensures |s.workers| == threads && forall t :: 0 <= t < threads ==> |s.workers[t].buf| == |p.input|
  {
    if n == 0 then Start(p, threads)
    else
      var s, turn := After(p, threads, turns, n - 1), turns[n - 1];
      if turn.thread < threads then Turn(p, s, turn.thread, turn.abort) else s
  }

  lemma {:induction false} RunKeeps(p: Problem, threads: pos, turns: seq<Scheduled>, n: nat)
    requires Fits(p) && n <= |turns|
    ensures Inv(p, After(p, threads, turns, n))
  {
    hide Turn, Solves;
    if n > 0 {
      RunKeeps(p, threads, turns, n - 1);
      if turns[n - 1].thread < threads {
        TurnKeeps(p, After(p, threads, turns, n - 1), turns[n - 1].thread, turns[n - 1].abort);
      }
    } else {
      StartKeeps(p, threads);
    }
  }

  lemma NothingTested(p: Problem, threads: pos, t: nat)
    requires Fits(p) && t < threads
    ensures TestedBelow(p, threads, t, t)
  {
    hide Solves;
    forall m: nat | m < t
      ensures m % threads != t
    {
      RemainderIs(m, threads, 0, m);
    }
  }

  lemma StartKeeps(p: Problem, threads: pos)
    requires Fits(p)
    ensures Inv(p, Start(p, threads))
  {
    hide Solves, TestedBelow;
    forall t | 0 <= t < threads
      ensures WorkerInv(p, Start(p, threads), t)
    {
      RemainderIs(t, threads, 0, t);
      NothingTested(p, threads, t);
    }
  }

  /** Once every thread returned: a nonce found solves the problem, and when none was found and no
      thread stopped for the caller, no nonce does. */
  lemma SearchIsExact(p: Problem, threads: pos, turns: seq<Scheduled>, n: nat)
    requires Fits(p) && n <= |turns|
    requires forall t :: 0 <= t < threads ==> Done(After(p, threads, turns, n).workers[t])
    ensures var s := After(p, threads, turns, n);
            && (s.found != NOT_FOUND ==> s.found < NONCES && Solves(p, s.found))
            && (s.found == NOT_FOUND && !s.aborted ==> forall m: nat :: m < NONCES ==> !Solves(p, m))
  {
    hide After, Solves, SameAround;
    RunKeeps(p, threads, turns, n);
    var s := After(p, threads, turns, n);
    if s.found == NOT_FOUND && !s.aborted {
      forall m: nat | m < NONCES
        ensures !Solves(p, m)
      {
        DivMod(m, threads);
        assert WorkerInv(p, s, m % threads);
      }
    }
  }

  lemma {:induction false} NeverAskedToStop(p: Problem, threads: pos, turns: seq<Scheduled>, n: nat)
    requires Fits(p) && n <= |turns| && forall i :: 0 <= i < n ==> !turns[i].abort
    ensures !After(p, threads, turns, n).aborted
  {
    hide Spliced, LexAtMost;
    if n > 0 {
      NeverAskedToStop(p, threads, turns, n - 1);
    }
  }

  /** So a search that the caller never asks to stop finds a nonce exactly when there is one. */
  lemma SearchFindsIff(p: Problem, threads: pos, turns: seq<Scheduled>, n: nat)
    requires Fits(p) && n <= |turns| && forall i :: 0 <= i < n ==> !turns[i].abort
    requires forall t :: 0 <= t < threads ==> Done(After(p, threads, turns, n).workers[t])
    ensures After(p, threads, turns, n).found != NOT_FOUND <==> exists m: nat :: m < NONCES && Solves(p, m)
  {
    hide After, Solves;
    NeverAskedToStop(p, threads, turns, n);
    SearchIsExact(p, threads, turns, n);
  }

  // ---- That it ends ----

  /** A look ends its thread exactly when a nonce was found or the caller asks to stop, and otherwise it goes
      on to the next nonce of its stride. */
  lemma LookStopsIff(p: Problem, s: State, t: nat, abort: bool)
    requires t < |s.workers| && p.spliceAt + NONCE_SIZE <= |s.workers[t].buf| && s.workers[t].doing.Polling?
    ensures var was, now := s.workers[t], Turn(p, s, t, abort).workers[t];
      && Turn(p, s, t, abort).found == s.found
      && now == if s.found != NOT_FOUND || abort then was.(doing := Stopped)
                else was.(nonce := was.nonce + |s.workers|, doing := Testing)
  {
  }

  /** How far a thread has come: every turn of one that is not done brings it on. */
  function Progress(w: Worker): nat { 2 * w.nonce + if w.doing.Polling? then 1 else 0 }

  lemma TurnProgresses(p: Problem, s: State, t: nat, abort: bool)
    requires t < |s.workers| && p.spliceAt + NONCE_SIZE <= |s.workers[t].buf|
    requires !Done(s.workers[t]) && (s.workers[t].doing.Polling? ==> s.workers[t].nonce < NONCES)
    ensures var was, now := s.workers[t], Turn(p, s, t, abort).workers[t];
      && (Done(now) || (Progress(now) > Progress(was) && (now.doing.Polling? ==> now.nonce < NONCES)))
      && (was.doing.Testing? && was.nonce >= NONCES ==> Done(now))
  {
    hide Spliced, LexAtMost;
  }

  function TurnsOf(turns: seq<Scheduled>, n: nat, t: nat): nat
    requires n <= |turns|
  {
    if n == 0 then 0 else TurnsOf(turns, n - 1, t) + if turns[n - 1].thread == t then 1 else 0
  }

  lemma {:induction false} TurnsBringItOn(p: Problem, threads: pos, turns: seq<Scheduled>, n: nat, t: nat)
    requires Fits(p) && n <= |turns| && t < threads
    ensures var w := After(p, threads, turns, n).workers[t];
      Done(w) || (TurnsOf(turns, n, t) <= Progress(w) && TurnsOf(turns, n, t) <= 2 * NONCES + 2 * threads
                  && (w.doing.Polling? ==> w.nonce < NONCES) && w.nonce < NONCES + threads)
  {
    hide Turn;
    if n > 0 {
      TurnsBringItOn(p, threads, turns, n - 1, t);
      var s, turn := After(p, threads, turns, n - 1), turns[n - 1];
      if turn.thread == t {
        if Done(s.workers[t]) {
          DoneStays(p, s, t, turn.abort);
        } else {
          TurnProgresses(p, s, t, turn.abort);
          NotFarPast(p, s, t, turn.abort);
        }
      } else if turn.thread < threads {
        OthersStay(p, s, turn.thread, turn.abort, t);
      }
    }
  }

  lemma DoneStays(p: Problem, s: State, t: nat, abort: bool)
    requires t < |s.workers| && p.spliceAt + NONCE_SIZE <= |s.workers[t].buf| && Done(s.workers[t])
    ensures Turn(p, s, t, abort) == s
  {
  }

  lemma NotFarPast(p: Problem, s: State, t: nat, abort: bool)
    requires t < |s.workers| && p.spliceAt + NONCE_SIZE <= |s.workers[t].buf| && !Done(s.workers[t])
    requires s.workers[t].doing.Polling? ==> s.workers[t].nonce < NONCES
    ensures var now := Turn(p, s, t, abort).workers[t]; Done(now) || now.nonce < NONCES + |s.workers|
  {
    hide Spliced, LexAtMost;
  }

  /** Every search ends: whatever the others do, a thread that takes so many turns has returned. */
  lemma SearchEnds(p: Problem, threads: pos, turns: seq<Scheduled>, n: nat, t: nat)
    requires Fits(p) && n <= |turns| && t < threads && TurnsOf(turns, n, t) > 2 * (NONCES + threads)
    ensures Done(After(p, threads, turns, n).workers[t])
  {
    hide After;
    TurnsBringItOn(p, threads, turns, n, t);
  }

  /** The nonce found is the least of those the threads succeeded at. */
  ghost predicate FoundIsLeast(s: State) {
    && (forall t :: 0 <= t < |s.workers| && s.workers[t].doing.Succeeded? ==> s.found <= s.workers[t].nonce)
    && (s.found != NOT_FOUND ==>
          exists t :: 0 <= t < |s.workers| && s.workers[t].doing.Succeeded? && s.workers[t].nonce == s.found)
  }

  lemma TurnKeepsLeast(p: Problem, s: State, t: nat, abort: bool)
    requires t < |s.workers| && p.spliceAt + NONCE_SIZE <= |s.workers[t].buf| && FoundIsLeast(s)
    ensures FoundIsLeast(Turn(p, s, t, abort))
  {
    hide Spliced, LexAtMost;
    var after := Turn(p, s, t, abort);
    if after.found != NOT_FOUND {
      if after.found == s.found {
        var u :| 0 <= u < |s.workers| && s.workers[u].doing.Succeeded? && s.workers[u].nonce == s.found;
        assert after.workers[u] == s.workers[u];
      } else {
        assert after.workers[t].doing.Succeeded? && after.workers[t].nonce == after.found;
      }
    }
  }

  /** In every state of a run the nonce found is the least one a thread succeeded at, and there is none just
      when no thread did. */
  lemma {:induction false} LeastIsFound(p: Problem, threads: pos, turns: seq<Scheduled>, n: nat)
    requires Fits(p) && n <= |turns|
    ensures FoundIsLeast(After(p, threads, turns, n))
  {
    hide Turn, FoundIsLeast;
    if n > 0 {
      LeastIsFound(p, threads, turns, n - 1);
      if turns[n - 1].thread < threads {
        TurnKeepsLeast(p, After(p, threads, turns, n - 1), turns[n - 1].thread, turns[n - 1].abort);
      }
    } else {
      NoneFoundYet(p, threads);
    }
  }

  lemma NoneFoundYet(p: Problem, threads: pos)
    ensures FoundIsLeast(Start(p, threads))
  {
  }

  // ---- How often a thread looks whether to stop ----

  predicate IsLookAt(n: nat, threads: pos, t: nat, k: nat) {
    n / CHECK_INTERVAL == k && n % threads == t && n % CHECK_INTERVAL < threads
  }

  /** With no more threads than an interval is long, exactly one nonce of a stride in each interval is
      one to look at. */
  lemma OneToLookAt(threads: pos, t: nat, k: nat) returns (n: nat)
    requires t < threads <= CHECK_INTERVAL
    ensures IsLookAt(n, threads, t, k) && n < (k + 1) * CHECK_INTERVAL
    ensures forall m: nat :: IsLookAt(m, threads, t, k) ==> m == n
  {
    var start := k * CHECK_INTERVAL;
    n := NextWith(start, threads, t);
    RemainderIs(n, CHECK_INTERVAL, k, n - start);
    forall m: nat | IsLookAt(m, threads, t, k)
      ensures m == n
    {
      DivMod(m, CHECK_INTERVAL);
      if m < n {
        NextOfStride(m, threads, n);
      } else if n < m {
        NextOfStride(n, threads, m);
      }
    }
  }

  /** How many of the first `n` turns are thread `t` looking whether to stop at a nonce of interval `k`. */
  function Looks(p: Problem, threads: pos, turns: seq<Scheduled>, n: nat, t: nat, k: nat): nat
    requires Fits(p) && n <= |turns| && t < threads
  {
    if n == 0 then 0
    else
      var w := After(p, threads, turns, n - 1).workers[t];
      Looks(p, threads, turns, n - 1, t, k)
      + if turns[n - 1].thread == t && w.doing.Polling? && w.nonce / CHECK_INTERVAL == k then 1 else 0
  }

  /** Whether the thread has looked at `q`: it went on from there, or stopped there. */
  predicate Past(w: Worker, q: nat) { w.nonce > q || (w.nonce == q && w.doing.Stopped?) }

  /** One turn of the thread passes `q` exactly when it is its look there. */
  lemma TurnPasses(p: Problem, s: State, t: nat, abort: bool, k: nat, q: nat)
    requires t < |s.workers| && p.spliceAt + NONCE_SIZE <= |s.workers[t].buf|
    requires s.workers[t].nonce % |s.workers| == t
    requires s.workers[t].doing.Polling? ==> s.workers[t].nonce % CHECK_INTERVAL < |s.workers|
    requires IsLookAt(q, |s.workers|, t, k) && forall m: nat :: IsLookAt(m, |s.workers|, t, k) ==> m == q
    ensures var was, now := s.workers[t], Turn(p, s, t, abort).workers[t];
            && (now.doing.Polling? ==> now.nonce % CHECK_INTERVAL < |s.workers|)
            && (Past(now, q) <==> Past(was, q) || (was.doing.Polling? && was.nonce / CHECK_INTERVAL == k))
            && (was.doing.Polling? && was.nonce / CHECK_INTERVAL == k ==> !Past(was, q))
  {
    hide Spliced, LexAtMost, IsLookAt;
    OnlyAt(s.workers[t].nonce, |s.workers|, t, k, q);
  }

  lemma OnlyAt(m: nat, threads: pos, t: nat, k: nat, q: nat)
    requires m % threads == t && IsLookAt(q, threads, t, k)
    requires forall n: nat :: IsLookAt(n, threads, t, k) ==> n == q
    ensures m / CHECK_INTERVAL == k && m % CHECK_INTERVAL < threads <==> m == q
    ensures m < q ==> m + threads <= q
  {
    assert IsLookAt(m, threads, t, k) <==> m / CHECK_INTERVAL == k && m % CHECK_INTERVAL < threads;
    if m < q < m + threads {
      NextOfStride(m, threads, q);
    }
  }

  lemma {:induction false} LooksWhenPast(p: Problem, threads: pos, turns: seq<Scheduled>, n: nat, t: nat, k: nat, q: nat)
    requires Fits(p) && n <= |turns| && t < threads
    requires IsLookAt(q, threads, t, k) && forall m: nat :: IsLookAt(m, threads, t, k) ==> m == q
    ensures Looks(p, threads, turns, n, t, k) == if Past(After(p, threads, turns, n).workers[t], q) then 1 else 0
    ensures var w := After(p, threads, turns, n).workers[t];
            w.doing.Polling? ==> w.nonce % CHECK_INTERVAL < threads
  {
    hide Turn, Past, IsLookAt, WorkerInv;
    if n == 0 {
      NotPastAtFirst(threads, t, k, q, p.input);
    } else {
      LooksWhenPast(p, threads, turns, n - 1, t, k, q);
      var s, turn := After(p, threads, turns, n - 1), turns[n - 1];
      RunKeeps(p, threads, turns, n - 1);
      OnItsStride(p, s, t);
      if turn.thread == t {
        TurnPasses(p, s, t, turn.abort, k, q);
      } else if turn.thread < threads {
        OthersStay(p, s, turn.thread, turn.abort, t);
      }
    }
  }

  lemma NotPastAtFirst(threads: pos, t: nat, k: nat, q: nat, buf: seq<byte>)
    requires IsLookAt(q, threads, t, k)
    ensures !Past(Worker(t, buf, Testing), q)
  {
    DivMod(q, threads);
  }

  lemma OnItsStride(p: Problem, s: State, t: nat)
    requires Fits(p) && Inv(p, s) && t < |s.workers|
    ensures s.workers[t].nonce % |s.workers| == t
  {
    hide TestedBelow, SameAround;
    assert WorkerInv(p, s, t);
  }

  lemma OthersStay(p: Problem, s: State, u: nat, abort: bool, t: nat)
    requires u < |s.workers| && t < |s.workers| && t != u && p.spliceAt + NONCE_SIZE <= |s.workers[u].buf|
    ensures Turn(p, s, u, abort).workers[t] == s.workers[t]
  {
    hide Spliced, LexAtMost;
  }

  /** On every run, with no more threads than an interval is long, each thread looks whether to stop at
      most once in an interval of the nonces, and has looked once when it is past the interval. */
  lemma LooksOncePerInterval(p: Problem, threads: pos, turns: seq<Scheduled>, n: nat, t: nat, k: nat)
    requires Fits(p) && n <= |turns| && t < threads <= CHECK_INTERVAL
    ensures Looks(p, threads, turns, n, t, k) <= 1
    ensures After(p, threads, turns, n).workers[t].nonce >= (k + 1) * CHECK_INTERVAL ==>
              Looks(p, threads, turns, n, t, k) == 1
  {
    hide After, Looks, IsLookAt;
    var q := OneToLookAt(threads, t, k);
    LooksWhenPast(p, threads, turns, n, t, k, q);
  }

  /** The first nonce of a stride from `start` on. */
  lemma NextWith(start: nat, threads: pos, t: nat) returns (n: nat)
    requires t < threads
    ensures start <= n < start + threads && n % threads == t
  {
    DivMod(start, threads);
    var q, r := start / threads, start % threads;
    Distribute(q, 1, threads);
    n := if r <= t then q * threads + t else (q + 1) * threads + t;
    RemainderIs(n, threads, if r <= t then q else q + 1, t);
  }
}
