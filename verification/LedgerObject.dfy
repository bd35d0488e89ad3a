/** The ledger as the pool runs it: the window in memory over a store, recording in batches,
    resizing, and re-reading off the lock. Every method is the step of `LedgerRuns` it names. */
module LedgerObject {
  import opened Basics
  import opened ShareWindow
  import opened WindowContents
  import opened LedgerStore
  import opened LedgerRuns

  /** The contents a store's rows give, read oldest first from the row the window starts at. */
  method ReadContents(rows: seq<Row>, window: pos, maxShares: pos) returns (contents: Contents, truncated: bool)
    ensures fresh(contents) && fresh(contents.identities) && contents.Valid()
    ensures contents.held == Window(SharesOf(rows), window, maxShares)
    ensures |contents.identities.entries| <= maxShares + 1
    ensures truncated <==> Work(SharesOf(rows)) < window && |SharesOf(rows)| < maxShares
  {
    hide Work, Need, Contents.Valid;
    var start, counted, skipped;
    start, counted, skipped, truncated := FindWindowStart(rows, window, maxShares);
    contents := new Contents();
    ghost var read: seq<Share> := [];
    assert Window([], window, maxShares) == [];
    var i := start;
    while i < |rows|
      invariant start <= i <= |rows|
      invariant contents.Valid() && fresh(contents) && fresh(contents.identities)
      invariant contents.held == Window(read, window, maxShares)
      invariant |contents.identities.entries| <= maxShares + 1
      invariant SharesFrom(rows, start) == read + SharesFrom(rows, i)
    {
      if rows[i].Readable? {
        WindowOfPush(read, rows[i].share, window, maxShares);
        contents.Push(rows[i].share, maxShares);
        contents.Trim(window, maxShares);
        read := read + [rows[i].share];
      }
      i := i + 1;
    }
    assert read + [] == read;
    WindowOfSuffix(read, SharesOf(rows), window, maxShares);
  }

  lemma TrimmedStays(held: seq<Share>, window: pos, maxShares: pos)
    ensures Window(Window(held, window, maxShares), window, maxShares) == Window(held, window, maxShares)
  {
    WindowOfSuffix(Window(held, window, maxShares), held, window, maxShares);
  }

  /** The window after the first `n` of `shares`, trimmed after each. */
  function PushedTo(held: seq<Share>, shares: seq<Share>, n: nat, window: pos, maxShares: pos): seq<Share>
    requires n <= |shares|
  {
    if n == 0 then held
    else Window(PushedTo(held, shares, n - 1, window, maxShares) + [shares[n - 1]], window, maxShares)
  }

  /** Trimming after each share is trimming once. */
  lemma {:induction false} PushedInOrder(held: seq<Share>, shares: seq<Share>, n: nat, window: pos, maxShares: pos)
    requires 0 < n <= |shares|
    ensures PushedTo(held, shares, n, window, maxShares) == Window(held + shares[..n], window, maxShares)
  {
    hide Window;
    assert held + shares[..n] == held + shares[..n - 1] + [shares[n - 1]];
    if n == 1 {
      assert shares[..1] == [shares[0]];
    } else {
      PushedInOrder(held, shares, n - 1, window, maxShares);
      WindowOfPush(held + shares[..n - 1], shares[n - 1], window, maxShares);
    }
  }

  lemma NothingRecorded(s: State, shares: seq<Share>, commits: bool)
    requires shares == [] || !commits
    ensures Enabled(s, Event.Record(shares, commits, 0)) && Step(s, Event.Record(shares, commits, 0)) == s
  {
  }

  /** Recording and retaining, as a step. */
  lemma SomeRecorded(s: State, shares: seq<Share>, removed: nat)
    requires shares != [] && removed <= |Recorded(s, shares).rows|
    requires s.running.Some? ==> removed == 0
    requires removed == 0 || IsRetention(Recorded(s, shares).rows, s.keep, |Recorded(s, shares).held|,
      Sub(NewestTime(shares), ACCEPTED_HASH_RETENTION_SECS), MAX_ACCEPTED_HASHES, removed)
    ensures Enabled(s, Event.Record(shares, true, removed))
    ensures Step(s, Event.Record(shares, true, removed))
         == Recorded(s, shares).(rows := Recorded(s, shares).rows[removed..])
  {
    hide Recorded, NewestTime, IsRetention;
  }

  /** What a step keeps of the window (`LedgerRuns.StepKeeps`), for a method that takes it. */
  lemma Keeps(s: State, event: Event)
    requires event.Record? ==> Enabled(s, event)
    requires event.FinishReread? ==> s.running.Some?
    ensures Enabled(s, event)
    ensures Inv(s) && LeavesTheWindow(s, event) ==> Inv(Step(s, event))
    ensures !event.Record? ==> LeavesTheWindow(s, event)
  {
    hide Inv, Step;
    if Inv(s) && LeavesTheWindow(s, event) {
      StepKeeps(s, event);
    }
  }

  lemma Ends(s: State)
    requires s.running.Some?
    ensures Inv(s) ==> var ended := Step(s, Event.FinishReread(true));
      !ended.due ==> ended.held == Window(SharesOf(s.rows), s.window, s.maxShares)
  {
    hide Inv, Step, Window, SharesOf;
    if Inv(s) {
      RereadEnds(s);
    }
  }

  /** A re-read begun under the lock: what it will read, without the lock. */
  datatype RereadPlan = RereadPlan(snapshot: seq<Row>, window: pos, maxShares: pos)

  class Ledger {
    var contents: Contents
    const store: Store
    const maxShares: pos
    var window: pos
    var cumulativeWork: nat
    var countCapped: bool
    var rereadDue: bool
    /** While a re-read runs, the shares that came after what it reads. */
    var recordedDuringReread: Option<seq<Share>>
    /** What the running re-read was begun on. */
    ghost var plan: RereadPlan

    ghost function Repr(): set<object>
      reads this
    {
      {this, contents, contents.identities, store}
    }

    ghost predicate Valid()
      reads this, Repr()
    {
      && contents.Valid() && |contents.held| <= maxShares
      && |contents.identities.entries| <= maxShares + 1
      && store.cumulativeWork == cumulativeWork
      && (countCapped <==> |contents.held| >= maxShares && contents.totalWork < window)
    }

    /** The state of `LedgerRuns` this object is in. */
    ghost function View(): State
      reads this, Repr()
    {
      State(contents.held, window, maxShares, store.rows, store.keep, cumulativeWork, rereadDue,
            if recordedDuringReread.None? then None
            else Some(Reread(plan.snapshot, plan.window, recordedDuringReread.value)))
    }

    /** A ledger over an opened store, its window read back. */
    constructor (store: Store, window: pos, maxShares: pos)
      ensures Valid() && Inv(View()) && this.store == store && fresh(Repr() - {store})
      ensures View() == Attached(store.rows, store.keep, store.cumulativeWork, window, maxShares)
      ensures !rereadDue && recordedDuringReread.None? && contents.held == Window(SharesOf(store.rows), window, maxShares)
    {
      hide Work, Need, Window, Inv, SharesFrom, RowsOf, NewestTime, Contents.Valid, IsRetention, Recorded, Pushed;
      AttachedKeeps(store.rows, store.keep, store.cumulativeWork, window, maxShares);
      var read, truncated := ReadContents(store.rows, window, maxShares);
      contents, this.store, this.window, this.maxShares := read, store, window, maxShares;
      cumulativeWork, rereadDue, recordedDuringReread := store.cumulativeWork, false, None;
      var len := read.Len();
      countCapped := len >= maxShares && read.totalWork < window;
      plan := RereadPlan([], window, maxShares);
    }

    /** Trims to the window as it stands and notes whether the count is what ends it. */
    method Trim()
      requires contents.Valid()
      modifies this`countCapped, contents, contents.identities
      ensures contents.Valid() && contents.held == Window(old(contents.held), window, maxShares)
      ensures |contents.identities.entries| == |old(contents.identities.entries)|
      ensures countCapped <==> |contents.held| >= maxShares && contents.totalWork < window
    {
      hide Work, Need, Window, SharesFrom, SharesOf, RowsOf, NewestTime, IsRetention, Inv, Contents.Valid;
      contents.Trim(window, maxShares);
      var len := contents.Len();
      countCapped := len >= maxShares && contents.totalWork < window;
    }

    method PushOne(share: Share)
      requires contents.Valid() && |contents.held| <= maxShares && |contents.identities.entries| <= maxShares + 1
      modifies this`countCapped, contents, contents.identities
      ensures contents.Valid() && |contents.identities.entries| <= maxShares + 1
      ensures contents.held == Window(old(contents.held) + [share], window, maxShares)
      ensures countCapped <==> |contents.held| >= maxShares && contents.totalWork < window
    {
      hide Window, Contents.Valid;
      contents.Push(share, maxShares);
      Trim();
    }

    /** Pushes each share in order and trims after each. */
    method PushAll(shares: seq<Share>)
      requires contents.Valid() && |contents.held| <= maxShares && |contents.identities.entries| <= maxShares + 1
      modifies this`countCapped, contents, contents.identities
      ensures contents.Valid() && |contents.identities.entries| <= maxShares + 1
      ensures shares == [] ==> contents.held == old(contents.held) && countCapped == old(countCapped)
      ensures shares == [] ==> contents.totalWork == old(contents.totalWork)
      ensures shares != [] ==> contents.held == Window(old(contents.held) + shares, window, maxShares)
      ensures shares != [] ==> (countCapped <==> |contents.held| >= maxShares && contents.totalWork < window)
    {
      hide Window, Contents.Valid;
      for i := 0 to |shares|
        invariant contents.Valid() && |contents.identities.entries| <= maxShares + 1
        invariant |contents.held| <= maxShares
        invariant contents.held == PushedTo(old(contents.held), shares, i, window, maxShares)
        invariant i == 0 ==> countCapped == old(countCapped) && contents.totalWork == old(contents.totalWork)
        invariant i > 0 ==> (countCapped <==> |contents.held| >= maxShares && contents.totalWork < window)
      {
        PushOne(shares[i]);
      }
      if shares != [] {
        PushedInOrder(old(contents.held), shares, |shares|, window, maxShares);
        assert shares[..|shares|] == shares;
      }
    }

    /** Trims to the window as it stands, then pushes each share in order. */
    method TrimAndPushAll(shares: seq<Share>)
      requires contents.Valid() && |contents.identities.entries| <= maxShares + 1
      modifies this`countCapped, contents, contents.identities
      ensures contents.Valid() && |contents.identities.entries| <= maxShares + 1
      ensures contents.held == Window(Window(old(contents.held), window, maxShares) + shares, window, maxShares)
      ensures countCapped <==> |contents.held| >= maxShares && contents.totalWork < window
    {
      hide Work, Need, Window, SharesFrom, SharesOf, RowsOf, NewestTime, IsRetention, Inv, Contents.Valid;
      TrimmedStays(contents.held, window, maxShares);
      Trim();
      ghost var trimmed := contents.held;
      assert trimmed + [] == trimmed;
      PushAll(shares);
    }

    /** The resize step. Narrowing is done at once; widening needs rows the window no longer holds, so
        it only marks a re-read due. */
    method SetWindow(size: nat) returns (due: bool)
      requires Valid()
      modifies this, contents, contents.identities
      ensures contents == old(contents)
      ensures View() == Step(old(View()), Event.SetWindow(size)) && due == rereadDue
      ensures window == (if size > 1 then size else 1) && (due <==> old(rereadDue) || window > old(window))
      ensures Valid() && (old(Inv(View())) ==> Inv(View()))
    {
      hide Work, Need, Window, SharesFrom, SharesOf, RowsOf, NewestTime, IsRetention, Inv, Contents.Valid;
      hide Enabled, Recorded, Pushed, RecordedAndRetained, Begun, Finished, LeavesTheWindow;
      Keeps(View(), Event.SetWindow(size));
      var w: pos := if size < 1 then 1 else size;
      rereadDue := rereadDue || w > window;
      window := w;
      Trim();
      return rereadDue;
    }

    /** The record step, whatever becomes of its two transactions: `commits` and `retains` are whether
        they reach the disk. A batch that does not leaves no trace in memory either. */
    method RecordBatch(shares: seq<Share>, commits: bool, retains: bool) returns (recorded: bool, removed: nat)
      requires Valid()
      modifies this, contents, contents.identities, store
      ensures contents == old(contents)
      ensures recorded <==> commits || shares == []
      ensures Enabled(old(View()), Event.Record(shares, commits, removed))
      ensures View() == Step(old(View()), Event.Record(shares, commits, removed))
      ensures Valid()
      ensures old(Inv(View())) && LeavesTheWindow(old(View()), Event.Record(shares, commits, removed)) ==> Inv(View())
    {
      hide Work, Need, Window, SharesFrom, SharesOf, RowsOf, NewestTime, IsRetention, Inv, Contents.Valid, Step, Enabled, LeavesTheWindow;
      ghost var before := View();
      if shares == [] {
        NothingRecorded(before, shares, commits);
        Keeps(before, Event.Record(shares, commits, 0));
        return true, 0;
      }
      var keepAfter := Sub(NewestTime(shares), ACCEPTED_HASH_RETENTION_SECS);
      var work := cumulativeWork + Work(shares);
      store.InsertBatch(shares, work, commits);
      if !commits {
        NothingRecorded(before, shares, commits);
        Keeps(before, Event.Record(shares, commits, 0));
        return false, 0;
      }
      cumulativeWork := work;
      PushAll(shares);
      if recordedDuringReread.Some? {
        recordedDuringReread := Some(recordedDuringReread.value + shares);
        removed := 0;
      } else {
        var len := contents.Len();
        removed := store.Retain(len, keepAfter, MAX_ACCEPTED_HASHES, retains);
      }
      SomeRecorded(before, shares, removed);
      Keeps(before, Event.Record(shares, true, removed));
      assert View() == Recorded(before, shares).(rows := Recorded(before, shares).rows[removed..]);
      return true, removed;
    }

    /** The step that begins a re-read, if there is one to begin; a failed snapshot is tried again
        later. */
    method BeginReread(snapshotTaken: bool) returns (begun: Option<RereadPlan>)
      requires Valid()
      modifies this
      ensures contents == old(contents)
      ensures View() == Step(old(View()), Event.BeginReread(snapshotTaken))
      ensures begun.Some? <==> old(rereadDue && recordedDuringReread.None?) && snapshotTaken
      ensures begun.Some? ==> begun == Some(plan) && plan == RereadPlan(store.rows, window, maxShares)
      ensures begun.Some? ==> recordedDuringReread == Some([])
      ensures Valid() && (old(Inv(View())) ==> Inv(View()))
    {
      hide Work, Need, Window, SharesFrom, SharesOf, RowsOf, NewestTime, IsRetention, Inv, Contents.Valid;
      hide Enabled, Recorded, Pushed, RecordedAndRetained, Resized, Finished, LeavesTheWindow;
      Keeps(View(), Event.BeginReread(snapshotTaken));
      if !rereadDue || recordedDuringReread.Some? || !snapshotTaken {
        return None;
      }
      recordedDuringReread := Some([]);
      begun := Some(RereadPlan(store.rows, window, maxShares));
      plan := begun.value;
    }

    /** The step that ends a re-read: `read` replaces the window, caught up with what was recorded
        meanwhile, or is none for a read that failed. `gained` is by how much the window grew. */
    method FinishReread(readTo: pos, read: Option<Contents>) returns (gained: nat)
      requires Valid() && recordedDuringReread.Some? && readTo == plan.window
      requires read.Some? ==>
        && read.value !in Repr() && read.value.identities !in Repr() && read.value.Valid()
        && |read.value.identities.entries| <= maxShares + 1
        && read.value.held == Window(SharesOf(plan.snapshot), plan.window, maxShares)
      modifies this
      modifies if read.Some? then {read.value, read.value.identities} else {}
      ensures contents == if read.Some? then read.value else old(contents)
      ensures View() == Step(old(View()), Event.FinishReread(read.Some?))
      ensures gained == if read.Some? then Sub(|contents.held|, |old(contents.held)|) else 0
      ensures recordedDuringReread.None? && window == old(window) && store.rows == old(store.rows)
      ensures rereadDue <==> if read.Some? then window > readTo else old(rereadDue)
      ensures old(Inv(View())) && read.Some? && !rereadDue ==> contents.held == Window(SharesOf(store.rows), window, maxShares)
      ensures Valid() && (old(Inv(View())) ==> Inv(View()))
    {
      hide Work, Need, Window, SharesFrom, SharesOf, RowsOf, NewestTime, IsRetention, Inv, Contents.Valid;
      hide Enabled, Recorded, RecordedAndRetained, Resized, Begun, LeavesTheWindow;
      Keeps(View(), Event.FinishReread(read.Some?));
      Ends(View());
      var recorded := recordedDuringReread.value;
      recordedDuringReread := None;
      if read.None? {
        return 0;
      }
      var before := contents.Len();
      contents := read.value;
      rereadDue := readTo < window;
      TrimAndPushAll(recorded);
      var len := contents.Len();
      return Sub(len, before);
    }
  }
}
