/** The ledger as a state machine over its events, and what every run of it keeps. The class
    in `LedgerObject` refines these steps. */
module LedgerRuns {
  import opened Basics
  import opened ShareWindow
  import opened LedgerStore

  /** A re-read under way: the rows its snapshot reads, the window it reads to, and the shares
      recorded since the snapshot. */
  datatype Reread = Reread(snapshot: seq<Row>, window: pos, recorded: seq<Share>)

  datatype State = State(
    held: seq<Share>, window: pos, maxShares: pos,
    rows: seq<Row>, keep: Option<nat>, cumulativeWork: nat,
    due: bool, running: Option<Reread>)

  datatype Event =
    | Record(shares: seq<Share>, stored: bool, removed: nat)
    | SetWindow(window: nat)
    | BeginReread(snapshotTaken: bool)
    | FinishReread(readSucceeds: bool)

  /** The newest acceptance time of a batch. */
  function NewestTime(shares: seq<Share>): nat {
    if shares == [] then 0
    else Max(NewestTime(shares[..|shares| - 1]), shares[|shares| - 1].acceptedAt)
  }

  /** The ledger after a store's window has been read back into it. */
  function Attached(rows: seq<Row>, keep: Option<nat>, cumulativeWork: nat, window: pos, maxShares: pos): State {
    State(Window(SharesOf(rows), window, maxShares), window, maxShares, rows, keep, cumulativeWork, false, None)
  }

  /** The shares pushed in order, the window trimmed after each: the same as trimming once. */
  function Pushed(s: State, shares: seq<Share>): seq<Share> {
    Window(s.held + shares, s.window, s.maxShares)
  }

  function Recorded(s: State, shares: seq<Share>): State {
    s.(held := Pushed(s, shares), rows := s.rows + RowsOf(shares), cumulativeWork := s.cumulativeWork + Work(shares),
       running := if s.running.None? then None
                  else Some(s.running.value.(recorded := s.running.value.recorded + shares)))
  }

  /** Whether `event` can happen in `s`: retention removes what the store's rule says, or
      nothing when its own transaction fails, and nothing at all while a re-read runs. */
  ghost predicate Enabled(s: State, event: Event) {
    match event
    case Record(shares, stored, removed) =>
      if shares == [] || !stored || s.running.Some? then removed == 0
      else
        var after := Recorded(s, shares);
        removed == 0 || IsRetention(after.rows, s.keep, |after.held|,
                                    Sub(NewestTime(shares), ACCEPTED_HASH_RETENTION_SECS), MAX_ACCEPTED_HASHES, removed)
    case FinishReread(_) => s.running.Some?
    case _ => true
  }

  function RecordedAndRetained(s: State, shares: seq<Share>, removed: nat): State {
    var after := Recorded(s, shares);
    after.(rows := if removed <= |after.rows| then after.rows[removed..] else [])
  }

  function Resized(s: State, window: nat): State {
    var w: pos := if window < 1 then 1 else window;
    s.(window := w, due := s.due || w > s.window, held := Window(s.held, w, s.maxShares))
  }

  function Begun(s: State): State {
    if !s.due || s.running.Some? then s else s.(running := Some(Reread(s.rows, s.window, [])))
  }

  function Finished(s: State): State
    requires s.running.Some?
  {
    var reread := s.running.value;
    var read := Window(SharesOf(reread.snapshot), reread.window, s.maxShares);
    var installed := s.(held := Window(read, s.window, s.maxShares), due := reread.window < s.window, running := None);
    installed.(held := Pushed(installed, reread.recorded))
  }

  ghost function Step(s: State, event: Event): State
    requires Enabled(s, event)
  {
    match event
    case Record(shares, stored, removed) =>
      if shares == [] || !stored then s else RecordedAndRetained(s, shares, removed)
    case SetWindow(window) => Resized(s, window)
    case BeginReread(snapshotTaken) => if snapshotTaken then Begun(s) else s
    case FinishReread(readSucceeds) => if readSucceeds then Finished(s) else s.(running := None)
  }

  // ---- What every step keeps ----

  /** The window over the rows on disk. */
  function TrueWindow(s: State): seq<Share> {
    Window(SharesOf(s.rows), s.window, s.maxShares)
  }

  /** What the window promises: with no re-read due it is exactly the window over the rows, and with
      one due it still holds no share outside it. */
  ghost predicate Exact(s: State) {
    && IsSuffix(s.held, TrueWindow(s))
    && (!s.due ==> s.held == TrueWindow(s))
  }

  /** What a record's retention must leave: as many readable shares as the window then holds. */
  ghost predicate LeavesTheWindow(s: State, event: Event)
    requires Enabled(s, event)
  {
    event.Record? ==> |Step(s, event).held| <= |SharesOf(Step(s, event).rows)|
  }

  ghost predicate Inv(s: State) {
    && WindowInv(s.held, SharesOf(s.rows), s.window, s.maxShares, s.due)
    && (s.running.Some? ==> s.due && RereadInv(s.rows, s.running.value))
  }

  /** What is held is a part of the history that trimming leaves alone, and the whole window
      unless a re-read is due. */
  ghost predicate WindowInv(held: seq<Share>, history: seq<Share>, window: pos, maxShares: pos, due: bool) {
    && IsSuffix(held, history)
    && Window(held, window, maxShares) == held
    && (!due ==> held == Window(history, window, maxShares))
  }

  /** Retention waits while a re-read runs: the rows are its snapshot and what came since. */
  ghost predicate RereadInv(rows: seq<Row>, reread: Reread) {
    rows == reread.snapshot + RowsOf(reread.recorded)
  }

  lemma RowsInserted(rows: seq<Row>, shares: seq<Share>)
    ensures SharesOf(rows + RowsOf(shares)) == SharesOf(rows) + shares
  {
    SharesOfInserted(rows, shares, 0);
  }

  /** Pushing onto any part of the history that holds the window gives the window over the
      longer history. */
  lemma WindowOfHistory(held: seq<Share>, history: seq<Share>, shares: seq<Share>, window: pos, maxShares: pos)
    requires held == Window(history, window, maxShares)
    ensures Window(held + shares, window, maxShares) == Window(history + shares, window, maxShares)
    decreases |shares|
  {
    if shares == [] {
      assert held + shares == held && history + shares == history;
      WindowOfSuffix(held, history, window, maxShares);
    } else {
      var front, last := shares[..|shares| - 1], shares[|shares| - 1];
      WindowOfHistory(held, history, front, window, maxShares);
      assert held + shares == held + front + [last] && history + shares == history + front + [last];
      WindowOfPush(held + front, last, window, maxShares);
      WindowOfPush(history + front, last, window, maxShares);
    }
  }

  /** Whether or not a re-read is due, no share outside the true window is ever credited. */
  lemma HeldIsWithinTheTrueWindow(s: State)
    requires Inv(s)
    ensures Exact(s)
  {
    hide Window, SharesOf;
    WindowOfSuffix(s.held, SharesOf(s.rows), s.window, s.maxShares);
  }

  lemma PushKeeps(held: seq<Share>, history: seq<Share>, shares: seq<Share>, window: pos, maxShares: pos, due: bool)
    requires WindowInv(held, history, window, maxShares, due)
    ensures WindowInv(Window(held + shares, window, maxShares), history + shares, window, maxShares, due)
  {
    SuffixAppend(held, history, shares);
    var pushed := Window(held + shares, window, maxShares);
    SuffixOfSuffix(pushed, held + shares, history + shares);
    WindowOfSuffix(pushed, held + shares, window, maxShares);
    if !due {
      WindowOfHistory(held, history, shares, window, maxShares);
    }
  }

  lemma RecordedKeeps(s: State, shares: seq<Share>)
    requires Inv(s)
    ensures Inv(Recorded(s, shares))
  {
    hide WindowInv, SharesOf, RowsOf, Window;
    RowsInserted(s.rows, shares);
    PushKeeps(s.held, SharesOf(s.rows), shares, s.window, s.maxShares, s.due);
    if s.running.Some? {
      RowsOfConcat(s.running.value.snapshot, s.running.value.recorded, shares);
    }
  }

  /** Retention keeps the window exactly when the rows it leaves still hold as many readable
      shares as the window does. */
  lemma RetentionKeepsTheWindowIff(rows: seq<Row>, removed: nat, window: pos, maxShares: pos)
    requires removed <= |rows|
    ensures Window(SharesOf(rows[removed..]), window, maxShares) == Window(SharesOf(rows), window, maxShares)
       <==> |SharesOf(rows[removed..])| >= |Window(SharesOf(rows), window, maxShares)|
  {
    SharesAfterDrop(rows, removed);
    WindowOfSuffix(SharesOf(rows[removed..]), SharesOf(rows), window, maxShares);
  }

  lemma RetentionKeeps(s: State, removed: nat)
    requires Inv(s) && s.running.None? && removed <= |s.rows|
    requires |s.held| <= |SharesOf(s.rows[removed..])|
    ensures Inv(s.(rows := s.rows[removed..]))
  {
    hide Window, SharesOf;
    SharesAfterDrop(s.rows, removed);
    SuffixOfLonger(s.held, SharesOf(s.rows[removed..]), SharesOf(s.rows));
    RetentionKeepsTheWindowIff(s.rows, removed, s.window, s.maxShares);
  }

  lemma SetWindowKeeps(s: State, window: nat)
    requires Inv(s)
    ensures Inv(Resized(s, window))
  {
    hide Window, SharesOf;
    var after := Resized(s, window);
    TrimmedKeeps(s.held, SharesOf(s.rows), s.window, after.window, s.maxShares, s.due);
  }

  /** Trimming to another window keeps what is held a trimmed part of the history, and the whole of
      the window when that is no wider. */
  lemma TrimmedKeeps(held: seq<Share>, history: seq<Share>, window: pos, next: pos, maxShares: pos, due: bool)
    requires WindowInv(held, history, window, maxShares, due)
    ensures WindowInv(Window(held, next, maxShares), history, next, maxShares, due || next > window)
  {
    hide Window;
    var after := Window(held, next, maxShares);
    SuffixOfSuffix(after, held, history);
    WindowOfSuffix(after, held, next, maxShares);
    if !due && next <= window {
      WindowOfNarrower(history, window, next, maxShares);
    }
  }

  /** What a read gives is a trimmed part of its snapshot. */
  lemma ReadKeeps(history: seq<Share>, window: pos, maxShares: pos)
    ensures WindowInv(Window(history, window, maxShares), history, window, maxShares, false)
  {
    hide Window;
    WindowOfSuffix(Window(history, window, maxShares), history, window, maxShares);
  }

  lemma FinishRereadKeeps(s: State)
    requires Inv(s) && s.running.Some?
    ensures Inv(Finished(s))
  {
    hide Window, SharesOf, RowsOf, WindowInv, Work;
    var reread := s.running.value;
    var snapshot := SharesOf(reread.snapshot);
    var read := Window(snapshot, reread.window, s.maxShares);
    ReadKeeps(snapshot, reread.window, s.maxShares);
    TrimmedKeeps(read, snapshot, reread.window, s.window, s.maxShares, false);
    var installed := s.(held := Window(read, s.window, s.maxShares), due := reread.window < s.window,
                        running := None, rows := reread.snapshot);
    RecordedKeeps(installed, reread.recorded);
    assert Finished(s) == Recorded(installed, reread.recorded).(cumulativeWork := s.cumulativeWork);
  }

  lemma RecordStepKeeps(s: State, shares: seq<Share>, removed: nat)
    requires Inv(s) && (s.running.Some? ==> removed == 0) && removed <= |Recorded(s, shares).rows|
    requires |Recorded(s, shares).held| <= |SharesOf(Recorded(s, shares).rows[removed..])|
    ensures Inv(RecordedAndRetained(s, shares, removed))
  {
    hide Inv, Recorded, SharesOf;
    RecordedKeeps(s, shares);
    var after := Recorded(s, shares);
    if removed == 0 {
      assert after.rows[0..] == after.rows;
    } else {
      NoneRunning(s, shares);
      RetentionKeeps(after, removed);
    }
  }

  lemma NoneRunning(s: State, shares: seq<Share>)
    ensures Recorded(s, shares).running.None? <==> s.running.None?
  {
  }

  /** The retention rule takes no more rows than there are. */
  lemma RemovedAreThere(s: State, shares: seq<Share>, removed: nat)
    requires Enabled(s, Record(shares, true, removed)) && shares != []
    ensures removed <= |Recorded(s, shares).rows|
    ensures s.running.Some? ==> removed == 0
  {
    hide Recorded, Window, Work, RowsOf, NewestTime;
  }

  lemma BegunKeeps(s: State)
    requires Inv(s)
    ensures Inv(Begun(s))
  {
    hide WindowInv, SharesOf;
    assert s.rows == s.rows + RowsOf([]);
  }

  lemma StepKeeps(s: State, event: Event)
    requires Inv(s) && Enabled(s, event) && LeavesTheWindow(s, event)
    ensures Inv(Step(s, event))
  {
    hide Inv, Enabled, Recorded, SharesOf, Begun, Finished, Resized;
    match event
    case Record(shares, stored, removed) =>
      if shares != [] && stored {
        RemovedAreThere(s, shares, removed);
        RecordStepKeeps(s, shares, removed);
      }
    case SetWindow(window) => SetWindowKeeps(s, window);
    case BeginReread(_) => BegunKeeps(s);
    case FinishReread(readSucceeds) =>
      if readSucceeds {
        MustBeRunning(s, readSucceeds);
        FinishRereadKeeps(s);
      } else {
        AbandonedKeeps(s);
      }
  }

  lemma MustBeRunning(s: State, readSucceeds: bool)
    requires Enabled(s, FinishReread(readSucceeds))
    ensures s.running.Some?
  {
  }

  lemma AbandonedKeeps(s: State)
    requires Inv(s)
    ensures Inv(s.(running := None))
  {
    hide WindowInv, SharesOf;
  }

  // ---- Runs ----

  ghost predicate IsRun(s: State, events: seq<Event>)
    decreases |events|
  {
    events == [] || (Enabled(s, events[0]) && IsRun(Step(s, events[0]), events[1..]))
  }

  ghost function After(s: State, events: seq<Event>): State
    requires IsRun(s, events)
    decreases |events|
  {
    if events == [] then s else After(Step(s, events[0]), events[1..])
  }

  /** Every share recorded over a run, in order. */
  function Accepted(events: seq<Event>): seq<Share> {
    if events == [] then [] else AcceptedBy(events[0]) + Accepted(events[1..])
  }

  function AcceptedBy(event: Event): seq<Share> {
    if event.Record? && event.stored then event.shares else []
  }

  ghost predicate AlwaysLeavesTheWindow(s: State, events: seq<Event>)
    requires IsRun(s, events)
    decreases |events|
  {
    events == [] || (LeavesTheWindow(s, events[0]) && AlwaysLeavesTheWindow(Step(s, events[0]), events[1..]))
  }

  ghost predicate AlwaysExact(s: State, events: seq<Event>)
    requires IsRun(s, events)
    decreases |events|
  {
    Exact(s) && (events == [] || AlwaysExact(Step(s, events[0]), events[1..]))
  }

  lemma AttachedKeeps(rows: seq<Row>, keep: Option<nat>, cumulativeWork: nat, window: pos, maxShares: pos)
    ensures Inv(Attached(rows, keep, cumulativeWork, window, maxShares))
  {
    hide Window, SharesOf, WindowInv;
    ReadKeeps(SharesOf(rows), window, maxShares);
  }

  /** What an exact window holds is among the rows, so the step before left it there. */
  lemma ExactIsLeft(s: State, event: Event)
    requires Enabled(s, event) && Exact(Step(s, event))
    ensures LeavesTheWindow(s, event)
  {
    hide Step, Enabled, SharesOf, Need;
  }

  lemma {:induction false} ExactIff(s: State, events: seq<Event>)
    requires Inv(s) && IsRun(s, events)
    ensures AlwaysExact(s, events) <==> AlwaysLeavesTheWindow(s, events)
    decreases |events|
  {
    hide Inv, Enabled, Step, Exact, LeavesTheWindow;
    HeldIsWithinTheTrueWindow(s);
    if events != [] {
      if LeavesTheWindow(s, events[0]) {
        StepKeeps(s, events[0]);
        ExactIff(Step(s, events[0]), events[1..]);
      } else if Exact(Step(s, events[0])) {
        ExactIsLeft(s, events[0]);
      }
    }
  }

  /** The main result. On every run from an opened store, whatever the interleaving of records,
      store failures, narrowing, widening, retention and re-reads, the window is exact in every
      state if and only if every retention leaves as many readable shares as the window holds. */
  lemma WindowIsExactIff(
    rows: seq<Row>, keep: Option<nat>, cumulativeWork: nat, window: pos, maxShares: pos, events: seq<Event>)
    requires IsRun(Attached(rows, keep, cumulativeWork, window, maxShares), events)
    ensures var s := Attached(rows, keep, cumulativeWork, window, maxShares);
      AlwaysExact(s, events) <==> AlwaysLeavesTheWindow(s, events)
  {
    hide Inv, IsRun, AlwaysExact, AlwaysLeavesTheWindow;
    AttachedKeeps(rows, keep, cumulativeWork, window, maxShares);
    ExactIff(Attached(rows, keep, cumulativeWork, window, maxShares), events);
  }

  // ---- Stores that always do ----

  /** The store holds only rows that unpack, as an uncorrupted database does, or keeps all. */
  ghost predicate Sound(rows: seq<Row>, keep: Option<nat>) {
    keep.None? || AllReadable(rows)
  }

  /** The retention rule leaves at least as many rows as the window holds, so as many shares when
      every row is one. */
  lemma RetentionLeavesTheWindow(
    rows: seq<Row>, keep: Option<nat>, floor: nat, keepAfter: nat, keepNewest: nat, removed: nat)
    requires Sound(rows, keep) && floor <= |SharesOf(rows)|
    requires IsRetention(rows, keep, floor, keepAfter, keepNewest, removed)
    ensures removed <= |rows| && Sound(rows[removed..], keep) && floor <= |SharesOf(rows[removed..])|
  {
    if keep.None? {
      assert rows[0..] == rows;
    } else {
      AllReadableCount(rows[removed..], 0);
    }
  }

  lemma HeldIsStored(s: State)
    requires Inv(s)
    ensures |s.held| <= |SharesOf(s.rows)|
  {
    hide SharesOf, Window;
  }

  lemma SoundRecord(s: State, shares: seq<Share>, removed: nat)
    requires Inv(s) && Sound(s.rows, s.keep) && shares != [] && Enabled(s, Record(shares, true, removed))
    ensures var next := RecordedAndRetained(s, shares, removed);
      |next.held| <= |SharesOf(next.rows)| && Sound(next.rows, next.keep)
  {
    hide Inv, SharesOf, NewestTime, Window, Work, IsRetention;
    RecordedKeeps(s, shares);
    var after := Recorded(s, shares);
    HeldIsStored(after);
    if removed == 0 {
      assert after.rows[0..] == after.rows;
    } else {
      RetentionLeavesTheWindow(after.rows, s.keep, |after.held|,
        Sub(NewestTime(shares), ACCEPTED_HASH_RETENTION_SECS), MAX_ACCEPTED_HASHES, removed);
    }
  }

  lemma SoundStep(s: State, event: Event)
    requires Inv(s) && Sound(s.rows, s.keep) && Enabled(s, event)
    ensures LeavesTheWindow(s, event) && Sound(Step(s, event).rows, Step(s, event).keep)
  {
    hide Inv, Enabled, SharesOf, Sound, Window, RecordedAndRetained, Work, RowsOf;
    if event.Record? {
      if event.shares != [] && event.stored {
        SoundRecord(s, event.shares, event.removed);
        SettingsKept(s, event);
      } else {
        HeldIsStored(s);
      }
    }
  }

  lemma {:induction false} SoundRunsLeaveTheWindow(s: State, events: seq<Event>)
    requires Inv(s) && Sound(s.rows, s.keep) && IsRun(s, events)
    ensures AlwaysLeavesTheWindow(s, events)
    decreases |events|
  {
    hide Inv, Enabled, Step, Sound, LeavesTheWindow;
    if events != [] {
      SoundStep(s, events[0]);
      StepKeeps(s, events[0]);
      SoundRunsLeaveTheWindow(Step(s, events[0]), events[1..]);
    }
  }

  /** So on every run from a store whose rows all unpack, or one that keeps every row, the window is
      exact in every state. */
  lemma WindowIsExactOnEveryRun(
    rows: seq<Row>, keep: Option<nat>, cumulativeWork: nat, window: pos, maxShares: pos, events: seq<Event>)
    requires Sound(rows, keep)
    requires IsRun(Attached(rows, keep, cumulativeWork, window, maxShares), events)
    ensures AlwaysExact(Attached(rows, keep, cumulativeWork, window, maxShares), events)
  {
    hide Inv, IsRun, AlwaysExact, AlwaysLeavesTheWindow, Sound;
    AttachedKeeps(rows, keep, cumulativeWork, window, maxShares);
    var s := Attached(rows, keep, cumulativeWork, window, maxShares);
    SoundRunsLeaveTheWindow(s, events);
    ExactIff(s, events);
  }

  // ---- The window against the shares themselves ----

  /** The rows a record's retention leaves still hold the window over the rows before and the batch. */
  ghost predicate KeepsTheTrueWindow(s: State, event: Event)
    requires Enabled(s, event)
  {
    var next := Step(s, event);
    TrueWindow(next) == Window(SharesOf(s.rows) + AcceptedBy(event), next.window, next.maxShares)
  }

  ghost predicate EnoughAreLeft(s: State, event: Event)
    requires Enabled(s, event)
  {
    var next := Step(s, event);
    |SharesOf(next.rows)| >= |Window(SharesOf(s.rows) + AcceptedBy(event), next.window, next.maxShares)|
  }

  lemma NoRecordNoRows(s: State, event: Event)
    requires Enabled(s, event) && AcceptedBy(event) == []
    ensures Step(s, event).rows == s.rows
  {
    hide SharesOf, Window, Recorded, Enabled;
  }

  lemma RecordsRows(s: State, event: Event)
    requires Enabled(s, event) && AcceptedBy(event) != []
    ensures event.removed <= |s.rows + RowsOf(event.shares)|
    ensures Step(s, event) == Recorded(s, event.shares).(rows := (s.rows + RowsOf(event.shares))[event.removed..])
  {
    hide SharesOf, Window, RowsOf, Work, NewestTime;
    RemovedAreThere(s, event.shares, event.removed);
  }

  /** A step keeps the true window exactly when it leaves as many readable shares as that holds. */
  lemma StepKeepsTheTrueWindowIff(s: State, event: Event)
    requires Enabled(s, event)
    ensures KeepsTheTrueWindow(s, event) <==> EnoughAreLeft(s, event)
  {
    hide SharesOf, Window, RowsOf, Recorded, Step, Enabled;
    if AcceptedBy(event) == [] {
      NoRecordNoRows(s, event);
      assert SharesOf(s.rows) + [] == SharesOf(s.rows);
      WindowAtMost(SharesOf(s.rows), Step(s, event).window, Step(s, event).maxShares);
    } else {
      RecordsRows(s, event);
      RowsInserted(s.rows, event.shares);
      RetentionKeepsTheWindowIff(s.rows + RowsOf(event.shares), event.removed, Step(s, event).window, Step(s, event).maxShares);
    }
  }

  lemma WindowAtMost(rows: seq<Share>, window: pos, maxShares: pos)
    ensures |Window(rows, window, maxShares)| <= |rows|
  {
  }

  /** Whether a widening still waits for the re-read that is to honour it. */
  predicate AwaitsReread(s: State) { s.due && s.running.None? }

  /** With no widening waiting, the window held is the true one, or retention does not run: no step
      from a sound store loses a share of the true window. */
  lemma SoundStepKeepsTheTrueWindow(s: State, event: Event)
    requires Inv(s) && Sound(s.rows, s.keep) && Enabled(s, event) && !AwaitsReread(s)
    ensures KeepsTheTrueWindow(s, event)
  {
    hide SharesOf, Window, RowsOf, Recorded, Step, Enabled, Sound, WindowInv;
    if AcceptedBy(event) == [] {
      NoRecordNoRows(s, event);
      assert SharesOf(s.rows) + [] == SharesOf(s.rows);
    } else {
      RecordsRows(s, event);
      RowsInserted(s.rows, event.shares);
      RecordedKeeps(s, event.shares);
      if s.running.Some? {
        MustWait(s, event);
        assert (s.rows + RowsOf(event.shares))[0..] == s.rows + RowsOf(event.shares);
      } else {
        SoundStep(s, event);
        AfterRecord(s, event);
        HeldWhole(Recorded(s, event.shares));
        StepKeepsTheTrueWindowIff(s, event);
      }
    }
  }

  lemma MustWait(s: State, event: Event)
    requires Enabled(s, event) && AcceptedBy(event) != [] && s.running.Some?
    ensures event.removed == 0
  {
  }

  lemma HeldWhole(s: State)
    requires Inv(s) && !s.due
    ensures s.held == TrueWindow(s)
  {
    hide SharesOf, Window;
  }

  /** What a record leaves held is the window it finds, whatever retention removes. */
  lemma AfterRecord(s: State, event: Event)
    requires Enabled(s, event) && AcceptedBy(event) != []
    ensures var after := Recorded(s, event.shares);
      && after.rows == s.rows + RowsOf(event.shares) && after.due == s.due
      && after.window == Step(s, event).window && after.maxShares == Step(s, event).maxShares
      && after.held == Step(s, event).held
  {
    hide SharesOf, Window, RowsOf, Work, Enabled;
    RecordsRows(s, event);
  }

  ghost predicate AlwaysKeepsTheTrueWindow(s: State, events: seq<Event>)
    requires IsRun(s, events)
    decreases |events|
  {
    events == [] || (KeepsTheTrueWindow(s, events[0]) && AlwaysKeepsTheTrueWindow(Step(s, events[0]), events[1..]))
  }

  /** Every record made while a widening waits leaves enough. */
  ghost predicate EnoughAreLeftWhileWaiting(s: State, events: seq<Event>)
    requires IsRun(s, events)
    decreases |events|
  {
    events == [] || ((AwaitsReread(s) ==> EnoughAreLeft(s, events[0])) && EnoughAreLeftWhileWaiting(Step(s, events[0]), events[1..]))
  }

  /** So on every run from a sound store no share of the true window is lost, if and only if none is by
      the records made between a widening and the re-read it waits for. */
  lemma {:induction false} TrueWindowIsKeptIff(s: State, events: seq<Event>)
    requires Inv(s) && Sound(s.rows, s.keep) && IsRun(s, events)
    ensures AlwaysKeepsTheTrueWindow(s, events) <==> EnoughAreLeftWhileWaiting(s, events)
    decreases |events|
  {
    hide Inv, Enabled, Step, Sound, LeavesTheWindow, KeepsTheTrueWindow, EnoughAreLeft, AwaitsReread;
    if events != [] {
      SoundStep(s, events[0]);
      StepKeeps(s, events[0]);
      StepKeepsTheTrueWindowIff(s, events[0]);
      if !AwaitsReread(s) {
        SoundStepKeepsTheTrueWindow(s, events[0]);
      }
      TrueWindowIsKeptIff(Step(s, events[0]), events[1..]);
    }
  }

  /** The counter stored with the rows is all the work ever credited. */
  lemma {:induction false} CounterIsAllWorkAccepted(s: State, events: seq<Event>)
    requires IsRun(s, events)
    ensures After(s, events).cumulativeWork == s.cumulativeWork + Work(Accepted(events))
    decreases |events|
  {
    if events != [] {
      CounterIsAllWorkAccepted(Step(s, events[0]), events[1..]);
      WorkConcat(AcceptedBy(events[0]), Accepted(events[1..]));
    }
  }

  /** A store that keeps every row holds the whole history. */
  lemma {:induction false} KeepAllHoldsTheHistory(s: State, events: seq<Event>)
    requires s.keep.None? && IsRun(s, events)
    ensures SharesOf(After(s, events).rows) == SharesOf(s.rows) + Accepted(events)
    decreases |events|
  {
    hide Step, Enabled, SharesOf;
    if events != [] {
      KeepAllStep(s, events[0]);
      KeepAllHoldsTheHistory(Step(s, events[0]), events[1..]);
    }
  }

  lemma KeepAllStep(s: State, event: Event)
    requires s.keep.None? && Enabled(s, event)
    ensures Step(s, event).keep.None?
    ensures SharesOf(Step(s, event).rows) == SharesOf(s.rows) + AcceptedBy(event)
  {
    hide Need, Work, RowsOf, SharesFrom, NewestTime;
    if AcceptedBy(event) != [] {
      RowsInserted(s.rows, event.shares);
      var rows := Recorded(s, event.shares).rows;
      assert rows[0..] == rows;
    }
  }

  /** So on a store that keeps every row, payouts are over the newest work ever accepted. */
  lemma KeepAllIsTheWindowOverTheHistory(
    rows: seq<Row>, cumulativeWork: nat, window: pos, maxShares: pos, events: seq<Event>)
    requires IsRun(Attached(rows, None, cumulativeWork, window, maxShares), events)
    ensures var s := After(Attached(rows, None, cumulativeWork, window, maxShares), events);
      !s.due ==> s.held == Window(SharesOf(rows) + Accepted(events), s.window, s.maxShares)
  {
    var s := Attached(rows, None, cumulativeWork, window, maxShares);
    hide Exact, SharesOf, Window;
    WindowIsExactOnEveryRun(rows, None, cumulativeWork, window, maxShares, events);
    ExactAtTheEnd(s, events);
    StepsKeepSettings(s, events);
    KeepAllHoldsTheHistory(s, events);
    if !After(s, events).due {
      Unfolded(After(s, events));
    }
  }

  lemma {:induction false} ExactAtTheEnd(s: State, events: seq<Event>)
    requires IsRun(s, events) && AlwaysExact(s, events)
    ensures Exact(After(s, events))
    decreases |events|
  {
    hide Exact, Enabled, Step;
    if events != [] {
      ExactAtTheEnd(Step(s, events[0]), events[1..]);
    }
  }

  lemma Unfolded(s: State)
    requires Exact(s) && !s.due
    ensures s.held == Window(SharesOf(s.rows), s.window, s.maxShares)
  {
  }

  lemma SettingsKept(s: State, event: Event)
    requires Enabled(s, event)
    ensures Step(s, event).keep == s.keep && Step(s, event).maxShares == s.maxShares
    ensures !event.SetWindow? ==> Step(s, event).window == s.window
  {
    hide Window, SharesOf, RowsOf, Work, Enabled;
  }

  lemma {:induction false} StepsKeepSettings(s: State, events: seq<Event>)
    requires IsRun(s, events)
    ensures After(s, events).keep == s.keep && After(s, events).maxShares == s.maxShares
    decreases |events|
  {
    hide Enabled, Step;
    if events != [] {
      SettingsKept(s, events[0]);
      StepsKeepSettings(Step(s, events[0]), events[1..]);
    }
  }

  ghost predicate NeverWidens(s: State, events: seq<Event>)
    requires IsRun(s, events)
    decreases |events|
  {
    events == [] || ((events[0].SetWindow? ==> events[0].window <= s.window) && NeverWidens(Step(s, events[0]), events[1..]))
  }

  /** While the window never widens it is the window over every share ever accepted, whatever
      retention removed from the rows: nothing is read back. */
  lemma {:induction false} NarrowingIsTheWindowOverTheHistory(s: State, history: seq<Share>, events: seq<Event>)
    requires IsRun(s, events) && NeverWidens(s, events)
    requires !s.due && s.running.None? && s.held == Window(history, s.window, s.maxShares)
    ensures var after := After(s, events);
      after.held == Window(history + Accepted(events), after.window, after.maxShares)
    decreases |events|
  {
    hide Need, Window, Step, Enabled;
    if events == [] {
      assert history + [] == history;
    } else {
      var now := AcceptedBy(events[0]);
      NarrowingStep(s, history, events[0]);
      NarrowingIsTheWindowOverTheHistory(Step(s, events[0]), history + now, events[1..]);
      assert history + now + Accepted(events[1..]) == history + (now + Accepted(events[1..]));
    }
  }

  lemma NarrowingStep(s: State, history: seq<Share>, event: Event)
    requires Enabled(s, event) && (event.SetWindow? ==> event.window <= s.window)
    requires !s.due && s.running.None? && s.held == Window(history, s.window, s.maxShares)
    ensures var next := Step(s, event);
      && !next.due && next.running.None?
      && next.held == Window(history + AcceptedBy(event), next.window, next.maxShares)
  {
    hide Need, Work, RowsOf, SharesFrom, SharesOf, NewestTime, IsRetention, Window;
    if AcceptedBy(event) == [] {
      assert history + [] == history;
      if event.SetWindow? {
        WindowOfNarrower(history, s.window, Step(s, event).window, s.maxShares);
      }
    } else {
      WindowOfHistory(s.held, history, event.shares, s.window, s.maxShares);
    }
  }

  // ---- What a widening is owed ----

  lemma TrueWindowOfHistory(s: State, history: seq<Share>, event: Event)
    requires Enabled(s, event) && (event.SetWindow? ==> event.window <= s.window)
    requires TrueWindow(s) == Window(history, s.window, s.maxShares) && KeepsTheTrueWindow(s, event)
    ensures TrueWindow(Step(s, event)) == Window(history + AcceptedBy(event), Step(s, event).window, s.maxShares)
  {
    hide Window, SharesOf, Recorded, Enabled, RowsOf, Work;
    SettingsKept(s, event);
    var stored, next := SharesOf(s.rows), Step(s, event);
    if event.SetWindow? {
      assert stored + [] == stored && history + [] == history;
      WindowOfNarrower(stored, s.window, next.window, s.maxShares);
      WindowOfNarrower(history, s.window, next.window, s.maxShares);
    } else {
      WindowOfHistory(TrueWindow(s), stored, AcceptedBy(event), s.window, s.maxShares);
      WindowOfHistory(TrueWindow(s), history, AcceptedBy(event), s.window, s.maxShares);
    }
  }

  lemma {:induction false} TrueWindowOverRuns(s: State, history: seq<Share>, events: seq<Event>)
    requires IsRun(s, events) && NeverWidens(s, events) && AlwaysKeepsTheTrueWindow(s, events)
    requires TrueWindow(s) == Window(history, s.window, s.maxShares)
    ensures TrueWindow(After(s, events)) == Window(history + Accepted(events), After(s, events).window, s.maxShares)
    decreases |events|
  {
    hide Window, Step, Enabled, KeepsTheTrueWindow, TrueWindow;
    if events == [] {
      assert history + [] == history;
      StayedTheSame(s, history);
    } else {
      var now, next := AcceptedBy(events[0]), Step(s, events[0]);
      TrueWindowOfHistory(s, history, events[0]);
      SettingsKept(s, events[0]);
      TrueWindowOverRuns(next, history + now, events[1..]);
      assert history + now + Accepted(events[1..]) == history + (now + Accepted(events[1..]));
    }
  }

  lemma StayedTheSame(s: State, history: seq<Share>)
    requires TrueWindow(s) == Window(history, s.window, s.maxShares)
    ensures TrueWindow(After(s, [])) == Window(history, After(s, []).window, s.maxShares)
  {
    hide Window, SharesOf;
  }

  /** A widening is honoured in full. From a sound store, if the records made before its re-read leave
      enough, then once no re-read is due the window is the one over every share that was stored when the
      window was widened and every share accepted since. */
  lemma WideningIsHonoured(s: State, events: seq<Event>)
    requires Inv(s) && Sound(s.rows, s.keep) && IsRun(s, events) && NeverWidens(s, events)
    requires EnoughAreLeftWhileWaiting(s, events)
    ensures var after := After(s, events);
      !after.due ==> after.held == Window(SharesOf(s.rows) + Accepted(events), after.window, s.maxShares)
  {
    hide Inv, Enabled, Step, Sound, Window, SharesOf, AlwaysKeepsTheTrueWindow, EnoughAreLeftWhileWaiting, AlwaysExact, Exact;
    TrueWindowIsKeptIff(s, events);
    TrueWindowOverRuns(s, SharesOf(s.rows), events);
    SoundRunsLeaveTheWindow(s, events);
    ExactIff(s, events);
    ExactAtTheEnd(s, events);
    if !After(s, events).due {
      Unfolded(After(s, events));
    }
  }

  /** While a re-read runs, every step but its end leaves it running to the window it began on. */
  lemma StillReading(s: State, event: Event)
    requires Enabled(s, event) && s.running.Some? && !event.FinishReread?
    ensures var next := Step(s, event);
      && next.running.Some? && next.running.value.window == s.running.value.window
      && next.running.value.snapshot == s.running.value.snapshot && (s.due ==> next.due)
  {
    hide Window, SharesOf, RowsOf, Work, Enabled;
  }

  lemma {:induction false} ReadsOn(s: State, events: seq<Event>)
    requires IsRun(s, events) && s.running.Some? && forall e <- events :: !e.FinishReread?
    ensures var t := After(s, events); t.running.Some? && t.running.value.window == s.running.value.window
    ensures EnoughAreLeftWhileWaiting(s, events)
    decreases |events|
  {
    hide Step, Enabled, EnoughAreLeft;
    if events != [] {
      StillReading(s, events[0]);
      ReadsOn(Step(s, events[0]), events[1..]);
    }
  }

  lemma {:induction false} InvAfter(s: State, events: seq<Event>)
    requires Inv(s) && Sound(s.rows, s.keep) && IsRun(s, events)
    ensures Inv(After(s, events)) && Sound(After(s, events).rows, After(s, events).keep)
    decreases |events|
  {
    hide Inv, Enabled, Step, Sound, LeavesTheWindow;
    if events != [] {
      SoundStep(s, events[0]);
      StepKeeps(s, events[0]);
      InvAfter(Step(s, events[0]), events[1..]);
    }
  }

  /** A re-read that is due begins when its snapshot is taken, on the window as it then is. */
  lemma RereadBegins(s: State)
    requires s.due && s.running.None?
    ensures var began := Step(s, BeginReread(true));
      began.running.Some? && began.running.value.window == s.window && began.window == s.window && began.rows == s.rows
  {
  }

  /** What a re-read that succeeds leaves: none running, and the rows and the window as they were; the
      window is whole, and no re-read due, just when it did not widen past what was read to. */
  lemma RereadEnds(s: State)
    requires Inv(s) && s.running.Some?
    ensures var ended := Step(s, FinishReread(true));
      && ended.running.None? && ended.rows == s.rows && ended.window == s.window && ended.maxShares == s.maxShares
      && (ended.due <==> s.window > s.running.value.window)
      && (!ended.due ==> ended.held == TrueWindow(s))
  {
    hide Inv, Window, SharesOf, RowsOf;
    FinishRereadKeeps(s);
    FinishedShape(s);
    if !Finished(s).due {
      HeldWhole(Finished(s));
    }
  }

  lemma FinishedShape(s: State)
    requires s.running.Some?
    ensures Finished(s).rows == s.rows && Finished(s).window == s.window && Finished(s).maxShares == s.maxShares
    ensures Finished(s).running.None?
  {
    hide Window, SharesOf, RowsOf;
  }

  /** The run of a re-read. Whatever happens between its beginning and its success, it leaves none due if
      and only if the window ended no wider than it began on. */
  lemma RereadSettlesIff(s: State, events: seq<Event>)
    requires Inv(s) && Sound(s.rows, s.keep) && s.due && s.running.None?
    requires IsRun(Step(s, BeginReread(true)), events) && forall e <- events :: !e.FinishReread?
    ensures var t := After(Step(s, BeginReread(true)), events);
      && Enabled(t, FinishReread(true))
      && (Step(t, FinishReread(true)).due <==> t.window > s.window)
      && (t.window <= s.window ==> Step(t, FinishReread(true)).held == TrueWindow(t))
  {
    hide Inv, Step, Sound, TrueWindow;
    var began := Step(s, BeginReread(true));
    RereadBegins(s);
    SoundStep(s, BeginReread(true));
    StepKeeps(s, BeginReread(true));
    ReadsOn(began, events);
    InvAfter(began, events);
    RereadEnds(After(began, events));
  }

  /** A widening that is re-read at once is honoured in full: the window that re-read installs is the one
      over every share stored when the window was widened and every share accepted since, and none is due. */
  lemma WideningRereadAtOnce(s: State, window: nat, events: seq<Event>)
    requires Inv(s) && Sound(s.rows, s.keep) && s.running.None? && window > s.window
    requires var began := Step(Step(s, SetWindow(window)), BeginReread(true));
      IsRun(began, events) && NeverWidens(began, events) && forall e <- events :: !e.FinishReread?
    ensures var t := After(Step(Step(s, SetWindow(window)), BeginReread(true)), events);
      && Enabled(t, FinishReread(true))
      && var ended := Step(t, FinishReread(true));
         !ended.due && ended.held == Window(SharesOf(s.rows) + Accepted(events), t.window, s.maxShares)
  {
    hide Inv, Step, Sound, Window, SharesOf, AlwaysKeepsTheTrueWindow, EnoughAreLeftWhileWaiting;
    var wide := Step(s, SetWindow(window));
    var began := Step(wide, BeginReread(true));
    Widens(s, window);
    SoundStep(s, SetWindow(window));
    StepKeeps(s, SetWindow(window));
    RereadBegins(wide);
    SoundStep(wide, BeginReread(true));
    StepKeeps(wide, BeginReread(true));
    SettingsKept(wide, BeginReread(true));
    RereadSettlesIff(wide, events);
    ReadsOn(began, events);
    TrueWindowIsKeptIff(began, events);
    TrueWindowOverRuns(began, SharesOf(s.rows), events);
    NarrowsOnly(began, events);
  }

  lemma Widens(s: State, window: nat)
    requires window > s.window
    ensures var wide := Step(s, SetWindow(window));
      wide.due && wide.window == window && wide.rows == s.rows && wide.running == s.running && wide.maxShares == s.maxShares
  {
    hide Window;
  }

  lemma {:induction false} NarrowsOnly(s: State, events: seq<Event>)
    requires IsRun(s, events) && NeverWidens(s, events)
    ensures After(s, events).window <= s.window
    decreases |events|
  {
    hide Enabled, Step;
    if events != [] {
      ResizesTo(s, events[0]);
      NarrowsOnly(Step(s, events[0]), events[1..]);
    }
  }

  lemma ResizesTo(s: State, event: Event)
    requires Enabled(s, event)
    ensures event.SetWindow? && event.window <= s.window ==> Step(s, event).window <= s.window
    ensures !event.SetWindow? ==> Step(s, event).window == s.window
  {
    SettingsKept(s, event);
  }

  function First(): Share { Share(0, "a", 1, 0, "") }
  function Second(): Share { Share(1, "b", 1, 1, "") }
  function Third(): Share { Share(1_000_000, "c", 1, 2, "") }

  /** Two stored shares, a window of one, and retention down to one row. */
  function Narrow(): State { Attached(RowsOf([First(), Second()]), Some(1), 2, 1, 10) }

  function Widened(): State { Narrow().(window := 3, due := true) }

  lemma StoredAs(shares: seq<Share>)
    ensures SharesOf(RowsOf(shares)) == shares
  {
    RowsInserted([], shares);
    assert [] + RowsOf(shares) == RowsOf(shares) && [] + shares == shares;
  }

  lemma FewWindows()
    ensures var a, b, c := First(), Second(), Third();
      && Window([a, b], 1, 10) == [b] && Window([b], 3, 10) == [b] && Window([b, c], 3, 10) == [b, c]
      && Window([a, b, c], 3, 10) == [a, b, c]
  {
    var a, b, c := First(), Second(), Third();
    assert [b][..0] == [] && [a, b][..1] == [a] && [a][..0] == [] && [a, b, c][..2] == [a, b] && [b, c][..1] == [b];
    assert Need([a], 1) == 1 && Need([b], 1) == 1 && Need([b], 2) == 1 && Need([b], 3) == 1;
    assert Need([a, b], 2) == 2 && Need([a, b], 1) == 1 && Need([b, c], 3) == 2 && Need([a, b, c], 3) == 3;
  }

  lemma WidenedIs()
    ensures Narrow().held == [Second()]
    ensures Enabled(Narrow(), SetWindow(3)) && Step(Narrow(), SetWindow(3)) == Widened()
  {
    hide Window, SharesOf, RowsOf;
    StoredAs([First(), Second()]);
    FewWindows();
  }

  lemma OneOfThreeMayGo(rows: seq<Row>)
    requires rows == [Readable(First()), Readable(Second()), Readable(Third())]
    ensures IsRetention(rows, Some(1), 2, Sub(1_000_000, ACCEPTED_HASH_RETENTION_SECS), MAX_ACCEPTED_HASHES, 1)
  {
    assert Surplus(rows, 1, 2) == 1;
  }

  function LosingBatch(): Event { Record([Third()], true, 1) }

  lemma ThirdIsRecorded()
    ensures var after := Recorded(Widened(), [Third()]);
      && after.held == [Second(), Third()] && after.keep == Some(1)
      && after.rows == [Readable(First()), Readable(Second()), Readable(Third())]
  {
    hide Window, SharesOf, RowsOf, Work, First, Second, Third;
    WidenedIs();
    FewWindows();
    ThreeRows(First(), Second(), Third());
    assert [Second()] + [Third()] == [Second(), Third()];
  }

  lemma ThreeRows(a: Share, b: Share, c: Share)
    ensures RowsOf([a, b]) + RowsOf([c]) == [Readable(a), Readable(b), Readable(c)]
  {
    hide RowsOf;
  }

  lemma NewestIs(share: Share)
    ensures NewestTime([share]) == share.acceptedAt
  {
    assert [share][..0] == [];
  }

  lemma WidenedRecords()
    ensures Enabled(Widened(), LosingBatch())
    ensures var next := Step(Widened(), LosingBatch());
      next.held == [Second(), Third()] && next.rows == RowsOf([Second(), Third()])
  {
    hide Window, Need, SharesOf, Work, Recorded, NewestTime, IsRetention, RowsOf;
    ThirdIsRecorded();
    NewestIs(Third());
    var rows := [Readable(First()), Readable(Second()), Readable(Third())];
    OneOfThreeMayGo(rows);
    assert Widened().keep == Some(1);
    assert rows[1..] == RowsOf([Second(), Third()]);
  }

  lemma BatchLosesAShare()
    ensures Enabled(Widened(), LosingBatch())
    ensures LeavesTheWindow(Widened(), LosingBatch()) && !KeepsTheTrueWindow(Widened(), LosingBatch())
  {
    hide Window, SharesOf, RowsOf, Recorded, Step, Enabled;
    WidenedRecords();
    FewWindows();
    StoredAs([First(), Second()]);
    StoredAs([Second(), Third()]);
    SettingsKept(Widened(), LosingBatch());
    assert [First(), Second()] + [Third()] == [First(), Second(), Third()];
  }

  /** Retention waits for a re-read that runs, not for one that is due. A batch recorded between a
      widening and its re-read keeps only what the narrower window needs, and a share of the wider one is
      gone for good, on a store whose every row unpacks. */
  lemma WideningCanLoseShares()
    ensures Sound(Narrow().rows, Narrow().keep)
    ensures var run := [SetWindow(3), LosingBatch()];
      && IsRun(Narrow(), run) && AlwaysLeavesTheWindow(Narrow(), run) && !AlwaysKeepsTheTrueWindow(Narrow(), run)
  {
    hide Window, SharesOf, Narrow, Widened, Recorded, Step, Enabled, LeavesTheWindow, KeepsTheTrueWindow, LosingBatch;
    NarrowIsSound();
    WidenedIs();
    BatchLosesAShare();
    var run := [SetWindow(3), LosingBatch()];
    assert run[1..] == [LosingBatch()] && run[1..][1..] == [];
    WideningLeaves();
  }

  lemma NarrowIsSound()
    ensures Sound(Narrow().rows, Narrow().keep)
  {
  }

  lemma WideningLeaves()
    ensures Enabled(Narrow(), SetWindow(3)) && LeavesTheWindow(Narrow(), SetWindow(3))
  {
  }

  // ---- What an unreadable row does ----

  function OldShare(): Share { Share(0, "a", 1, 0, "") }
  function NewShare(): Share { Share(1_000_000, "b", 1, 1, "") }

  /** A store of one share and one row that does not unpack, asked to keep one row. */
  function UnsoundStart(): State { Attached([Readable(OldShare()), Unreadable], Some(1), 0, 2, 10) }

  lemma NeedOfTwo(a: Share, b: Share)
    requires a.difficulty == b.difficulty == 1
    ensures Window([a], 2, 10) == [a] && Window([a, b], 2, 10) == [a, b]
  {
    assert [a][..0] == [] && [a, b][..1] == [a];
    assert Need([a], 1) == 1 && Need([a], 2) == 1 && Need([a, b], 2) == 2;
  }

  lemma UnsoundStartHoldsTheShare()
    ensures UnsoundStart().held == [OldShare()] && Recorded(UnsoundStart(), [NewShare()]).held == [OldShare(), NewShare()]
  {
    hide Need, Work, Window, RowsOf, SharesOf;
    SharesOfUnsound();
    NeedOfTwo(OldShare(), NewShare());
    assert [OldShare()] + [NewShare()] == [OldShare(), NewShare()];
  }

  lemma SharesOfUnsound()
    ensures SharesOf([Readable(OldShare()), Unreadable]) == [OldShare()]
  {
    var rows := [Readable(OldShare()), Unreadable];
    assert SharesFrom(rows, 2) == [] && SharesFrom(rows, 1) == [];
  }

  /** Why the store must be sound. Retention counts rows while its floor counts shares, so an
      unreadable row among the newest lets it remove a share the window holds: the window then
      holds a share the rows no longer do, and would lose it at the next start. */
  lemma UnreadableRowsBreakTheFloor()
    ensures Enabled(UnsoundStart(), Record([NewShare()], true, 1))
    ensures !LeavesTheWindow(UnsoundStart(), Record([NewShare()], true, 1))
  {
    hide Window, Need, Work;
    UnsoundStartHoldsTheShare();
    var after := Recorded(UnsoundStart(), [NewShare()]);
    assert after.rows == [Readable(OldShare()), Unreadable, Readable(NewShare())];
    assert NewestTime([NewShare()]) == 1_000_000 by {
      assert [NewShare()][..0] == [];
    }
    OneMayGo(after.rows);
    SharesOfTheRest();
    assert after.rows[1..] == [Unreadable, Readable(NewShare())];
  }

  lemma OneMayGo(rows: seq<Row>)
    requires rows == [Readable(OldShare()), Unreadable, Readable(NewShare())]
    ensures IsRetention(rows, Some(1), 2, Sub(1_000_000, ACCEPTED_HASH_RETENTION_SECS), MAX_ACCEPTED_HASHES, 1)
  {
    assert Surplus(rows, 1, 2) == 1;
  }

  lemma SharesOfTheRest()
    ensures |SharesOf([Unreadable, Readable(NewShare())])| == 1
  {
    var rows := [Unreadable, Readable(NewShare())];
    assert SharesFrom(rows, 2) == [] && SharesFrom(rows, 1) == [NewShare()];
  }
}
