/** What a difficulty does over runs, said without the steps: which events move it and how far, over which
    shares its rate is measured, and what the miner has been told. */
module VardiffRuns {
  import opened Basics
  import opened PowersOfTwo
  import opened Arithmetic
  import opened Vardiff

  // ---- One event ----

  /** The measured rate is so many times faster than the target. */
  ghost predicate Faster(p: Params, s: State, times: nat, now: nat) {
    MsPerShare(s, now).Some? && (MsPerShare(s, now).value + 1) * times <= TargetMs(p)
  }

  /** More than twice slower. */
  ghost predicate TooSlow(p: Params, s: State, now: nat) {
    MsPerShare(s, now).Some? && MsPerShare(s, now).value > 2 * TargetMs(p)
  }

  ghost predicate HalvesByRate(p: Params, s: State, now: nat) { !ChangePending(s) && TooSlow(p, s, now) }

  ghost predicate DoublesByRate(p: Params, s: State, now: nat) {
    !ChangePending(s) && !TooSlow(p, s, now) && s.shares >= 16 && Faster(p, s, 2, now)
  }

  /** More than a minute without a share. */
  ghost predicate Idle(s: State, now: nat) {
    !ChangePending(s) && s.shares == 0 && now >= s.snapshotAt + 60_001 * NANOS_PER_MS
  }

  /** The share just counted is one of enough, and the rate is over the target by the delta. */
  ghost predicate RaisesQuickly(p: Params, s: State, now: nat) {
    && !ChangePending(s) && !s.quickdiffActive && s.shares >= p.quickdiffCount
    && Faster(p, s, if p.quickdiffDelta > 0 then p.quickdiffDelta else 1, now)
  }

  lemma FasterThan(p: Params, ms: nat, times: pos)
    ensures ms < TargetMs(p) / times <==> (ms + 1) * times <= TargetMs(p)
  {
    hide TargetMs;
    FloorBounds(TargetMs(p), times);
    if ms < TargetMs(p) / times {
      MulMono(ms + 1, TargetMs(p) / times, times);
    }
    if (ms + 1) * times <= TargetMs(p) {
      FloorIsLargest(TargetMs(p), times, ms + 1);
    }
  }

  lemma IdleFor(s: State, now: nat)
    ensures ElapsedMs(s, now) > MS_PER_MINUTE <==> now >= s.snapshotAt + 60_001 * NANOS_PER_MS
  {
    FloorBounds(Sub(now, s.snapshotAt), NANOS_PER_MS);
  }

  /** A new window begins at `now`; nothing told has changed. */
  ghost predicate Moved(before: State, after: State, current: nat, now: nat) {
    after == State(current, before.lastSent, before.quickdiffActive, before.quickdiffValue, 0, now)
  }

  lemma RateMoves(p: Params, s: State, now: nat)
    requires Sound(p) && PowerOrNone(s.current) && s.current > 0 && !ChangePending(s) && MsPerShare(s, now).Some?
    ensures var after := AdjustedToRate(p, s, MsPerShare(s, now).value, now);
      if HalvesByRate(p, s, now) then Moved(s, after, Max(s.current / 2, p.min), now)
      else if DoublesByRate(p, s, now) then Moved(s, after, if s.current == TOP_POWER then 0 else 2 * s.current, now)
      else after == s
  {
    hide IsPower, TargetMs, MsPerShare;
    ShiftedByOne(s.current);
    FasterThan(p, MsPerShare(s, now).value, 2);
  }

  /** What a notify makes of the difficulty before its floor: it halves it after an idle minute or by the
      rate, doubles it by the rate, and otherwise leaves everything; it never moves one not announced yet. */
  lemma NotifyMoves(p: Params, s: State, now: nat)
    requires Sound(p) && Inv(s)
    ensures var after := AdjustedOnNotify(p, s, now);
      if Idle(s, now) || HalvesByRate(p, s, now) then Moved(s, after, Max(s.current / 2, p.min), now)
      else if DoublesByRate(p, s, now) then Moved(s, after, if s.current == TOP_POWER then 0 else 2 * s.current, now)
      else after == s
  {
    hide IsPower, TargetMs, ElapsedMs, MsPerShare;
    IdleFor(s, now);
    NoneWithoutShares(s, now);
    if !ChangePending(s) && MsPerShare(s, now).Some? {
      RateMoves(p, s, now);
    }
  }

  lemma NoneWithoutShares(s: State, now: nat)
    ensures s.shares == 0 ==> MsPerShare(s, now).None?
  {
  }

  /** The difficulty a quick raise reaches: a power of two, four times the old one or by the measured factor,
      whichever is more, as far as 64 bits and powers of two go. */
  ghost predicate RaisesTo(measured: nat, current: nat, raised: nat) {
    && IsPower(raised) && raised <= Max(measured, 4 * current) && (4 * current < U64 ==> raised >= 4 * current)
    && Min(measured, U64 - 1) < 2 * raised
  }

  /** The old difficulty times the factor the rate runs over the target. */
  function Measured(p: Params, current: nat, ms: pos): nat { TargetMs(p) / ms * current }

  lemma RaisesByTheFactor(p: Params, current: nat, ms: pos)
    requires IsPower(current) && current < U64 && ms <= TargetMs(p)
    ensures RaisesTo(Measured(p, current, ms), current, Raised(p, current, ms))
  {
    hide IsPower, TargetMs, Pow2Floor;
    RaisedIsAPower(p, current, ms);
    RaisesByMeasured(Measured(p, current, ms), current, Raised(p, current, ms));
  }

  lemma RaisesByMeasured(measured: nat, current: nat, raised: nat)
    requires IsPower(raised) && raised <= Max(measured, 4 * current)
    requires raised == Max(Max(Pow2Floor(Min(measured, U64 - 1)), 1), 4 * current % U64)
    ensures RaisesTo(measured, current, raised)
  {
    hide IsPower;
  }

  /** There is one such difficulty. */
  lemma RaisesToOne(measured: nat, current: nat, a: nat, b: nat)
    requires RaisesTo(measured, current, a) && RaisesTo(measured, current, b) && a < U64 && b < U64
    requires IsPower(current) && 4 * current < U64
    ensures a == b
  {
    hide IsPower;
    if a < b {
      PowersAreApart(a, b);
      RaisesNoFurther(measured, current, a, b);
    } else if b < a {
      PowersAreApart(b, a);
      RaisesNoFurther(measured, current, b, a);
    }
  }

  lemma RaisesNoFurther(measured: nat, current: nat, a: nat, b: nat)
    requires RaisesTo(measured, current, a) && RaisesTo(measured, current, b) && b < U64 && 4 * current < U64
    ensures b < 2 * a
  {
    hide IsPower;
  }

  /** What an accepted share makes of the difficulty, once counted: a quick raise, or from enough shares on what the
      rate asks for, and otherwise nothing. */
  lemma ShareMoves(p: Params, s: State, now: nat)
    requires Sound(p) && Inv(s)
    ensures var after := AdjustedOnShare(p, s, now);
      if RaisesQuickly(p, s, now) then
        Moved(s, after, after.current, now) && RaisesTo(Measured(p, s.current, MsPerShare(s, now).value), s.current, after.current)
      else if s.shares >= p.quickdiffCount && HalvesByRate(p, s, now) then
        Moved(s, after, Max(s.current / 2, p.min), now)
      else if s.shares >= p.quickdiffCount && DoublesByRate(p, s, now) then
        Moved(s, after, if s.current == TOP_POWER then 0 else 2 * s.current, now)
      else after == s
    ensures RaisesAtOnce(p, s, now) <==> RaisesQuickly(p, s, now)
  {
    hide IsPower, TargetMs, MsPerShare, ElapsedMs, Raised, RaisesTo, AdjustedToRate, Measured;
    var ms := MsPerShare(s, now);
    if !ChangePending(s) && ms.Some? {
      FasterThan(p, ms.value, Max(p.quickdiffDelta, 1));
      RateMoves(p, s, now);
      if RaisesAtOnce(p, s, now) {
        FasterThanTarget(p, ms.value);
        RaisesByTheFactor(p, s.current, ms.value);
      }
    }
  }

  // ---- Runs ----

  /** The event begins a new window: a restart, or a move of the difficulty. */
  ghost predicate Resets(p: Params, s: State, e: Event) {
    match e
    case Restarted(_) => true
    case Notify(_, quickdiff, now) =>
      !quickdiff && (Idle(s, now) || HalvesByRate(p, s, now) || DoublesByRate(p, s, now))
    case Accepted(now) =>
      var counted := s.(shares := s.shares + 1);
      RaisesQuickly(p, counted, now)
      || (counted.shares >= p.quickdiffCount && (HalvesByRate(p, counted, now) || DoublesByRate(p, counted, now)))
    case Subscribed => false
  }

  ghost function TimeOf(e: Event): nat {
    match e
    case Notify(_, _, now) => now
    case Accepted(now) => now
    case Restarted(now) => now
    case Subscribed => 0
  }

  ghost predicate SoundRun(p: Params, events: seq<Event>) {
    Sound(p) && forall i :: 0 <= i < |events| ==> SoundEvent(events[i])
  }

  function AcceptedIn(events: seq<Event>, k: nat, n: nat): nat
    requires k <= n <= |events|
  {
    if k == n then 0 else AcceptedIn(events, k, n - 1) + if events[n - 1].Accepted? then 1 else 0
  }

  lemma StepCounts(p: Params, s: State, e: Event)
    requires Sound(p) && SoundEvent(e) && Inv(s)
    ensures var after := Step(p, s, e);
      && (Resets(p, s, e) ==> after.shares == 0 && after.snapshotAt == TimeOf(e))
      && (!Resets(p, s, e) ==> after.shares == s.shares + (if e.Accepted? then 1 else 0) && after.snapshotAt == s.snapshotAt)
      && after.quickdiffActive == (if e.Notify? then e.quickdiff else s.quickdiffActive)
  {
    hide AdjustedOnNotify, AdjustedOnShare, RaisesTo, Measured, HalvesByRate, DoublesByRate, Idle, RaisesQuickly, PowerOrNone;
    match e
    case Notify(floor, quickdiff, now) => NotifyMoves(p, s, now);
    case Accepted(now) =>
      assert Inv(s.(shares := s.shares + 1));
      ShareMoves(p, s.(shares := s.shares + 1), now);
    case Subscribed =>
    case Restarted(_) =>
  }

  /** The rate is measured over the shares accepted since the difficulty last moved or the count last
      restarted, from that time on, and over no others. */
  lemma {:induction false} RateIsOfTheSharesSince(p: Params, start: nat, events: seq<Event>, n: nat)
    requires SoundRun(p, events) && n <= |events|
    ensures exists k :: 0 <= k <= n && WindowFrom(p, start, events, k, n)
  {
    hide Step, Resets, Inv, WindowFrom;
    if n == 0 {
      FirstWindow(p, start, events);
    } else {
      RateIsOfTheSharesSince(p, start, events, n - 1);
      AnnouncesPowers(p, start, events, n - 1);
      StepCounts(p, After(p, start, events, n - 1), events[n - 1]);
      var k :| 0 <= k <= n - 1 && WindowFrom(p, start, events, k, n - 1);
      OneMoreInWindow(p, start, events, k, n);
    }
  }

  /** The window from event `k` on, as the difficulty holds it after `n` events. */
  ghost predicate WindowFrom(p: Params, start: nat, events: seq<Event>, k: nat, n: nat)
    requires k <= n <= |events|
  {
    var s := After(p, start, events, n);
    && s.shares == AcceptedIn(events, k, n)
    && (if k == 0 then s.snapshotAt == start
        else Resets(p, After(p, start, events, k - 1), events[k - 1]) && s.snapshotAt == TimeOf(events[k - 1]))
    && forall i :: k <= i < n ==> !Resets(p, After(p, start, events, i), events[i])
  }

  lemma FirstWindow(p: Params, start: nat, events: seq<Event>)
    ensures WindowFrom(p, start, events, 0, 0)
  {
  }

  lemma OneMoreInWindow(p: Params, start: nat, events: seq<Event>, k: nat, n: nat)
    requires k < n <= |events| && WindowFrom(p, start, events, k, n - 1)
    requires var s, after, e := After(p, start, events, n - 1), After(p, start, events, n), events[n - 1];
      && (Resets(p, s, e) ==> after.shares == 0 && after.snapshotAt == TimeOf(e))
      && (!Resets(p, s, e) ==> after.shares == s.shares + (if e.Accepted? then 1 else 0) && after.snapshotAt == s.snapshotAt)
    ensures WindowFrom(p, start, events, n, n) || WindowFrom(p, start, events, k, n)
  {
    hide After, Resets;
  }

  /** What the miner was told last; 0 before anything. */
  function Told(p: Params, start: nat, events: seq<Event>, n: nat): nat
    requires n <= |events|
  {
    if n == 0 then 0
    else
      var announced := Announced(p, After(p, start, events, n - 1), events[n - 1]);
      if announced.Some? then announced.value else Told(p, start, events, n - 1)
  }

  /** Whether the last notify was a quickdiff, and what the last one that was served. */
  function LastWasQuick(events: seq<Event>, n: nat): bool
    requires n <= |events|
  {
    n > 0 && if events[n - 1].Notify? then events[n - 1].quickdiff else LastWasQuick(events, n - 1)
  }

  function QuickTold(p: Params, start: nat, events: seq<Event>, n: nat): nat
    requires n <= |events|
  {
    if n == 0 then 0
    else if events[n - 1].Notify? && events[n - 1].quickdiff then Told(p, start, events, n)
    else QuickTold(p, start, events, n - 1)
  }

  /** On every run the difficulty last sent is the one last announced. Work goes out at it: after a notify or a
      subscription no change is pending, and what the last quickdiff notify served is kept as that. */
  lemma {:induction false} TheMinerKnows(p: Params, start: nat, events: seq<Event>, n: nat)
    requires SoundRun(p, events) && n <= |events|
    ensures var s := After(p, start, events, n);
      && s.lastSent == Told(p, start, events, n)
      && (n > 0 && (events[n - 1].Notify? || events[n - 1].Subscribed?) ==> s.current == s.lastSent > 0)
      && s.quickdiffActive == LastWasQuick(events, n) && s.quickdiffValue == QuickTold(p, start, events, n)
  {
    hide Step, Announced, Inv, SoundEvent;
    if n > 0 {
      TheMinerKnows(p, start, events, n - 1);
      AnnouncesPowers(p, start, events, n - 1);
      StepTells(p, After(p, start, events, n - 1), events[n - 1]);
    }
  }

  lemma StepTells(p: Params, s: State, e: Event)
    requires Sound(p) && SoundEvent(e) && Inv(s)
    ensures var after, announced := Step(p, s, e), Announced(p, s, e);
      && after.lastSent == (if announced.Some? then announced.value else s.lastSent)
      && (e.Notify? || e.Subscribed? ==> after.current == after.lastSent > 0)
      && after.quickdiffActive == (if e.Notify? then e.quickdiff else s.quickdiffActive)
      && after.quickdiffValue == (if e.Notify? && e.quickdiff then after.lastSent else s.quickdiffValue)
  {
    hide AdjustedOnNotify, AdjustedOnShare, IsPower;
    PositivePower(p.min);
    match e
    case Notify(floor, quickdiff, now) =>
      NotifyKeepsPowers(p, s, floor, quickdiff, now);
      NotifyMoves(p, s, now);
    case Accepted(now) =>
      ShareKeepsPowers(p, s.(shares := s.shares + 1), now);
      ShareMoves(p, s.(shares := s.shares + 1), now);
    case Subscribed =>
    case Restarted(_) =>
  }

  /** A notify serves the difficulty the rate leaves, or the floor when that is more, and the minimum when there
      is none; it tells the miner exactly when that is not what it told last, or there was none. */
  lemma NotifyServes(p: Params, s: State, floor: nat, quickdiff: bool, now: nat)
    requires Sound(p) && Inv(s)
    ensures var e := Notify(floor, quickdiff, now);
      var rate := if quickdiff then s.current else AdjustedOnNotify(p, s, now).current;
      var ready := if floor > rate then floor else rate;
      && Step(p, s, e).lastSent == (if ready == 0 then p.min else ready)
      && Announced(p, s, e) == (if ready == s.lastSent then None else Some(if ready == 0 then p.min else ready))
  {
    hide IsPower, TargetMs, MsPerShare, ElapsedMs;
    NotifyKeepsSent(p, s, now);
    NotifyMoves(p, s, now);
    PositivePower(p.min);
  }

  lemma NotifyKeepsSent(p: Params, s: State, now: nat)
    requires Sound(p) && Inv(s)
    ensures AdjustedOnNotify(p, s, now).lastSent == s.lastSent
  {
    hide TargetMs, MsPerShare, ElapsedMs, IsPower;
  }
}
