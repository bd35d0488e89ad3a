/** A connection's difficulty: what its share rate does to it, and what is announced. */
module Vardiff {
  import opened Basics
  import opened PowersOfTwo
  import opened Arithmetic

  const NANOS_PER_MS: nat := 1_000_000
  const MS_PER_MINUTE: nat := 60_000
  const MIN_SAMPLE_MS: nat := 1000
  const RATE_TOLERANCE: nat := 2
  const MIN_SHARES_TO_DOUBLE: nat := 16

  datatype Params = Params(min: nat, targetSharesMin: nat, quickdiffCount: nat, quickdiffDelta: nat)

  /** Instants are counted in nanoseconds. */
  datatype State = State(current: nat, lastSent: nat, quickdiffActive: bool, quickdiffValue: nat,
                         shares: nat, snapshotAt: nat)

  function Fresh(p: Params, now: nat): State { State(p.min, 0, false, 0, 0, now) }

  /** Milliseconds a share should take. */
  function TargetMs(p: Params): nat { MS_PER_MINUTE / Max(p.targetSharesMin, 1) }

  predicate ChangePending(s: State) { s.current != s.lastSent }

  function ElapsedMs(s: State, now: nat): nat { Sub(now, s.snapshotAt) / NANOS_PER_MS }

  function MsPerShare(s: State, now: nat): (ms: Option<nat>)
    ensures ms.Some? ==> ms.value > 0 && s.shares > 0
  {
    if s.shares == 0 || ElapsedMs(s, now) < MIN_SAMPLE_MS then None
    else Some(Max(ElapsedMs(s, now) / s.shares, 1))
  }

  /** The measured time is the elapsed time over the shares in whole milliseconds, at least one, and there is
      one exactly when a share came and a second has passed since the snapshot. */
  lemma MeasuredIsTheWholePart(s: State, now: nat)
    ensures MsPerShare(s, now).None? <==> s.shares == 0 || now < s.snapshotAt + 1000 * NANOS_PER_MS
    ensures MsPerShare(s, now).Some? ==>
      var ms, elapsed := MsPerShare(s, now).value, now - s.snapshotAt;
      && (ms == 1 || ms * s.shares * NANOS_PER_MS <= elapsed)
      && elapsed < (ms + 1) * s.shares * NANOS_PER_MS
  {
    if MsPerShare(s, now).Some? {
      var elapsed := now - s.snapshotAt;
      var whole := elapsed / NANOS_PER_MS;
      FloorBounds(whole, s.shares);
      MeasuredWhole(whole, s.shares, elapsed);
    }
  }

  lemma MeasuredWhole(whole: nat, shares: pos, elapsed: nat)
    requires whole == elapsed / NANOS_PER_MS
    ensures whole / shares * shares * NANOS_PER_MS <= elapsed < (Max(whole / shares, 1) + 1) * shares * NANOS_PER_MS
  {
    FloorBounds(whole, shares);
    FloorBounds(elapsed, NANOS_PER_MS);
    MulMono(whole / shares * shares, whole, NANOS_PER_MS);
    MulMono(whole / shares + 1, Max(whole / shares, 1) + 1, shares);
    MulMono(whole + 1, (Max(whole / shares, 1) + 1) * shares, NANOS_PER_MS);
  }

  /** The target is a minute parted among so many shares. */
  lemma TargetPartsTheMinute(p: Params)
    requires p.targetSharesMin > 0
    ensures TargetMs(p) * p.targetSharesMin <= 60_000 < (TargetMs(p) + 1) * p.targetSharesMin
  {
    FloorBounds(MS_PER_MINUTE, p.targetSharesMin);
  }

  function NewSnapshot(s: State, now: nat): State { s.(shares := 0, snapshotAt := now) }

  function Halved(p: Params, s: State, now: nat): State {
    NewSnapshot(s.(current := Max(s.current / 2, p.min)), now)
  }

  function AdjustedToRate(p: Params, s: State, ms: nat, now: nat): State {
    if ms > TargetMs(p) * RATE_TOLERANCE then Halved(p, s, now)
    else if s.shares >= MIN_SHARES_TO_DOUBLE && ms < TargetMs(p) / RATE_TOLERANCE then
      NewSnapshot(s.(current := 2 * s.current % U64), now)
    else s
  }

  function AdjustedOnNotify(p: Params, s: State, now: nat): State {
    if ChangePending(s) then s
    else if s.shares == 0 then if ElapsedMs(s, now) > MS_PER_MINUTE then Halved(p, s, now) else s
    else
      var ms := MsPerShare(s, now);
      if ms.None? then s else AdjustedToRate(p, s, ms.value, now)
  }

  predicate RaisesAtOnce(p: Params, s: State, now: nat) {
    && !ChangePending(s) && s.shares >= p.quickdiffCount
    && MsPerShare(s, now).Some? && !s.quickdiffActive
    && MsPerShare(s, now).value < TargetMs(p) / Max(p.quickdiffDelta, 1)
  }

  /** The difficulty a quick raise reaches. */
  function Raised(p: Params, current: nat, ms: pos): nat {
    var raw := Min(TargetMs(p) / ms * current, U64 - 1);
    Max(Max(Pow2Floor(raw), 1), 4 * current % U64)
  }

  function AdjustedOnShare(p: Params, s: State, now: nat): State {
    if ChangePending(s) || s.shares < p.quickdiffCount || MsPerShare(s, now).None? then s
    else
      var ms := MsPerShare(s, now).value;
      if RaisesAtOnce(p, s, now) then NewSnapshot(s.(current := Raised(p, s.current, ms)), now)
      else AdjustedToRate(p, s, ms, now)
  }

  function MarkedSent(p: Params, s: State): State {
    var current := if s.current == 0 then p.min else s.current;
    s.(current := current, lastSent := current)
  }

  /** The difficulty a notify is sent at, before it is announced. */
  function ForNotify(p: Params, s: State, floor: nat, quickdiff: bool, now: nat): State {
    var adjusted := if quickdiff then s else AdjustedOnNotify(p, s, now);
    adjusted.(current := Max(adjusted.current, floor))
  }

  // ---- Runs ----

  datatype Event =
    | Notify(floor: nat, quickdiff: bool, now: nat)
    | Accepted(now: nat)
    | Subscribed
    | Restarted(now: nat)

  function Step(p: Params, s: State, e: Event): State {
    match e
    case Notify(floor, quickdiff, now) =>
      var ready := ForNotify(p, s, floor, quickdiff, now);
      var sent := if ChangePending(ready) then MarkedSent(p, ready) else ready;
      sent.(quickdiffActive := quickdiff, quickdiffValue := if quickdiff then sent.lastSent else sent.quickdiffValue)
    case Accepted(now) => AdjustedOnShare(p, s.(shares := s.shares + 1), now)
    case Subscribed => MarkedSent(p, s)
    case Restarted(now) => NewSnapshot(s, now)
  }

  /** What the miner is told: a subscription always announces, a notify only a change. */
  function Announced(p: Params, s: State, e: Event): Option<nat> {
    match e
    case Notify(floor, quickdiff, now) =>
      if ChangePending(ForNotify(p, s, floor, quickdiff, now)) then Some(Step(p, s, e).lastSent) else None
    case Subscribed => Some(Step(p, s, e).lastSent)
    case _ => None
  }

  function After(p: Params, start: nat, events: seq<Event>, n: nat): State
    requires n <= |events|
  {
    if n == 0 then Fresh(p, start) else Step(p, After(p, start, events, n - 1), events[n - 1])
  }

  /** The settings a configuration allows: a power of two for the minimum. */
  predicate Sound(p: Params) { IsPower(p.min) && p.min < U64 }

  /** The floors a pool sets: none, or a power of two. */
  predicate SoundEvent(e: Event) { e.Notify? ==> e.floor == 0 || (IsPower(e.floor) && e.floor < U64) }

  predicate PowerOrNone(v: nat) { v == 0 || (IsPower(v) && v < U64) }

  // ---- Powers of two ----

  lemma RaisedIsAPower(p: Params, current: nat, ms: pos)
    requires IsPower(current) && current < U64 && ms <= TargetMs(p)
    ensures IsPower(Raised(p, current, ms)) && current <= Raised(p, current, ms) < U64
    ensures Raised(p, current, ms) <= Max(TargetMs(p) / ms * current, 4 * current)
  {
    hide IsPower, TargetMs, Pow2Floor;
    var factor := TargetMs(p) / ms;
    FloorIsLargest(TargetMs(p), ms, 1);
    MulMono(1, factor, current);
    PositivePower(current);
    var raw := Min(factor * current, U64 - 1);
    FloorKeepsPowers(current, raw);
    ShiftedByTwo(current);
  }

  lemma PositivePower(v: nat)
    requires IsPower(v)
    ensures v > 0
  {
  }

  lemma FloorKeepsPowers(power: nat, v: nat)
    requires IsPower(power) && power <= v
    ensures IsPower(Pow2Floor(v)) && power <= Pow2Floor(v) <= v
  {
    Pow2FloorIsLargest(v);
    PositivePower(power);
  }

  lemma HalvedIsAPower(p: Params, v: nat)
    requires Sound(p) && PowerOrNone(v)
    ensures IsPower(Max(v / 2, p.min)) && Max(v / 2, p.min) < U64
  {
  }

  /** No adjustment leaves the powers of two, but for the doubling of the largest, which leaves 0. */
  lemma AdjustmentKeepsPowers(p: Params, s: State, ms: pos, now: nat)
    requires Sound(p) && PowerOrNone(s.current)
    ensures PowerOrNone(AdjustedToRate(p, s, ms, now).current)
    ensures s.current < TOP_POWER && p.min <= s.current ==> p.min <= AdjustedToRate(p, s, ms, now).current
  {
    hide IsPower, TargetMs;
    HalvedIsAPower(p, s.current);
    if s.current > 0 {
      ShiftedByOne(s.current);
    }
  }

  lemma ShareKeepsPowers(p: Params, s: State, now: nat)
    requires Sound(p) && PowerOrNone(s.current)
    requires s.current == 0 ==> ChangePending(s)
    ensures PowerOrNone(AdjustedOnShare(p, s, now).current)
    ensures AdjustedOnShare(p, s, now).lastSent == s.lastSent
    ensures ChangePending(s) ==> AdjustedOnShare(p, s, now) == s
    ensures s.current < TOP_POWER && p.min <= s.current ==> p.min <= AdjustedOnShare(p, s, now).current
  {
    hide IsPower, TargetMs, MsPerShare, AdjustedToRate, Raised;
    var ms := MsPerShare(s, now);
    if ms.Some? && !ChangePending(s) {
      if RaisesAtOnce(p, s, now) {
        FasterThanTarget(p, ms.value);
        RaisedIsAPower(p, s.current, ms.value);
      } else {
        AdjustmentKeepsPowers(p, s, ms.value, now);
        RateKeepsSent(p, s, ms.value, now);
      }
    }
  }

  lemma RateKeepsSent(p: Params, s: State, ms: nat, now: nat)
    ensures AdjustedToRate(p, s, ms, now).lastSent == s.lastSent
  {
  }

  lemma FasterThanTarget(p: Params, ms: nat)
    requires ms < TargetMs(p) / Max(p.quickdiffDelta, 1)
    ensures ms <= TargetMs(p)
  {
    hide TargetMs;
    var d := Max(p.quickdiffDelta, 1);
    FloorBounds(TargetMs(p), d);
    MulMono(1, d, TargetMs(p) / d);
  }

  lemma NotifyKeepsPowers(p: Params, s: State, floor: nat, quickdiff: bool, now: nat)
    requires Sound(p) && PowerOrNone(s.current) && PowerOrNone(floor)
    ensures PowerOrNone(ForNotify(p, s, floor, quickdiff, now).current)
    ensures ForNotify(p, s, floor, quickdiff, now).lastSent == s.lastSent
    ensures ChangePending(s) ==> ForNotify(p, s, floor, quickdiff, now).current == Max(s.current, floor)
    ensures s.current < TOP_POWER && p.min <= s.current ==> p.min <= ForNotify(p, s, floor, quickdiff, now).current
  {
    hide IsPower, TargetMs, AdjustedToRate, MsPerShare, ElapsedMs;
    HalvedIsAPower(p, s.current);
    var ms := MsPerShare(s, now);
    if ms.Some? {
      AdjustmentKeepsPowers(p, s, ms.value, now);
      RateKeepsSent(p, s, ms.value, now);
    }
    if !quickdiff && !ChangePending(s) && s.shares == 0 && ElapsedMs(s, now) > MS_PER_MINUTE {
      assert AdjustedOnNotify(p, s, now) == Halved(p, s, now);
    }
  }

  /** What holds between events. */
  predicate Inv(s: State) {
    && PowerOrNone(s.current) && PowerOrNone(s.lastSent)
    && (s.current == 0 ==> ChangePending(s))
  }

  lemma StepKeeps(p: Params, s: State, e: Event)
    requires Sound(p) && SoundEvent(e) && Inv(s)
    ensures Inv(Step(p, s, e))
    ensures Announced(p, s, e).Some? ==> IsPower(Announced(p, s, e).value)
    ensures s.current < TOP_POWER && p.min <= s.current ==>
              p.min <= Step(p, s, e).current && (Announced(p, s, e).Some? ==> p.min <= Announced(p, s, e).value)
  {
    hide IsPower, AdjustedOnShare, ForNotify;
    PositivePower(p.min);
    match e
    case Notify(floor, quickdiff, now) => NotifyKeepsPowers(p, s, floor, quickdiff, now);
    case Accepted(now) => ShareKeepsPowers(p, s.(shares := s.shares + 1), now);
    case Subscribed =>
    case Restarted(_) =>
  }

  /** Every run announces powers of two, whatever the clock and the floors do. */
  lemma {:induction false} AnnouncesPowers(p: Params, start: nat, events: seq<Event>, n: nat)
    requires Sound(p) && n <= |events| && forall i :: 0 <= i < n ==> SoundEvent(events[i])
    ensures Inv(After(p, start, events, n))
    ensures forall i :: 0 <= i < n && Announced(p, After(p, start, events, i), events[i]).Some? ==>
              IsPower(Announced(p, After(p, start, events, i), events[i]).value)
  {
    hide IsPower, Step, Announced;
    PositivePower(p.min);
    if n > 0 {
      AnnouncesPowers(p, start, events, n - 1);
      StepKeeps(p, After(p, start, events, n - 1), events[n - 1]);
    } else {
      assert Inv(Fresh(p, start));
    }
  }

  /** And none below the minimum, on any run that never reaches the largest power 64 bits hold. */
  lemma {:induction false} AnnouncesAtLeastTheMinimum(p: Params, start: nat, events: seq<Event>, n: nat)
    requires Sound(p) && n <= |events| && forall i :: 0 <= i < n ==> SoundEvent(events[i])
    requires forall i :: 0 <= i < n ==> After(p, start, events, i).current < TOP_POWER
    ensures p.min <= After(p, start, events, n).current
    ensures forall i :: 0 <= i < n && Announced(p, After(p, start, events, i), events[i]).Some? ==>
              p.min <= Announced(p, After(p, start, events, i), events[i]).value
  {
    hide IsPower, Step, Announced, Inv, PowerOrNone, Sound, SoundEvent;
    if n > 0 {
      AnnouncesAtLeastTheMinimum(p, start, events, n - 1);
      AnnouncesPowers(p, start, events, n - 1);
      StepKeeps(p, After(p, start, events, n - 1), events[n - 1]);
    }
  }

  // ---- When less than the minimum is announced ----

  /** The rate asks for double the difficulty. */
  predicate Doubles(p: Params, s: State, now: nat) {
    && !ChangePending(s) && s.shares >= MIN_SHARES_TO_DOUBLE
    && MsPerShare(s, now).Some? && MsPerShare(s, now).value < TargetMs(p) / RATE_TOLERANCE
  }

  /** The rate, or a minute without a share, asks for half of it. */
  predicate Halves(p: Params, s: State, now: nat) {
    && !ChangePending(s)
    && if s.shares == 0 then ElapsedMs(s, now) > MS_PER_MINUTE
       else MsPerShare(s, now).Some? && MsPerShare(s, now).value > TargetMs(p) * RATE_TOLERANCE
  }

  predicate DoublesTheLargest(p: Params, s: State, now: nat) { s.current == TOP_POWER && Doubles(p, s, now) }

  /** The notify finds no difficulty, or doubles it out of 64 bits. */
  predicate ShiftsOut(p: Params, s: State, quickdiff: bool, now: nat) {
    s.current == 0 || (!quickdiff && DoublesTheLargest(p, s, now))
  }

  lemma AdjustedIs(p: Params, s: State, now: nat)
    requires Sound(p) && Inv(s)
    ensures AdjustedOnNotify(p, s, now).lastSent == s.lastSent
    ensures AdjustedOnNotify(p, s, now).current ==
              if Halves(p, s, now) then Max(s.current / 2, p.min)
              else if Doubles(p, s, now) then if s.current == TOP_POWER then 0 else 2 * s.current
              else s.current
  {
    hide IsPower, TargetMs, MsPerShare, ElapsedMs;
    if s.current > 0 {
      ShiftedByOne(s.current);
    }
    TwiceIsMore(TargetMs(p));
  }

  lemma TwiceIsMore(target: nat)
    ensures target / RATE_TOLERANCE <= target * RATE_TOLERANCE
  {
  }

  predicate AnnouncesLow(p: Params, s: State, e: Event) {
    Announced(p, s, e).Some? && Announced(p, s, e).value < p.min
  }

  /** A notify that announces anything announces less than the minimum exactly when its floor is below
      it and, when the difficulty is shifted out, not nothing; and, when it is not shifted out, it was
      below the minimum already, and neither half of it nor double brings it back. */
  lemma AnnouncesBelowTheMinimumIff(p: Params, s: State, floor: nat, quickdiff: bool, now: nat)
    requires Sound(p) && Inv(s) && PowerOrNone(floor)
    requires Announced(p, s, Notify(floor, quickdiff, now)).Some?
    ensures AnnouncesLow(p, s, Notify(floor, quickdiff, now)) <==>
              && floor < p.min
              && if ShiftsOut(p, s, quickdiff, now) then floor > 0
                 else && s.current < p.min
                      && (quickdiff || (!Halves(p, s, now) && (Doubles(p, s, now) ==> 2 * s.current < p.min)))
  {
    hide IsPower, TargetMs, Halves, Doubles, AdjustedOnNotify;
    PositivePower(p.min);
    AdjustedIs(p, s, now);
    NotBoth(p, s, now);
  }

  lemma NotBoth(p: Params, s: State, now: nat)
    ensures !(Halves(p, s, now) && Doubles(p, s, now)) && (ChangePending(s) ==> !Halves(p, s, now) && !Doubles(p, s, now))
  {
    hide TargetMs, MsPerShare, ElapsedMs;
    TwiceIsMore(TargetMs(p));
  }

  /** A floor below the minimum that meets no difficulty. */
  predicate FloorsWhatIsShiftedOut(p: Params, s: State, e: Event) {
    e.Notify? && 0 < e.floor < p.min && ShiftsOut(p, s, e.quickdiff, e.now)
  }

  /** What holds while nothing below the minimum was announced. */
  predicate NoneBelow(p: Params, s: State) {
    && (s.current == 0 || p.min <= s.current) && (s.lastSent == 0 || p.min <= s.lastSent)
  }

  lemma NotifyIsLowIff(p: Params, s: State, e: Event)
    requires Sound(p) && SoundEvent(e) && Inv(s) && NoneBelow(p, s) && e.Notify?
    ensures AnnouncesLow(p, s, e) <==> FloorsWhatIsShiftedOut(p, s, e)
    ensures !AnnouncesLow(p, s, e) ==> NoneBelow(p, Step(p, s, e))
  {
    hide IsPower, TargetMs, Halves, Doubles, AdjustedOnNotify;
    PositivePower(p.min);
    AdjustedIs(p, s, e.now);
    NotBoth(p, s, e.now);
  }

  lemma ShareLeavesNoneBelow(p: Params, s: State, now: nat)
    requires Sound(p) && Inv(s) && NoneBelow(p, s)
    ensures NoneBelow(p, Step(p, s, Accepted(now)))
  {
    hide IsPower, TargetMs, MsPerShare, Raised, Pow2Floor;
    var counted := s.(shares := s.shares + 1);
    var ms := MsPerShare(counted, now);
    if ms.Some? && s.current > 0 && !ChangePending(s) {
      ShiftedByOne(s.current);
      if RaisesAtOnce(p, counted, now) {
        FasterThanTarget(p, ms.value);
        RaisedIsAPower(p, s.current, ms.value);
      }
    }
  }

  lemma StepIsLowIff(p: Params, s: State, e: Event)
    requires Sound(p) && SoundEvent(e) && Inv(s) && NoneBelow(p, s)
    ensures AnnouncesLow(p, s, e) <==> FloorsWhatIsShiftedOut(p, s, e)
    ensures !AnnouncesLow(p, s, e) ==> NoneBelow(p, Step(p, s, e))
  {
    hide IsPower, AdjustedOnShare, ForNotify;
    match e
    case Notify(_, _, _) => NotifyIsLowIff(p, s, e);
    case Accepted(now) => ShareLeavesNoneBelow(p, s, now);
    case Subscribed =>
    case Restarted(_) =>
  }

  ghost predicate EverLow(p: Params, start: nat, events: seq<Event>, n: nat)
    requires n <= |events|
  {
    exists i :: 0 <= i < n && AnnouncesLow(p, After(p, start, events, i), events[i])
  }

  ghost predicate EverFloored(p: Params, start: nat, events: seq<Event>, n: nat)
    requires n <= |events|
  {
    exists i :: 0 <= i < n && FloorsWhatIsShiftedOut(p, After(p, start, events, i), events[i])
  }

  lemma OneMoreEvent(p: Params, start: nat, events: seq<Event>, n: nat)
    requires 0 < n <= |events|
    ensures EverLow(p, start, events, n)
       <==> EverLow(p, start, events, n - 1) || AnnouncesLow(p, After(p, start, events, n - 1), events[n - 1])
    ensures EverFloored(p, start, events, n)
       <==> EverFloored(p, start, events, n - 1) || FloorsWhatIsShiftedOut(p, After(p, start, events, n - 1), events[n - 1])
  {
    hide After, AnnouncesLow, FloorsWhatIsShiftedOut;
  }

  lemma InvBefore(p: Params, start: nat, events: seq<Event>, n: nat)
    requires Sound(p) && 0 < n <= |events| && forall i :: 0 <= i < n ==> SoundEvent(events[i])
    ensures Inv(After(p, start, events, n - 1)) && SoundEvent(events[n - 1])
    ensures After(p, start, events, n) == Step(p, After(p, start, events, n - 1), events[n - 1])
  {
    hide Step, Inv, Sound, SoundEvent, Announced, IsPower;
    AnnouncesPowers(p, start, events, n - 1);
  }

  /** A run announces something below the minimum if and only if some notify of it meets a difficulty
      that is shifted out with a floor between nothing and the minimum. */
  lemma {:induction false} EverBelowTheMinimumIff(p: Params, start: nat, events: seq<Event>, n: nat)
    requires Sound(p) && n <= |events| && forall i :: 0 <= i < n ==> SoundEvent(events[i])
    ensures EverLow(p, start, events, n) <==> EverFloored(p, start, events, n)
    ensures !EverLow(p, start, events, n) ==> NoneBelow(p, After(p, start, events, n))
  {
    hide After, Step, AnnouncesLow, FloorsWhatIsShiftedOut, NoneBelow, SoundEvent, Sound, Inv, EverLow, EverFloored;
    if n == 0 {
      NothingYet(p, start, events);
    } else {
      EverBelowTheMinimumIff(p, start, events, n - 1);
      InvBefore(p, start, events, n);
      OneMoreEvent(p, start, events, n);
      if !EverLow(p, start, events, n - 1) {
        StepIsLowIff(p, After(p, start, events, n - 1), events[n - 1]);
      }
    }
  }

  lemma NothingYet(p: Params, start: nat, events: seq<Event>)
    ensures !EverLow(p, start, events, 0) && !EverFloored(p, start, events, 0) && NoneBelow(p, After(p, start, events, 0))
  {
  }

  const BURST_ENDS: nat := 2000 * NANOS_PER_MS

  function Burst(n: nat): (events: seq<Event>)
    ensures |events| == n && forall i :: 0 <= i < n ==> events[i] == Accepted(0)
  {
    if n == 0 then [] else Burst(n - 1) + [Accepted(0)]
  }

  /** A floor of the largest power, announced as a quickdiff, sixteen shares in two seconds, and a floor
      below the minimum. */
  function ShiftingOut(): (events: seq<Event>)
    ensures |events| == 18
  {
    [Notify(TOP_POWER, true, 0)] + Burst(15) + [Accepted(BURST_ENDS), Notify(1, false, BURST_ENDS)]
  }

  const SMALL := Params(2, 8, 8, 8)

  /** The largest power announced, and `shares` taken at once since. */
  function AtTheTop(shares: nat): State { State(TOP_POWER, TOP_POWER, true, TOP_POWER, shares, 0) }

  lemma ReachesTheTop()
    ensures Step(SMALL, Fresh(SMALL, 0), Notify(TOP_POWER, true, 0)) == AtTheTop(0)
  {
  }

  lemma TooSoonToTell(shares: nat)
    ensures Step(SMALL, AtTheTop(shares), Accepted(0)) == AtTheTop(shares + 1)
  {
  }

  lemma TheSixteenthShiftsOut()
    ensures var out := Step(SMALL, AtTheTop(15), Accepted(BURST_ENDS));
            out.current == 0 && Announced(SMALL, out, Notify(1, false, BURST_ENDS)) == Some(1)
  {
    var counted := AtTheTop(16);
    assert ElapsedMs(counted, BURST_ENDS) == 2000;
    assert MsPerShare(counted, BURST_ENDS) == Some(125);
  }

  lemma {:induction false} DuringTheBurst(n: nat)
    requires 1 <= n <= 16
    ensures After(SMALL, 0, ShiftingOut(), n) == AtTheTop(n - 1)
  {
    hide Step, AtTheTop;
    if n == 1 {
      ReachesTheTop();
      assert After(SMALL, 0, ShiftingOut(), 0) == Fresh(SMALL, 0);
    } else {
      DuringTheBurst(n - 1);
      TooSoonToTell(n - 2);
      assert ShiftingOut()[n - 1] == Accepted(0);
    }
  }

  lemma ShiftingOutIsSound()
    ensures Sound(SMALL) && forall e <- ShiftingOut() :: SoundEvent(e)
  {
    TopIsAPower();
  }

  /** Such a run begins at a new connection and ends by announcing less than its minimum. */
  lemma DoublingTheLargestAnnouncesTheFloor()
    ensures Sound(SMALL) && forall e <- ShiftingOut() :: SoundEvent(e)
    ensures var shifted := After(SMALL, 0, ShiftingOut(), 17);
            shifted.current == 0 && Announced(SMALL, shifted, ShiftingOut()[17]) == Some(1)
  {
    hide Step, Announced, AtTheTop, Sound, SoundEvent;
    ShiftingOutIsSound();
    DuringTheBurst(16);
    TheSixteenthShiftsOut();
    assert ShiftingOut()[16] == Accepted(BURST_ENDS) && ShiftingOut()[17] == Notify(1, false, BURST_ENDS);
  }

  // ---- How far one adjustment goes ----

  lemma QuarterOfTheTarget(target: nat, ms: pos, delta: nat)
    requires delta >= 2 && ms < target / delta
    ensures 4 * ms <= 2 * target
  {
    FloorBounds(target, delta);
    MulMono(ms, target / delta, delta);
    MulMono(2, delta, ms);
  }

  lemma ByTheFactor(f: nat, target: nat, ms: nat, c: nat)
    requires f * ms <= target
    ensures ms * (f * c) <= target * c
  {
    MulMono(f * ms, target, c);
    ProductsAlike(f, c, ms);
  }

  lemma ByEither(f: nat, target: nat, ms: nat, c: nat, raised: nat)
    requires f * ms <= target && 4 * ms <= 2 * target && raised <= Max(f * c, 4 * c)
    ensures ms * raised <= 2 * target * c
  {
    if raised <= f * c {
      MulMono(raised, f * c, ms);
      ByTheFactor(f, target, ms, c);
      MulMono(target, 2 * target, c);
    } else {
      MulMono(raised, 4 * c, ms);
      ByTheFactor(4, 2 * target, ms, c);
    }
  }

  lemma ProductsAlike(f: nat, c: nat, m: nat)
    ensures m * (f * c) == f * m * c && m * (4 * c) == 4 * m * c
  {
  }

  lemma RaisingDoesNotOvershoot(p: Params, c: nat, ms: pos)
    requires IsPower(c) && c < U64 && p.quickdiffDelta >= RATE_TOLERANCE
    requires ms < TargetMs(p) / p.quickdiffDelta
    ensures ms * Raised(p, c, ms) <= RATE_TOLERANCE * TargetMs(p) * c
  {
    hide IsPower, TargetMs, Raised;
    QuarterOfTheTarget(TargetMs(p), ms, p.quickdiffDelta);
    FasterThanTarget(p, ms);
    RaisedIsAPower(p, c, ms);
    FloorBounds(TargetMs(p), ms);
    ByEither(TargetMs(p) / ms, TargetMs(p), ms, c, Raised(p, c, ms));
  }

  lemma RateAdjustmentDoesNotOvershoot(p: Params, s: State, ms: pos, now: nat)
    requires Sound(p) && PowerOrNone(s.current)
    ensures var after := AdjustedToRate(p, s, ms, now).current;
            && (after > s.current && p.min <= s.current ==> ms * after <= TargetMs(p) * s.current)
            && (after < s.current && s.current < TOP_POWER ==> ms * after > TargetMs(p) * s.current)
  {
    hide IsPower, TargetMs;
    var target := TargetMs(p);
    var after := AdjustedToRate(p, s, ms, now).current;
    if s.current > 0 {
      ShiftedByOne(s.current);
      if ms > target * RATE_TOLERANCE {
        if after < s.current {
          EvenPower(s.current);
          PositivePower(p.min);
          var half := s.current / 2;
          MulMono(half, after, ms);
          MulStrict(target * RATE_TOLERANCE, ms, half);
          TwiceAlike(target, half);
        }
      } else if ms < target / RATE_TOLERANCE && after > s.current {
        MulMono(2 * ms, target, s.current);
      }
    }
  }

  lemma TwiceAlike(t: nat, half: nat)
    ensures t * RATE_TOLERANCE * half == t * (2 * half)
  {
  }

  lemma EvenPower(v: nat)
    requires IsPower(v)
    ensures v == 1 || v == 2 * (v / 2)
  {
  }

  /** At a measured `ms` per share, difficulty `d` in place of `c` is expected to take `ms * d / c`.
      An accepted share that raises the difficulty leaves that at most twice the target, from where
      nothing lowers it; one that lowers it leaves that above the target, from where nothing
      raises it. */
  lemma SharesDoNotOvershoot(p: Params, s: State, now: nat)
    requires Sound(p) && Inv(s) && p.quickdiffDelta >= RATE_TOLERANCE && MsPerShare(s, now).Some?
    requires p.min <= s.current < TOP_POWER
    ensures var ms, after := MsPerShare(s, now).value, AdjustedOnShare(p, s, now).current;
            && (after > s.current ==> ms * after <= RATE_TOLERANCE * TargetMs(p) * s.current)
            && (after < s.current ==> ms * after > TargetMs(p) * s.current)
  {
    hide IsPower, TargetMs, MsPerShare, Raised, AdjustedToRate;
    var ms := MsPerShare(s, now).value;
    PositivePower(p.min);
    if RaisesAtOnce(p, s, now) {
      RaisingDoesNotOvershoot(p, s.current, ms);
      FasterThanTarget(p, ms);
      RaisedIsAPower(p, s.current, ms);
    } else {
      RateAdjustmentDoesNotOvershoot(p, s, ms, now);
      MulMono(TargetMs(p), RATE_TOLERANCE * TargetMs(p), s.current);
    }
  }

  /** A delta of 1, which a configuration refuses, lets a raise by four overshoot. */
  lemma DeltaOfOneOvershoots()
    ensures var p, c := Params(1, 60, 4, 1), 1;
            999 < TargetMs(p) / p.quickdiffDelta && 999 * Raised(p, c, 999) > RATE_TOLERANCE * TargetMs(p) * c
  {
  }

  // ---- Between announcements ----

  function AfterShares(p: Params, s: State, times: seq<nat>, n: nat): State
    requires n <= |times|
  {
    if n == 0 then s else Step(p, AfterShares(p, s, times, n - 1), Accepted(times[n - 1]))
  }

  /** However many shares come in between two notifies, the difficulty moves at most once: once it
      differs from the one announced, it stays. */
  lemma {:induction false} MovesOnceBetweenNotifies(p: Params, s: State, times: seq<nat>, i: nat, n: nat)
    requires i <= n <= |times| && AfterShares(p, s, times, i).current != s.lastSent
    ensures AfterShares(p, s, times, n).current == AfterShares(p, s, times, i).current
  {
    SharesKeepSent(p, s, times, n);
    if n > i {
      MovesOnceBetweenNotifies(p, s, times, i, n - 1);
      SharesKeepSent(p, s, times, n - 1);
    }
  }

  lemma {:induction false} SharesKeepSent(p: Params, s: State, times: seq<nat>, n: nat)
    requires n <= |times|
    ensures AfterShares(p, s, times, n).lastSent == s.lastSent
  {
    if n > 0 {
      SharesKeepSent(p, s, times, n - 1);
    }
  }
}
