/** No share is credited twice: over every run of shares sent and resent, claims recorded or
    released, rows retained away and pools restarted, while the clock steps back only so far. A
    claim and its row need not carry one time: a share held for its parent is claimed when it is
    released and recorded under its arrival. */
module CreditOnce {
  import opened Basics
  import opened AcceptedHashes
  import LedgerStore

  /** The pool as crediting sees it. `credited` is every row ever recorded to the ledger, and
      `high` the latest the clock has read. */
  datatype Pool = Pool(hashes: Hashes, inFlight: set<Claim>, rows: seq<Claim>, credited: seq<Claim>, high: nat)

  /** A claim is recorded as `arrivedAt`, the time its share came in. `Referenced` claims the hash of
      a share that is refused but answered by name, under its arrival too. */
  datatype Event =
    | Send(hash: ShareHash, now: nat)
    | Referenced(hash: ShareHash, arrivedAt: nat)
    | Recorded(claim: Claim, arrivedAt: nat)
    | Released(claim: Claim)
    | Retained(removed: nat, newest: nat)
    | Restarted(now: nat)

  /** How far the clock steps back, how far the times of recorded rows do, and how long after its
      arrival a share is claimed. */
  datatype Margins = Margins(clockStep: nat, rowStep: nat, hold: nat) {
    function Total(): nat { clockStep + rowStep + hold }

    predicate Within(m: Margins) { clockStep <= m.clockStep && rowStep <= m.rowStep && hold <= m.hold }
  }

  function Start(): Pool { Pool(Empty(MAX_ACCEPTED_HASHES), {}, [], [], 0) }

  /** Whether every hash that still matters is within the newest rows read back at startup. */
  ghost predicate CapacityCovers(rows: seq<Claim>, now: nat) {
    forall i :: 0 <= i < |rows| - MAX_ACCEPTED_HASHES ==> Expired(rows[i], now)
  }

  /** A run's assumptions: the clock steps back at most by its margin, a claim is no later after its
      arrival than the hold, and at a restart the rows are in order but for theirs; retention removes
      only rows the startup read no longer needs; and the capacity forgets no hash early. */
  ghost predicate Enabled(p: Pool, event: Event, m: Margins) {
    match event
    case Send(hash, now) =>
      p.high <= now + m.clockStep && (TimeAccepted(hash, now) ==> !Hold(p.hashes, Claim(now, hash), now).2)
    case Referenced(hash, at) =>
      hash.headerTime <= at + NTIME_WINDOW_SECS && !Hold(p.hashes, Claim(at, hash), at).2
    case Recorded(claim, arrivedAt) => claim in p.inFlight && claim.at <= arrivedAt + m.hold
    case Released(claim) => claim in p.inFlight
    case Retained(removed, newest) =>
      && removed <= |p.rows| && newest <= p.high && CapacityCovers(p.rows, p.high)
      && forall i :: 0 <= i < removed && i >= |p.rows| - MAX_ACCEPTED_HASHES ==> p.rows[i].at < Cutoff(newest)
    case Restarted(now) =>
      p.high <= now + m.clockStep && CapacityCovers(p.rows, now) && RowsInOrder(p.rows, m.rowStep)
  }

  /** No row came in more than `rowStep` before a row recorded earlier. */
  ghost predicate RowsInOrder(rows: seq<Claim>, rowStep: nat) {
    forall i, j :: 0 <= i < j < |rows| ==> rows[i].at <= rows[j].at + rowStep
  }

  function High(p: Pool, now: nat): nat { Max(now, p.high) }

  /** A share is claimed when its time is accepted and its hash is not held. */
  function Sent(p: Pool, hash: ShareHash, now: nat): Pool {
    var (hashes, accepted, _) := Hold(p.hashes, Claim(now, hash), now);
    if !TimeAccepted(hash, now) then p.(high := High(p, now))
    else if !accepted then p.(hashes := hashes, high := High(p, now))
    else p.(hashes := hashes, inFlight := p.inFlight + {Claim(now, hash)}, high := High(p, now))
  }

  function Next(p: Pool, event: Event): Pool {
    match event
    case Send(hash, now) => Sent(p, hash, now)
    case Referenced(hash, at) => p.(hashes := Hold(p.hashes, Claim(at, hash), at).0, high := High(p, at))
    case Recorded(claim, arrivedAt) =>
      var row := Claim(arrivedAt, claim.hash);
      p.(inFlight := p.inFlight - {claim}, rows := p.rows + [row], credited := p.credited + [row])
    case Released(claim) => p.(inFlight := p.inFlight - {claim}, hashes := Remove(p.hashes, claim.hash))
    case Retained(removed, _) => p.(rows := if removed <= |p.rows| then p.rows[removed..] else [])
    case Restarted(now) =>
      p.(hashes := Restore(MAX_ACCEPTED_HASHES, Since(p.rows, Cutoff(now), MAX_ACCEPTED_HASHES), now),
         inFlight := {}, high := High(p, now))
  }

  // ---- The store's retention ----

  predicate IsRowOf(row: LedgerStore.Row, c: Claim) {
    row.Readable? && row.share.acceptedAt == c.at && row.share.blockHash == c.hash.id
  }

  /** The rows as the ledger stores them: each unpacks to a share of its hash and time. */
  ghost predicate StandFor(stored: seq<LedgerStore.Row>, rows: seq<Claim>) {
    && |stored| == |rows|
    && (forall i :: 0 <= i < |rows| ==> IsRowOf(stored[i], rows[i]))
  }

  /** The retention a run allows is the store's own: what `LedgerStore.IsRetention` removes, with the
      cutoff of the newest of the batch, the startup read does not need. */
  lemma RetentionIsAllowed(
    p: Pool, stored: seq<LedgerStore.Row>, keep: Option<nat>, floor: nat, newest: nat, removed: nat, m: Margins)
    requires StandFor(stored, p.rows) && newest <= p.high && CapacityCovers(p.rows, p.high)
    requires LedgerStore.IsRetention(stored, keep, floor, Cutoff(newest), MAX_ACCEPTED_HASHES, removed)
    ensures Enabled(p, Retained(removed, newest), m)
    ensures StandFor(stored[removed..], Next(p, Retained(removed, newest)).rows)
  {
    hide CapacityCovers, Expired;
    forall i | 0 <= i < removed && i >= |p.rows| - MAX_ACCEPTED_HASHES
      ensures p.rows[i].at < Cutoff(newest)
    {
      assert IsRowOf(stored[i], p.rows[i]);
      assert !LedgerStore.ReadBackAtStartup(stored, i, Cutoff(newest), MAX_ACCEPTED_HASHES);
    }
  }

  // ---- What every step keeps ----

  /** A claim still counts: credited, or on its way to the ledger. */
  predicate Counts(p: Pool, c: Claim) { c in p.inFlight || c in p.credited }

  /** The header time is at most the window and `slack` past the time. */
  predicate Timely(at: nat, hash: ShareHash, slack: nat) { hash.headerTime <= at + NTIME_WINDOW_SECS + slack }

  /** The hash was forgotten, or its row passed over, at most `slack` too early. */
  predicate Closed(p: Pool, hash: ShareHash, slack: nat) {
    hash.headerTime + NTIME_WINDOW_SECS + CLOCK_STEP_MARGIN_SECS < p.high + slack
  }

  /** What keeps a hash from counting twice while the pool runs: a hash that counts is held, under a
      time that outlasts its header time, or is past resending. */
  ghost predicate Live(p: Pool, slack: nat) {
    && Valid(p.hashes) && p.hashes.capacity == MAX_ACCEPTED_HASHES
    && (forall x <- p.hashes.acceptedAt :: Timely(p.hashes.acceptedAt[x], x, slack))
    && (forall c: Claim :: Counts(p, c) ==> c.hash in p.hashes.acceptedAt || Closed(p, c.hash, slack))
    && (forall c <- p.inFlight :: Timely(c.at, c.hash, 0))
    && (forall c <- p.inFlight, d <- p.inFlight :: c.hash == d.hash ==> c == d)
    && (forall c <- p.inFlight, d <- p.credited :: c.hash != d.hash)
    && DistinctHashes(p.credited)
  }

  /** What a restart needs: the rows are the newest credited, a row retention removed is past
      resending, and a row's time is short of its claim's by the hold at most. */
  ghost predicate Stored(p: Pool, m: Margins) {
    && DistinctHashes(p.rows)
    && (forall c <- p.rows :: c in p.credited && Timely(c.at, c.hash, m.hold))
    && (forall c <- p.credited :: c in p.rows || Closed(p, c.hash, m.hold))
  }

  predicate HeldOrClosed(p: Pool, hash: ShareHash, slack: nat) {
    hash in p.hashes.acceptedAt || Closed(p, hash, slack)
  }

  /** The margin of the retention: a hash held, or past resending, refuses every later resend. */
  lemma HeldIsRefused(p: Pool, hash: ShareHash, now: nat, clockStep: nat, slack: nat)
    requires Live(p, slack) && HeldOrClosed(p, hash, slack) && clockStep + slack <= CLOCK_STEP_MARGIN_SECS
    requires p.high <= now + clockStep && TimeAccepted(hash, now)
    ensures hash in p.hashes.acceptedAt && !Expired(Claim(p.hashes.acceptedAt[hash], hash), now)
  {
  }

  /** A hash that counts is such a one. */
  lemma ResendIsRefused(p: Pool, c: Claim, now: nat, clockStep: nat, slack: nat)
    requires Live(p, slack) && Counts(p, c) && clockStep + slack <= CLOCK_STEP_MARGIN_SECS
    requires p.high <= now + clockStep && TimeAccepted(c.hash, now)
    ensures c.hash in p.hashes.acceptedAt && !Expired(Claim(p.hashes.acceptedAt[c.hash], c.hash), now)
  {
    HeldIsRefused(p, c.hash, now, clockStep, slack);
  }

  /** Holding a hash that is timely keeps the others held or past resending. */
  lemma HoldKeepsLive(p: Pool, claim: Claim, slack: nat)
    requires Live(p, slack) && Timely(claim.at, claim.hash, 0) && !Hold(p.hashes, claim, claim.at).2
    ensures Live(p.(hashes := Hold(p.hashes, claim, claim.at).0, high := High(p, claim.at)), slack)
  {
    hide Hold;
    HoldKeeps(p.hashes, claim, claim.at);
    var h := Hold(p.hashes, claim, claim.at).0;
    var after := p.(hashes := h, high := High(p, claim.at));
    forall x | x in h.acceptedAt ensures Timely(h.acceptedAt[x], x, slack) {
      assert Holds(h, Claim(h.acceptedAt[x], x));
    }
    forall c: Claim | Counts(after, c) ensures c.hash in h.acceptedAt || Closed(after, c.hash, slack) {
      assert Counts(p, c);
      if c.hash in p.hashes.acceptedAt {
        assert Holds(p.hashes, Claim(p.hashes.acceptedAt[c.hash], c.hash));
      }
    }
  }

  lemma SendKeeps(p: Pool, hash: ShareHash, now: nat, m: Margins, slack: nat)
    requires Live(p, slack) && m.clockStep + slack <= CLOCK_STEP_MARGIN_SECS
    requires Enabled(p, Send(hash, now), m)
    ensures Live(Next(p, Send(hash, now)), slack)
  {
    hide Hold;
    var claim := Claim(now, hash);
    if TimeAccepted(hash, now) {
      HoldKeepsLive(p, claim, slack);
      HoldKeeps(p.hashes, claim, now);
      if Hold(p.hashes, claim, now).1 {
        forall c: Claim | Counts(p, c) ensures c.hash != hash {
          if c.hash == hash {
            ResendIsRefused(p, c, now, m.clockStep, slack);
            assert false;
          }
        }
      }
    }
  }

  lemma RecordedKeeps(p: Pool, claim: Claim, arrivedAt: nat, slack: nat)
    requires Live(p, slack) && claim in p.inFlight
    ensures Live(Next(p, Recorded(claim, arrivedAt)), slack)
  {
    hide Valid, Timely;
    var after := Next(p, Recorded(claim, arrivedAt));
    forall c: Claim | Counts(after, c) ensures c.hash in p.hashes.acceptedAt || Closed(after, c.hash, slack) {
      assert Counts(p, claim);
      assert c.hash == claim.hash || Counts(p, c);
    }
  }

  lemma ReleasedKeeps(p: Pool, claim: Claim, slack: nat)
    requires Live(p, slack) && claim in p.inFlight
    ensures Live(Next(p, Released(claim)), slack)
  {
    var after := Next(p, Released(claim));
    forall c: Claim | Counts(after, c) ensures Counts(p, c) && c.hash != claim.hash {
    }
  }

  lemma RetainedKeeps(p: Pool, removed: nat, newest: nat, m: Margins)
    requires Stored(p, m) && Enabled(p, Retained(removed, newest), m)
    ensures Stored(Next(p, Retained(removed, newest)), m)
  {
    var after := Next(p, Retained(removed, newest));
    forall c | c in p.rows ensures c in after.rows || Closed(p, c.hash, m.hold) {
      var i :| 0 <= i < |p.rows| && p.rows[i] == c;
      if i >= removed {
        assert after.rows[i - removed] == c;
      } else if i < |p.rows| - MAX_ACCEPTED_HASHES {
        assert Expired(p.rows[i], p.high);
      }
    }
  }

  /** A row the startup read does not reach is one no resend could still carry. */
  lemma UnreadIsPastResending(rows: seq<Claim>, now: nat, rowStep: nat, i: nat)
    requires i < |rows| && CapacityCovers(rows, now) && RowsInOrder(rows, rowStep)
    ensures var since := Since(rows, Cutoff(now), MAX_ACCEPTED_HASHES);
      i >= |rows| - |since| || rows[i].at + ACCEPTED_HASH_RETENTION_SECS < now + rowStep
  {
    hide SinceTo;
    var first := |rows| - |Since(rows, Cutoff(now), MAX_ACCEPTED_HASHES)|;
    if i < first - 1 {
      assert rows[i].at <= rows[first - 1].at + rowStep;
    }
  }

  lemma HeldExactly(h: Hashes, rows: seq<Claim>)
    requires HoldsExactly(h, rows, |rows|) && |rows| <= h.capacity
    ensures Valid(h) && (forall x <- h.acceptedAt :: Claim(h.acceptedAt[x], x) in rows)
  {
    forall x | x in h.acceptedAt ensures Claim(h.acceptedAt[x], x) in h.order && Claim(h.acceptedAt[x], x) in rows {
      var i :| 0 <= i < |rows| && rows[i].hash == x;
      assert h.order[i] == rows[i];
    }
  }

  /** What is held after the startup read is exactly what it reaches. */
  lemma RestoredHoldsWhatIsRead(rows: seq<Claim>, now: nat)
    requires DistinctHashes(rows)
    ensures var since := Since(rows, Cutoff(now), MAX_ACCEPTED_HASHES);
      var h := Restore(MAX_ACCEPTED_HASHES, since, now);
      && Valid(h) && h.capacity == MAX_ACCEPTED_HASHES
      && (forall i :: |rows| - |since| <= i < |rows| ==> Holds(h, rows[i]))
      && (forall x <- h.acceptedAt :: Claim(h.acceptedAt[x], x) in rows)
  {
    hide Hold, SinceTo, RestoreTo, Expired, Valid;
    var since := Since(rows, Cutoff(now), MAX_ACCEPTED_HASHES);
    forall i | 0 <= i < |since| ensures !Expired(since[i], now) {
      NotExpired(since[i], now);
    }
    assert since == rows[|rows| - |since|..];
    RestoreHoldsAll(since, |since|, now, MAX_ACCEPTED_HASHES);
    HeldExactly(Restore(MAX_ACCEPTED_HASHES, since, now), since);
  }

  lemma NotExpired(c: Claim, now: nat)
    requires c.at >= Cutoff(now)
    ensures !Expired(c, now)
  {
  }

  lemma RestartedKeeps(p: Pool, now: nat, m: Margins)
    requires Live(p, m.rowStep + m.hold) && Stored(p, m) && Enabled(p, Restarted(now), m)
    ensures Live(Next(p, Restarted(now)), m.rowStep + m.hold) && Stored(Next(p, Restarted(now)), m)
  {
    hide Hold, SinceTo, RestoreTo, Restore, Since, Valid;
    RestoredHoldsWhatIsRead(p.rows, now);
    var after := Next(p, Restarted(now));
    forall c: Claim | Counts(after, c)
      ensures c.hash in after.hashes.acceptedAt || Closed(after, c.hash, m.rowStep + m.hold)
    {
      if c in p.rows {
        var i :| 0 <= i < |p.rows| && p.rows[i] == c;
        UnreadIsPastResending(p.rows, now, m.rowStep, i);
      }
    }
  }

  lemma RecordedIsStored(p: Pool, claim: Claim, arrivedAt: nat, m: Margins, slack: nat)
    requires Live(p, slack) && Stored(p, m) && Enabled(p, Recorded(claim, arrivedAt), m)
    ensures Stored(Next(p, Recorded(claim, arrivedAt)), m)
  {
    hide Valid;
    var row := Claim(arrivedAt, claim.hash);
    assert Timely(row.at, row.hash, m.hold);
    forall c | c in p.rows + [row] ensures c in p.credited + [row] {
    }
    forall c | c in p.credited + [row] ensures c in p.rows + [row] || Closed(p, c.hash, m.hold) {
    }
  }

  /** Without a restart nothing is asked of the rows or the hold. */
  lemma StepKeepsLive(p: Pool, event: Event, m: Margins, slack: nat)
    requires Live(p, slack) && m.clockStep + slack <= CLOCK_STEP_MARGIN_SECS
    requires Enabled(p, event, m) && !event.Restarted?
    ensures Live(Next(p, event), slack)
  {
    hide Next, Live, Hold;
    match event
    case Send(hash, now) => SendKeeps(p, hash, now, m, slack);
    case Referenced(hash, at) =>
      HoldKeepsLive(p, Claim(at, hash), slack);
      Unfold(p, event);
    case Recorded(claim, arrivedAt) => RecordedKeeps(p, claim, arrivedAt, slack);
    case Released(claim) => ReleasedKeeps(p, claim, slack);
    case Retained(_, _) => RetainedKeepsLive(p, event, slack);
  }

  lemma Unfold(p: Pool, event: Event)
    requires event.Referenced?
    ensures var c := Claim(event.arrivedAt, event.hash);
      Next(p, event) == p.(hashes := Hold(p.hashes, c, c.at).0, high := High(p, c.at))
  {
  }

  lemma RetainedKeepsLive(p: Pool, event: Event, slack: nat)
    requires Live(p, slack) && event.Retained?
    ensures Live(Next(p, event), slack)
  {
    forall c: Claim | Counts(Next(p, event), c) ensures Counts(p, c) {
    }
  }

  lemma StepKeeps(p: Pool, event: Event, m: Margins)
    requires Live(p, m.rowStep + m.hold) && Stored(p, m) && m.Total() <= CLOCK_STEP_MARGIN_SECS
    requires Enabled(p, event, m)
    ensures Live(Next(p, event), m.rowStep + m.hold) && Stored(Next(p, event), m)
  {
    hide Live, Hold;
    if event.Restarted? {
      RestartedKeeps(p, event.now, m);
    } else {
      StepKeepsLive(p, event, m, m.rowStep + m.hold);
      if event.Recorded? {
        RecordedIsStored(p, event.claim, event.arrivedAt, m, m.rowStep + m.hold);
      } else if event.Retained? {
        RetainedKeeps(p, event.removed, event.newest, m);
      }
    }
  }

  // ---- Runs ----

  ghost predicate IsRun(p: Pool, events: seq<Event>, m: Margins)
    decreases |events|
  {
    events == [] || (Enabled(p, events[0], m) && IsRun(Next(p, events[0]), events[1..], m))
  }

  function After(p: Pool, events: seq<Event>): Pool
    decreases |events|
  {
    if events == [] then p else After(Next(p, events[0]), events[1..])
  }

  lemma {:induction false} RunKeeps(p: Pool, events: seq<Event>, m: Margins)
    requires Live(p, m.rowStep + m.hold) && Stored(p, m)
    requires m.Total() <= CLOCK_STEP_MARGIN_SECS && IsRun(p, events, m)
    ensures Live(After(p, events), m.rowStep + m.hold)
    decreases |events|
  {
    hide Live, Stored, Enabled, Next;
    if events != [] {
      StepKeeps(p, events[0], m);
      RunKeeps(Next(p, events[0]), events[1..], m);
    }
  }

  /** The main result. Over every run, restarts included, no two credited shares have the same hash,
      as long as the clock's backward steps, those between recorded rows and the wait between a
      share's arrival and its claim together stay within the ten minutes the retention adds. */
  lemma NoShareIsCreditedTwice(events: seq<Event>, m: Margins)
    requires m.Total() <= CLOCK_STEP_MARGIN_SECS && IsRun(Start(), events, m)
    ensures DistinctHashes(After(Start(), events).credited)
  {
    RunKeeps(Start(), events, m);
  }

  lemma {:induction false} RunWithoutRestartKeeps(p: Pool, events: seq<Event>, m: Margins)
    requires Live(p, 0) && m.clockStep <= CLOCK_STEP_MARGIN_SECS && IsRun(p, events, m)
    requires forall e <- events :: !e.Restarted?
    ensures Live(After(p, events), 0)
    decreases |events|
  {
    hide Live, Enabled, Next;
    if events != [] {
      StepKeepsLive(p, events[0], m, 0);
      RunWithoutRestartKeeps(Next(p, events[0]), events[1..], m);
    }
  }

  /** A pool that does not restart needs nothing of the rows or of how long shares are held: the
      clock alone may take all ten minutes. */
  lemma NoShareIsCreditedTwiceWithoutRestart(events: seq<Event>, m: Margins)
    requires m.clockStep <= CLOCK_STEP_MARGIN_SECS && IsRun(Start(), events, m)
    requires forall e <- events :: !e.Restarted?
    ensures DistinctHashes(After(Start(), events).credited)
  {
    RunWithoutRestartKeeps(Start(), events, m);
  }

  // ---- No share is refused without a claim of it ----

  /** The hashes answered by name since they were last released, or since the pool restarted. */
  function AnsweredNow(answered: set<ShareHash>, event: Event): set<ShareHash> {
    match event
    case Referenced(hash, _) => answered + {hash}
    case Released(claim) => answered - {claim.hash}
    case Restarted(_) => {}
    case _ => answered
  }

  function Answered(answered: set<ShareHash>, events: seq<Event>): set<ShareHash>
    decreases |events|
  {
    if events == [] then answered else Answered(AnsweredNow(answered, events[0]), events[1..])
  }

  ghost predicate Stands(p: Pool, hash: ShareHash) { exists c: Claim :: Counts(p, c) && c.hash == hash }

  /** Whatever is held is held for a claim that counts, or was answered by name. */
  ghost predicate HeldForAReason(p: Pool, answered: set<ShareHash>) {
    forall x <- p.hashes.acceptedAt :: x in answered || Stands(p, x)
  }

  lemma HoldKeepsReasons(p: Pool, event: Event, answered: set<ShareHash>, m: Margins, slack: nat)
    requires Live(p, slack) && Enabled(p, event, m) && (event.Send? || event.Referenced?)
    requires HeldForAReason(p, answered)
    ensures HeldForAReason(Next(p, event), AnsweredNow(answered, event))
  {
    hide Hold, Live;
    var c := if event.Send? then Claim(event.now, event.hash) else Claim(event.arrivedAt, event.hash);
    assert Valid(p.hashes) by { OfLive(p, slack); }
    HoldKeeps(p.hashes, c, c.at);
    var after := Next(p, event);
    forall x | x in after.hashes.acceptedAt ensures x in AnsweredNow(answered, event) || Stands(after, x) {
      assert Holds(after.hashes, Claim(after.hashes.acceptedAt[x], x));
      if x in p.hashes.acceptedAt && x !in answered {
        var d: Claim :| Counts(p, d) && d.hash == x;
        assert Counts(after, d);
      } else if event.Send? && x == c.hash {
        assert Counts(after, c) || x in answered;
      }
    }
  }

  /** A hash answered by name is held, or past resending. */
  ghost predicate AnsweredAreHeld(p: Pool, answered: set<ShareHash>, slack: nat) {
    forall x <- answered :: HeldOrClosed(p, x, slack)
  }

  /** Holding a hash leaves every other held, or past resending. */
  lemma HoldKeepsOther(p: Pool, claim: Claim, slack: nat, x: ShareHash)
    requires Live(p, slack) && !Hold(p.hashes, claim, claim.at).2
    ensures var after := p.(hashes := Hold(p.hashes, claim, claim.at).0, high := High(p, claim.at));
      && (HeldOrClosed(p, x, slack) ==> HeldOrClosed(after, x, slack))
      && HeldOrClosed(after, claim.hash, slack)
  {
    hide Hold;
    HoldKeeps(p.hashes, claim, claim.at);
    if x in p.hashes.acceptedAt {
      assert Holds(p.hashes, Claim(p.hashes.acceptedAt[x], x));
    }
    RefusedIsHeld(p.hashes, claim, claim.at);
  }

  lemma RefusedIsHeld(h: Hashes, c: Claim, now: nat)
    ensures c.hash in Hold(h, c, now).0.acceptedAt
  {
    hide Expire, MakeRoom;
  }

  lemma StepKeepsAnswered(p: Pool, event: Event, answered: set<ShareHash>, m: Margins)
    requires Live(p, m.rowStep + m.hold) && Enabled(p, event, m)
    requires AnsweredAreHeld(p, answered, m.rowStep + m.hold)
    ensures AnsweredAreHeld(Next(p, event), AnsweredNow(answered, event), m.rowStep + m.hold)
  {
    hide Hold, Live, Restore, Since;
    var slack := m.rowStep + m.hold;
    if (event.Send? && TimeAccepted(event.hash, event.now)) || event.Referenced? {
      var c := if event.Send? then Claim(event.now, event.hash) else Claim(event.arrivedAt, event.hash);
      forall x | x in AnsweredNow(answered, event) ensures HeldOrClosed(Next(p, event), x, slack) {
        HoldKeepsOther(p, c, slack, x);
      }
    }
  }

  lemma OfLive(p: Pool, slack: nat)
    requires Live(p, slack)
    ensures Valid(p.hashes)
  {
  }

  lemma StepKeepsReasons(p: Pool, event: Event, answered: set<ShareHash>, m: Margins)
    requires Live(p, m.rowStep + m.hold) && Stored(p, m) && Enabled(p, event, m)
    requires HeldForAReason(p, answered)
    ensures HeldForAReason(Next(p, event), AnsweredNow(answered, event))
  {
    hide Hold, Live, Restore, Since;
    var after := Next(p, event);
    match event
    case Send(_, _) => HoldKeepsReasons(p, event, answered, m, m.rowStep + m.hold);
    case Referenced(_, _) => HoldKeepsReasons(p, event, answered, m, m.rowStep + m.hold);
    case Restarted(now) =>
      RestoredHoldsWhatIsRead(p.rows, now);
      forall x | x in after.hashes.acceptedAt ensures Stands(after, x) {
        assert Counts(after, Claim(after.hashes.acceptedAt[x], x));
      }
    case Recorded(claim, arrivedAt) =>
      forall x | x in after.hashes.acceptedAt && x !in answered ensures Stands(after, x) {
        var d: Claim :| Counts(p, d) && d.hash == x;
        assert Counts(after, d) || Counts(after, Claim(arrivedAt, x));
      }
    case _ =>
      forall x | x in after.hashes.acceptedAt && x !in AnsweredNow(answered, event) ensures Stands(after, x) {
        var d: Claim :| Counts(p, d) && d.hash == x;
        assert Counts(after, d);
      }
  }

  /** Everything a run keeps. */
  lemma {:induction false} RunKeepsReasons(p: Pool, events: seq<Event>, answered: set<ShareHash>, m: Margins)
    requires Live(p, m.rowStep + m.hold) && Stored(p, m)
    requires HeldForAReason(p, answered) && AnsweredAreHeld(p, answered, m.rowStep + m.hold)
    requires m.Total() <= CLOCK_STEP_MARGIN_SECS && IsRun(p, events, m)
    ensures var after := After(p, events);
      && Live(after, m.rowStep + m.hold) && Stored(after, m) && HeldForAReason(after, Answered(answered, events))
      && AnsweredAreHeld(after, Answered(answered, events), m.rowStep + m.hold)
    decreases |events|
  {
    hide Live, Stored, Enabled, Next, HeldForAReason, AnsweredNow, AnsweredAreHeld;
    if events != [] {
      StepKeeps(p, events[0], m);
      StepKeepsAnswered(p, events[0], answered, m);
      StepKeepsReasons(p, events[0], answered, m);
      RunKeepsReasons(Next(p, events[0]), events[1..], AnsweredNow(answered, events[0]), m);
    }
  }

  lemma ClaimedIffNoneStands(p: Pool, answered: set<ShareHash>, m: Margins, hash: ShareHash, now: nat)
    requires Live(p, m.rowStep + m.hold) && m.Total() <= CLOCK_STEP_MARGIN_SECS
    requires HeldForAReason(p, answered) && AnsweredAreHeld(p, answered, m.rowStep + m.hold)
    requires Enabled(p, Send(hash, now), m) && TimeAccepted(hash, now)
    ensures Next(p, Send(hash, now)).inFlight ==
      if Stands(p, hash) || hash in answered then p.inFlight else p.inFlight + {Claim(now, hash)}
  {
    hide Hold, Live;
    assert Valid(p.hashes) by { OfLive(p, m.rowStep + m.hold); }
    HoldKeeps(p.hashes, Claim(now, hash), now);
    if Stands(p, hash) {
      var c: Claim :| Counts(p, c) && c.hash == hash;
      ResendIsRefused(p, c, now, m.clockStep, m.rowStep + m.hold);
    } else if hash in answered {
      HeldIsRefused(p, hash, now, m.clockStep, m.rowStep + m.hold);
    }
  }

  /** The other half of the main result. On every run within the margins a share whose time is right is claimed
      exactly when no claim of its hash stands, none being on its way to the ledger and none ever credited,
      and it was not answered by name. */
  lemma ShareIsClaimedIffNoneStands(events: seq<Event>, m: Margins, hash: ShareHash, now: nat)
    requires m.Total() <= CLOCK_STEP_MARGIN_SECS && IsRun(Start(), events, m)
    requires Enabled(After(Start(), events), Send(hash, now), m) && TimeAccepted(hash, now)
    ensures var p := After(Start(), events);
      Next(p, Send(hash, now)).inFlight ==
        if Stands(p, hash) || hash in Answered({}, events) then p.inFlight else p.inFlight + {Claim(now, hash)}
  {
    hide Live, Stored, Next, Enabled, HeldForAReason, AnsweredAreHeld, Hold, Answered, After, IsRun;
    StartIsKept(m);
    RunKeepsReasons(Start(), events, {}, m);
    ClaimedIffNoneStands(After(Start(), events), Answered({}, events), m, hash, now);
  }

  lemma StartIsKept(m: Margins)
    ensures Live(Start(), m.rowStep + m.hold) && Stored(Start(), m)
    ensures HeldForAReason(Start(), {}) && AnsweredAreHeld(Start(), {}, m.rowStep + m.hold)
  {
  }

  /** No share of this hash comes in. */
  predicate LeavesAlone(event: Event, hash: ShareHash) {
    match event
    case Send(x, _) => x != hash
    case Referenced(x, _) => x != hash
    case _ => true
  }

  lemma {:induction false} NoneStandsUntilSent(p: Pool, events: seq<Event>, answered: set<ShareHash>, hash: ShareHash, m: Margins)
    requires !Stands(p, hash) && hash !in answered && IsRun(p, events, m)
    requires forall e <- events :: LeavesAlone(e, hash)
    ensures !Stands(After(p, events), hash) && hash !in Answered(answered, events)
    decreases |events|
  {
    hide Hold, Restore, Since;
    if events != [] {
      var event := events[0];
      assert LeavesAlone(event, hash);
      forall c: Claim | Counts(Next(p, event), c) ensures c.hash != hash {
        assert Counts(p, c) || event.Send? || (event.Recorded? && Counts(p, event.claim));
      }
      NoneStandsUntilSent(Next(p, event), events[1..], AnsweredNow(answered, event), hash, m);
    }
  }

  /** A released claim takes its standing with it. */
  lemma ReleasedStandsNoMore(p: Pool, claim: Claim, slack: nat)
    requires Live(p, slack) && claim in p.inFlight
    ensures !Stands(Next(p, Released(claim)), claim.hash)
  {
  }

  lemma {:induction false} RunsJoin(p: Pool, events: seq<Event>, rest: seq<Event>, answered: set<ShareHash>, m: Margins)
    ensures IsRun(p, events + rest, m) <==> IsRun(p, events, m) && IsRun(After(p, events), rest, m)
    ensures After(p, events + rest) == After(After(p, events), rest)
    ensures Answered(answered, events + rest) == Answered(Answered(answered, events), rest)
    decreases |events|
  {
    hide Enabled, Next, AnsweredNow;
    if events == [] {
      assert events + rest == rest;
    } else {
      assert (events + rest)[1..] == events[1..] + rest;
      RunsJoin(Next(p, events[0]), events[1..], rest, AnsweredNow(answered, events[0]), m);
    }
  }

  /** What a release is for: a share whose write failed is claimed when it is next sent in time, whatever
      has happened since to other shares, a restart included. */
  lemma ReleasedIsClaimedAgain(before: seq<Event>, claim: Claim, since: seq<Event>, now: nat, m: Margins)
    requires m.Total() <= CLOCK_STEP_MARGIN_SECS
    requires IsRun(Start(), before + ([Released(claim)] + since), m)
    requires forall e <- since :: LeavesAlone(e, claim.hash)
    requires var p := After(Start(), before + ([Released(claim)] + since));
      Enabled(p, Send(claim.hash, now), m) && TimeAccepted(claim.hash, now)
    ensures var p := After(Start(), before + ([Released(claim)] + since));
      var again := Claim(now, claim.hash);
      again !in p.inFlight && again in Next(p, Send(claim.hash, now)).inFlight
  {
    hide Live, Stored, Next, Enabled, HeldForAReason, AnsweredAreHeld, Hold, AnsweredNow;
    var tail := [Released(claim)] + since;
    RunsJoin(Start(), before, tail, {}, m);
    StartIsKept(m);
    RunKeepsReasons(Start(), before, {}, m);
    var p := After(Start(), before);
    assert tail[0] == Released(claim) && tail[1..] == since;
    assert claim in p.inFlight by { IsInFlight(p, claim, m); }
    ReleasedStandsNoMore(p, claim, m.rowStep + m.hold);
    var released := AnsweredNow(Answered({}, before), Released(claim));
    assert claim.hash !in released by { IsNotAnswered(Answered({}, before), claim); }
    NoneStandsUntilSent(Next(p, Released(claim)), since, released, claim.hash, m);
    var end := After(Start(), before + tail);
    ShareIsClaimedIffNoneStands(before + tail, m, claim.hash, now);
    assert !Counts(end, Claim(now, claim.hash));
  }

  lemma IsInFlight(p: Pool, claim: Claim, m: Margins)
    requires Enabled(p, Released(claim), m)
    ensures claim in p.inFlight
  {
  }

  lemma IsNotAnswered(answered: set<ShareHash>, claim: Claim)
    ensures claim.hash !in AnsweredNow(answered, Released(claim))
  {
  }

  // ---- When the margins are too wide ----

  /** A run within narrower margins is one within wider ones. */
  lemma {:induction false} WiderMarginsAllowMore(p: Pool, events: seq<Event>, m: Margins, wider: Margins)
    requires IsRun(p, events, m) && m.Within(wider)
    ensures IsRun(p, events, wider)
    decreases |events|
  {
    hide Next;
    if events != [] {
      WiderMarginsAllowMore(Next(p, events[0]), events[1..], m, wider);
    }
  }

  /** One second past the bound, parted as `m` allows. */
  function JustTooWide(m: Margins): (n: Margins)
    requires m.Total() > CLOCK_STEP_MARGIN_SECS
    ensures n.Within(m) && n.Total() == CLOCK_STEP_MARGIN_SECS + 1
  {
    var clockStep := Min(m.clockStep, CLOCK_STEP_MARGIN_SECS + 1);
    var rowStep := Min(m.rowStep, CLOCK_STEP_MARGIN_SECS + 1 - clockStep);
    Margins(clockStep, rowStep, CLOCK_STEP_MARGIN_SECS + 1 - clockStep - rowStep)
  }

  const BEGIN := 20_000
  const RESTART := BEGIN + ACCEPTED_HASH_RETENTION_SECS + 1

  /** A share whose row is as late as `m` allows, its claim later by the hold, and its header time as
      far ahead of that as the time check allows. */
  function Early(m: Margins): Claim {
    var at := BEGIN + m.rowStep + m.hold;
    Claim(at, ShareHash(0, at + NTIME_WINDOW_SECS))
  }

  function Late(): Claim { Claim(BEGIN, ShareHash(1, BEGIN)) }

  function Again(m: Margins): Claim
    requires m.clockStep <= RESTART
  {
    Claim(RESTART - m.clockStep, Early(m).hash)
  }

  /** Two shares sent, the later recorded first, a restart, and the later sent again after the clock
      stepped back. */
  function DoubleCredit(m: Margins): seq<Event>
    requires m.clockStep <= RESTART
  {
    [Send(Late().hash, Late().at), Send(Early(m).hash, Early(m).at), Recorded(Early(m), BEGIN + m.rowStep),
     Recorded(Late(), BEGIN), Restarted(RESTART), Send(Again(m).hash, Again(m).at), Recorded(Again(m), Again(m).at)]
  }

  /** The bound is sharp, in each margin. Whatever the margins, once they total more than ten minutes
      the startup read can stop at a row older than its cutoff while a share recorded before it can
      still be resent, and the resend is credited a second time. */
  lemma WiderMarginsCreditTwice(m: Margins)
    requires m.Total() > CLOCK_STEP_MARGIN_SECS
    ensures var events := DoubleCredit(JustTooWide(m));
      IsRun(Start(), events, m) && !DistinctHashes(After(Start(), events).credited)
  {
    hide IsRun;
    var n := JustTooWide(m);
    DoubleCreditRuns(n);
    WiderMarginsAllowMore(Start(), DoubleCredit(n), n, m);
  }

  /** Margins of ten minutes in all are exactly those within which no share is ever credited twice. */
  lemma MarginsSufficeIff(m: Margins)
    ensures (forall events :: IsRun(Start(), events, m) ==> DistinctHashes(After(Start(), events).credited))
       <==> m.Total() <= CLOCK_STEP_MARGIN_SECS
  {
    hide IsRun, DistinctHashes, After;
    if m.Total() <= CLOCK_STEP_MARGIN_SECS {
      forall events | IsRun(Start(), events, m) ensures DistinctHashes(After(Start(), events).credited) {
        NoShareIsCreditedTwice(events, m);
      }
    } else {
      WiderMarginsCreditTwice(m);
    }
  }

  lemma Unrolled(p: Pool, event: Event, rest: seq<Event>, m: Margins)
    requires Enabled(p, event, m)
    ensures IsRun(p, [event] + rest, m) == IsRun(Next(p, event), rest, m)
    ensures After(p, [event] + rest) == After(Next(p, event), rest)
  {
    hide Next, Enabled;
    assert ([event] + rest)[1..] == rest;
  }

  /** A share whose time is right and whose hash is not held is claimed. */
  function Claimed(p: Pool, c: Claim): Pool {
    p.(hashes := Hold(p.hashes, c, c.at).0, inFlight := p.inFlight + {c}, high := High(p, c.at))
  }

  lemma SendingClaims(p: Pool, c: Claim, rest: seq<Event>, m: Margins)
    requires p.high <= c.at + m.clockStep && TimeAccepted(c.hash, c.at)
    requires Hold(p.hashes, c, c.at).1 && !Hold(p.hashes, c, c.at).2
    ensures IsRun(p, [Send(c.hash, c.at)] + rest, m) == IsRun(Claimed(p, c), rest, m)
    ensures After(p, [Send(c.hash, c.at)] + rest) == After(Claimed(p, c), rest)
  {
    hide Hold;
    Unrolled(p, Send(c.hash, c.at), rest, m);
  }

  /** The pool after the two shares of the run are recorded. */
  function BothRecorded(m: Margins): Pool {
    var p := Claimed(Claimed(Start(), Late()), Early(m));
    Next(Next(p, Recorded(Early(m), BEGIN + m.rowStep)), Recorded(Late(), BEGIN))
  }

  lemma BothAreRecorded(m: Margins, rest: seq<Event>)
    ensures var events := [Send(Late().hash, Late().at)] + ([Send(Early(m).hash, Early(m).at)]
        + ([Recorded(Early(m), BEGIN + m.rowStep)] + ([Recorded(Late(), BEGIN)] + rest)));
      IsRun(Start(), events, m) == IsRun(BothRecorded(m), rest, m)
      && After(Start(), events) == After(BothRecorded(m), rest)
  {
    hide IsRun, After;
    var p1 := Claimed(Start(), Late());
    var p2 := Claimed(p1, Early(m));
    var p3 := Next(p2, Recorded(Early(m), BEGIN + m.rowStep));
    Unrolled(p3, Recorded(Late(), BEGIN), rest, m);
    var late := [Recorded(Late(), BEGIN)] + rest;
    Unrolled(p2, Recorded(Early(m), BEGIN + m.rowStep), late, m);
    var both := [Recorded(Early(m), BEGIN + m.rowStep)] + late;
    SendingClaims(p1, Early(m), both, m);
    SendingClaims(Start(), Late(), [Send(Early(m).hash, Early(m).at)] + both, m);
  }

  /** What the restart reads back: nothing, since the newest row is older than its cutoff. */
  lemma NothingIsReadBack(m: Margins)
    requires m.Total() == CLOCK_STEP_MARGIN_SECS + 1
    ensures Enabled(BothRecorded(m), Restarted(RESTART), m)
    ensures Next(BothRecorded(m), Restarted(RESTART))
         == Pool(Empty(MAX_ACCEPTED_HASHES), {}, BothRecorded(m).rows, BothRecorded(m).credited, RESTART)
    ensures BothRecorded(m).credited == [Claim(BEGIN + m.rowStep, Early(m).hash), Late()]
  {
    var p := BothRecorded(m);
    assert p.rows == [Claim(BEGIN + m.rowStep, Early(m).hash), Late()];
    assert Since(p.rows, Cutoff(RESTART), MAX_ACCEPTED_HASHES) == [];
  }

  lemma DoubleCreditRuns(m: Margins)
    requires m.Total() == CLOCK_STEP_MARGIN_SECS + 1
    ensures IsRun(Start(), DoubleCredit(m), m)
    ensures !DistinctHashes(After(Start(), DoubleCredit(m)).credited)
  {
    hide IsRun, After, BothRecorded;
    var again := Again(m);
    var p := BothRecorded(m);
    var last := [Recorded(again, again.at)] + [];
    var sent := [Send(again.hash, again.at)] + last;
    var restarted := [Restarted(RESTART)] + sent;
    BothAreRecorded(m, restarted);
    NothingIsReadBack(m);
    Unrolled(p, Restarted(RESTART), sent, m);
    var q := Next(p, Restarted(RESTART));
    SendingClaims(q, again, last, m);
    Unrolled(Claimed(q, again), Recorded(again, again.at), [], m);
    var end := Next(Claimed(q, again), Recorded(again, again.at));
    EndOfRun(end, m);
    assert DoubleCredit(m) == [Send(Late().hash, Late().at)] + ([Send(Early(m).hash, Early(m).at)]
      + ([Recorded(Early(m), BEGIN + m.rowStep)] + ([Recorded(Late(), BEGIN)] + restarted)));
    assert end.credited == [Claim(BEGIN + m.rowStep, Early(m).hash), Late(), again];
    assert end.credited[0].hash == end.credited[2].hash;
  }

  lemma EndOfRun(p: Pool, m: Margins)
    ensures IsRun(p, [], m) && After(p, []) == p
  {
  }
}
