/** Whole runs of a session's slots. Beside the slots runs an observer who sees only what
    leaves the pool, when each key was seeded, retired, sent and published, and when
    connections closed; the theorems are about what the observer saw. */
module AbwRuns {
  import opened Basics
  import opened AbwSlots

  /** What has been seen of the key a slot now holds: which it is, when it was retired, the first close
      between that and its sending, when it was sent, and the first close since it was last sent. */
  datatype Life =
    | Unseeded
    | Life(key: Key, retiredAt: Option<Instant>, firstCloseSince: Option<Instant>, sentAt: seq<Instant>,
           owedSince: Option<Instant>, published: bool)
  {
    predicate AwaitsReveal() { Life? && retiredAt.Some? && sentAt == [] }
  }

  /** `lastTip` and `shares` are those since `seededAt`, when the newest key was seeded. */
  datatype Observed = Observed(
    abw: Abw, lives: seq<Life>, clock: Instant,
    rotations: nat, seededAt: Instant, lastTip: Option<Instant>, shares: nat, quietUntil: Instant)
  {
    function Slot(): nat { rotations % SLOTS }
    function SlotAfter(): nat { (rotations + 1) % SLOTS }
  }

  datatype Event =
    | Rotate(now: Instant, key: Key)
    | SendReveals(now: Instant)
    | Resume(closedAt: Instant)
    | Connect(openedAt: Instant)
    | AcceptShare
    | Tip(now: Instant)
    | BlockRelayed(slot: nat)

  function NewLife(key: Key): Life { Life.Life(key, None, None, [], None, false) }

  function UnseededLives(n: nat): (lives: seq<Life>)
    ensures |lives| == n && forall i :: 0 <= i < n ==> lives[i] == Unseeded
  {
    if n == 0 then [] else UnseededLives(n - 1) + [Unseeded]
  }

  function Start(now: Instant, key: Key): (o: Observed)
    ensures Inv(o)
  {
    Observed(Started(now, key), UnseededLives(SLOTS)[0 := NewLife(key)], now, 0, now, None, 0, now)
  }

  /** The observer notes each key sent. */
  function SeeSent(lives: seq<Life>, sent: seq<PendingReveal>, now: Instant): (seen: seq<Life>)
    ensures |seen| == |lives|
  {
    if sent == [] then lives
    else
      var before, last := SeeSent(lives, sent[..|sent| - 1], now), sent[|sent| - 1];
      if last.slot < |before| && before[last.slot].Life?
      then before[last.slot := SentAgain(before[last.slot], now)]
      else before
  }

  function SentAgain(life: Life, now: Instant): Life
    requires life.Life?
  {
    life.(sentAt := life.sentAt + [now], owedSince := None)
  }

  /** A close matters to a key that is retired: the first before it is sent delays its sending, and the
      first after it was last sent may have lost it. */
  function SeeClose(life: Life, closedAt: Instant): Life {
    if life.Unseeded? || life.retiredAt.None? then life
    else if life.sentAt == [] then
      if life.firstCloseSince.None? then life.(firstCloseSince := Some(closedAt)) else life
    else if life.owedSince.None? then life.(owedSince := Some(closedAt))
    else life
  }

  function SeeCloseAll(lives: seq<Life>, closedAt: Instant): (seen: seq<Life>)
    ensures |seen| == |lives| && forall i :: 0 <= i < |lives| ==> seen[i] == SeeClose(lives[i], closedAt)
  {
    if lives == [] then []
    else SeeCloseAll(lives[..|lives| - 1], closedAt) + [SeeClose(lives[|lives| - 1], closedAt)]
  }

  /** The connection loop's rule: the clock never steps back, and a rotation is made only when
      one is due. */
  ghost predicate Enabled(o: Observed, event: Event)
    requires WellFormed(o.abw)
  {
    match event
    case Rotate(now, _) => o.clock <= now && RotationDue(o.abw, now).Some?
    case SendReveals(now) => o.clock <= now
    case Resume(closedAt) => o.clock <= closedAt
    case Tip(now) => o.clock <= now
    case _ => true
  }

  function RotateSeen(o: Observed, now: Instant, key: Key): Observed
    requires |o.abw.slots| == |o.abw.published| == |o.lives| == SLOTS && o.abw.active < SLOTS
  {
    var (abw, sent) := Rotated(o.abw, now, key);
    var seen := SeeSent(o.lives, sent, now);
    var was := seen[o.Slot()];
    var retired := if was.Life? then seen[o.Slot() := was.(retiredAt := Some(now))] else seen;
    Observed(abw, retired[o.SlotAfter() := NewLife(key)], now, o.rotations + 1, now, None, 0, o.quietUntil)
  }

  function RelaySeen(o: Observed, slot: nat): Observed
    requires |o.abw.slots| == |o.abw.published| == |o.lives| == SLOTS
  {
    var lives := if slot < SLOTS && o.lives[slot].Life? then o.lives[slot := o.lives[slot].(published := true)] else o.lives;
    o.(abw := NotePublished(o.abw, slot).0, lives := lives)
  }

  function Next(o: Observed, event: Event): Observed
    requires |o.abw.slots| == |o.abw.published| == |o.lives| == SLOTS && o.abw.active < SLOTS
  {
    match event
    case Rotate(now, key) => RotateSeen(o, now, key)
    case SendReveals(now) =>
      var (abw, sent) := RevealsDue(o.abw, now);
      o.(abw := abw, lives := SeeSent(o.lives, sent, now), clock := now)
    case Resume(closedAt) =>
      o.(abw := o.abw.(slots := ResumedSlots(o.abw.slots, closedAt)), lives := SeeCloseAll(o.lives, closedAt),
         clock := closedAt)
    case Connect(openedAt) => o.(abw := Connected(o.abw, openedAt), quietUntil := openedAt + REPLAY_GRACE)
    case AcceptShare => o.(abw := NoteShare(o.abw), shares := o.shares + 1)
    case Tip(now) => o.(abw := NoteTip(o.abw, now).0, lastTip := Some(now), clock := now)
    case BlockRelayed(slot) => RelaySeen(o, slot)
  }

  /** The notices a step sends. */
  function SentBy(o: Observed, event: Event): seq<PendingReveal>
    requires |o.abw.slots| == |o.abw.published| == SLOTS && o.abw.active < SLOTS
  {
    match event
    case Rotate(now, key) => Rotated(o.abw, now, key).1
    case SendReveals(now) => RevealsDue(o.abw, now).1
    case _ => []
  }

  // ---- What the slot tells of its key ----

  /** When a retired key is to be sent: the delay after its first close since the retirement, or after
      the retirement while there was none. */
  function RevealTime(life: Life): Instant
    requires life.Life? && life.retiredAt.Some?
  {
    (if life.firstCloseSince.Some? then life.firstCloseSince.value else life.retiredAt.value) + REVEAL_AFTER
  }

  ghost predicate Tells(slot: Slot, published: bool, life: Life, clock: Instant) {
    match slot
    case Empty => life.Unseeded?
    case Seeded(key) =>
      && life.Life? && life.key == key && life.retiredAt.None? && life.firstCloseSince.None?
      && life.sentAt == [] && life.owedSince.None? && life.published == published
    case Retired(key, revealAt, onOpenConnection) =>
      && life.AwaitsReveal() && life.key == key && life.retiredAt.value <= clock
      && life.owedSince.None? && life.published == published
      && (onOpenConnection <==> life.firstCloseSince.None?)
      && (life.firstCloseSince.Some? ==> life.retiredAt.value <= life.firstCloseSince.value)
      && revealAt == RevealTime(life)
    case Revealed(key, resendAt) =>
      && life.Life? && life.key == key && life.retiredAt.Some? && life.sentAt != []
      && resendAt == life.owedSince
      && (life.firstCloseSince.Some? ==> life.retiredAt.value <= life.firstCloseSince.value)
      && life.sentAt[0] >= RevealTime(life)
  }

  /** The newest key is old enough for a tip to replace it. */
  ghost predicate TipAsks(o: Observed) {
    o.lastTip.Some? && o.lastTip.value - o.seededAt >= 75 * SECOND
  }

  ghost predicate CountsTell(o: Observed) {
    && o.abw.active == o.Slot() && o.abw.activatedAt == o.seededAt <= o.clock
    && o.abw.shares == Min(o.shares, U64_MAX) && o.abw.heldUntil == o.quietUntil
    && (o.abw.tipPending <==> TipAsks(o)) && (o.lastTip.Some? ==> o.seededAt <= o.lastTip.value <= o.clock)
  }

  ghost predicate Inv(o: Observed) {
    && WellFormed(o.abw) && |o.lives| == SLOTS && CountsTell(o)
    && (forall i :: 0 <= i < SLOTS ==> Tells(o.abw.slots[i], o.abw.published[i], o.lives[i], o.clock))
  }

  /** What the observer sees of a round of reveals: each slot due is sent once, now. */
  lemma {:induction false} SeeRound(slots: seq<Slot>, lives: seq<Life>, now: Instant, n: nat)
    requires n <= |slots| == |lives|
    requires forall i :: 0 <= i < |slots| && slots[i].Due(now) ==> lives[i].Life?
    ensures var seen := SeeSent(lives, RevealedUpTo(slots, now, n).1, now);
      forall i :: 0 <= i < |lives| ==>
        seen[i] == if i < n && slots[i].Due(now) then SentAgain(lives[i], now) else lives[i]
  {
    if n > 0 {
      SeeRound(slots, lives, now, n - 1);
      if slots[n - 1].Due(now) {
        var (before, earlier) := RevealedUpTo(slots, now, n - 1);
        var (_, sent) := RevealOf(before, n - 1);
        assert |sent| == 1 && (earlier + sent)[..|earlier|] == earlier;
      }
    }
  }

  lemma SendKeeps(o: Observed, now: Instant)
    requires Inv(o) && o.clock <= now
    ensures Inv(Next(o, SendReveals(now)))
  {
    hide EarliestDue, Rotated, RevealedUpTo;
    if !Held(o.abw, now) {
      forall i | 0 <= i < SLOTS && o.abw.slots[i].Due(now) ensures o.lives[i].Life? {
        assert Tells(o.abw.slots[i], o.abw.published[i], o.lives[i], o.clock);
      }
      SeeRound(o.abw.slots, o.lives, now, |o.abw.slots|);
    }
    var after := Next(o, SendReveals(now));
    forall i | 0 <= i < SLOTS
      ensures Tells(after.abw.slots[i], after.abw.published[i], after.lives[i], after.clock)
    {
      assert Tells(o.abw.slots[i], o.abw.published[i], o.lives[i], o.clock);
    }
  }

  /** What the observer sees of a rotation's reveal: at most the next slot's key, once. */
  lemma SeeReveal(lives: seq<Life>, slots: seq<Slot>, i: nat, now: Instant)
    requires i < |slots| == |lives| && (slots[i].Retired? || slots[i].Revealed? ==> lives[i].Life?)
    ensures SeeSent(lives, RevealOf(slots, i).1, now) ==
              if RevealOf(slots, i).1 == [] then lives
              else lives[i := SentAgain(lives[i], now)]
  {
    var sent := RevealOf(slots, i).1;
    assert sent == [] || (|sent| == 1 && sent[..0] == []);
    assert SeeSent(lives, [], now) == lives;
  }

  /** The counts begin again with the new key. */
  lemma RotateKeepsCounts(o: Observed, now: Instant, key: Key)
    requires Inv(o) && Enabled(o, Rotate(now, key))
    ensures WellFormed(Next(o, Rotate(now, key)).abw) && CountsTell(Next(o, Rotate(now, key)))
  {
    hide RevealedUpTo, EarliestDue, SeeSent, Tells, RotationDue, RevealOf;
  }

  lemma RotateKeepsSlot(o: Observed, now: Instant, key: Key, i: nat)
    requires Inv(o) && o.clock <= now && i < SLOTS && !o.abw.slots[NextSlot(o.abw)].Retired?
    ensures var after := Next(o, Rotate(now, key));
      Tells(after.abw.slots[i], after.abw.published[i], after.lives[i], after.clock)
  {
    hide RevealedUpTo, EarliestDue, SeeSent, SeeClose, KeyFor, NotePublished, RotationDue;
    var next := NextSlot(o.abw);
    assert next == o.SlotAfter() && o.abw.active == o.Slot();
    assert Tells(o.abw.slots[next], o.abw.published[next], o.lives[next], o.clock);
    SeeReveal(o.lives, o.abw.slots, next, now);
    assert Tells(o.abw.slots[i], o.abw.published[i], o.lives[i], o.clock);
  }

  lemma RotateKeeps(o: Observed, now: Instant, key: Key)
    requires Inv(o) && Enabled(o, Rotate(now, key))
    ensures Inv(Next(o, Rotate(now, key)))
  {
    RotateKeepsCounts(o, now, key);
    hide RevealedUpTo, EarliestDue, SeeSent, Tells, Rotated, CountsTell;
    var after := Next(o, Rotate(now, key));
    forall i | 0 <= i < SLOTS
      ensures Tells(after.abw.slots[i], after.abw.published[i], after.lives[i], after.clock)
    {
      RotateKeepsSlot(o, now, key, i);
    }
  }

  lemma ResumeKeeps(o: Observed, closedAt: Instant)
    requires Inv(o) && o.clock <= closedAt
    ensures Inv(Next(o, Resume(closedAt)))
  {
    hide SeeSent, RevealedUpTo, EarliestDue, ResumedSlots, SeeCloseAll;
    var after := Next(o, Resume(closedAt));
    forall i | 0 <= i < SLOTS
      ensures Tells(after.abw.slots[i], after.abw.published[i], after.lives[i], after.clock)
    {
      assert Tells(o.abw.slots[i], o.abw.published[i], o.lives[i], o.clock);
    }
  }

  lemma RelayKeeps(o: Observed, slot: nat)
    requires Inv(o)
    ensures Inv(Next(o, BlockRelayed(slot)))
  {
    hide SeeSent, RevealedUpTo, EarliestDue;
  }

  lemma StepKeeps(o: Observed, event: Event)
    requires Inv(o) && Enabled(o, event)
    ensures Inv(Next(o, event))
  {
    hide SeeSent, RevealedUpTo, EarliestDue, Rotated, RevealsDue;
    match event
    case Rotate(now, key) => RotateKeeps(o, now, key);
    case SendReveals(now) => SendKeeps(o, now);
    case Resume(closedAt) => ResumeKeeps(o, closedAt);
    case BlockRelayed(slot) => RelayKeeps(o, slot);
    case _ =>
  }

  // ---- Runs ----

  ghost predicate IsRun(o: Observed, events: seq<Event>)
    requires Inv(o)
    decreases |events|
  {
    events == [] || (Enabled(o, events[0]) && (StepKeeps(o, events[0]); IsRun(Next(o, events[0]), events[1..])))
  }

  ghost function After(o: Observed, events: seq<Event>): (after: Observed)
    requires Inv(o) && IsRun(o, events)
    ensures Inv(after)
    decreases |events|
  {
    if events == [] then o
    else
      StepKeeps(o, events[0]);
      After(Next(o, events[0]), events[1..])
  }

  /** The main result, over every run from a session's start. A slot is seeded just when it is
      the active one, and what the pool checks a slot's shares with is the key seeded there last. No
      key is first sent sooner than the delay past its slot's retirement, and when it is sent is
      fixed by the first close after it, however many resumes follow. A key sent may be lost to a
      close and is then due to be sent again at once. And the pool calls a key secret just while it
      has been neither sent nor published. */
  lemma KeysAreSentLateAndSecretUntilThen(now: Instant, key: Key, events: seq<Event>, slot: nat)
    requires slot < SLOTS && IsRun(Start(now, key), events)
    ensures var o := After(Start(now, key), events);
      var life := o.lives[slot];
      && (o.abw.slots[slot].Seeded? <==> slot == o.abw.active)
      && (life.Life? && life.sentAt != [] ==>
            life.retiredAt.Some? && life.sentAt[0] >= RevealTime(life) >= life.retiredAt.value + REVEAL_AFTER)
      && (life.AwaitsReveal() ==> o.abw.slots[slot].DueAt() == Some(RevealTime(life)))
      && (life.Life? && life.sentAt != [] ==> o.abw.slots[slot].DueAt() == life.owedSince)
      && (KeyFor(o.abw, slot).None? <==> life.Unseeded?)
      && (KeyFor(o.abw, slot).Some? ==> KeyFor(o.abw, slot).value.0 == life.key)
      && (KeyFor(o.abw, slot).Some? ==>
            (KeyFor(o.abw, slot).value.1 == Secret <==> life.sentAt == [] && !life.published))
  {
    var o := After(Start(now, key), events);
    assert Tells(o.abw.slots[slot], o.abw.published[slot], o.lives[slot], o.clock);
  }

  /** In every state of a run the active slot is the one as many rotations on, and so its key is the one
      seeded last; it was never retired nor sent, and no other key held is one never retired. */
  lemma ActiveKeyIsTheNewest(now: Instant, key: Key, events: seq<Event>)
    requires IsRun(Start(now, key), events)
    ensures var o := After(Start(now, key), events);
      && o.abw.active == o.rotations % SLOTS
      && o.lives[o.abw.active].Life? && o.lives[o.abw.active].retiredAt.None? && o.lives[o.abw.active].sentAt == []
      && (forall i :: 0 <= i < SLOTS && i != o.abw.active && o.lives[i].Life? ==> o.lives[i].retiredAt.Some?)
  {
    var o := After(Start(now, key), events);
    forall i | 0 <= i < SLOTS
      ensures o.lives[i].Life? && o.lives[i].retiredAt.None? ==> o.abw.slots[i].Seeded?
      ensures i == o.abw.active ==> o.lives[i].Life? && o.lives[i].retiredAt.None? && o.lives[i].sentAt == []
    {
      assert Tells(o.abw.slots[i], o.abw.published[i], o.lives[i], o.clock);
    }
  }

  /** The observer's account of when a slot's key is to be sent: a retired one the delay after, one a close
      may have lost since the close, and neither while the pool is quiet after a connection opens. */
  ghost predicate KeyOwed(o: Observed, slot: nat, now: Instant)
    requires slot < |o.lives|
  {
    var life := o.lives[slot];
    && o.quietUntil <= now && life.Life? && life.retiredAt.Some?
    && (if life.sentAt == [] then RevealTime(life) <= now else life.owedSince.Some? && life.owedSince.value <= now)
  }

  /** The notice of a slot's own key, marked as sent before just when it was. */
  ghost predicate TellsOwnKey(o: Observed, r: PendingReveal)
    requires |o.lives| == SLOTS
  {
    && r.slot < SLOTS && o.lives[r.slot].Life? && o.lives[r.slot].retiredAt.Some?
    && r.key == o.lives[r.slot].key && (r.resend <==> o.lives[r.slot].sentAt != [])
  }

  lemma OwedIsDue(o: Observed, slot: nat, now: Instant)
    requires Inv(o) && slot < SLOTS
    ensures KeyOwed(o, slot, now) <==> !Held(o.abw, now) && o.abw.slots[slot].Due(now)
    ensures o.lives[slot].AwaitsReveal() <==> o.abw.slots[slot].Retired?
    ensures o.lives[slot].Life? && o.lives[slot].sentAt != [] <==> o.abw.slots[slot].Revealed?
    ensures !o.abw.slots[slot].Empty? ==> o.lives[slot].Life? && o.lives[slot].key == o.abw.slots[slot].key
    ensures !o.abw.slots[slot].Empty? && !o.abw.slots[slot].Seeded? ==> o.lives[slot].retiredAt.Some?
    ensures o.abw.slots[slot].HoldsSecret() ==> o.abw.published[slot] == o.lives[slot].published
  {
    assert Tells(o.abw.slots[slot], o.abw.published[slot], o.lives[slot], o.clock);
  }

  /** A round of reveals sends the keys owed and no other, each once and as its own slot's. */
  lemma RoundSendsWhatIsOwed(o: Observed, now: Instant)
    requires Inv(o)
    ensures var sent := SentBy(o, SendReveals(now));
      && (forall r :: r in sent <==> r.slot < SLOTS && KeyOwed(o, r.slot, now) && TellsOwnKey(o, r))
      && (forall i, j :: 0 <= i < j < |sent| ==> sent[i].slot < sent[j].slot)
  {
    hide RevealedUpTo, Tells, CountsTell, KeyOwed;
    RoundSends(o.abw.slots, now, |o.abw.slots|);
    forall i | 0 <= i < SLOTS
      ensures KeyOwed(o, i, now) <==> !Held(o.abw, now) && o.abw.slots[i].Due(now)
      ensures o.abw.slots[i].Due(now) ==>
        o.lives[i].Life? && o.lives[i].key == o.abw.slots[i].key && o.lives[i].retiredAt.Some?
        && (o.abw.slots[i].Revealed? <==> o.lives[i].sentAt != [])
    {
      OwedIsDue(o, i, now);
    }
    var sent := SentBy(o, SendReveals(now));
    if Held(o.abw, now) {
      assert sent == [];
    }
    forall r ensures r in sent <==> r.slot < SLOTS && KeyOwed(o, r.slot, now) && TellsOwnKey(o, r) {
    }
  }

  /** A rotation sends nothing, or again a key that a close may have lost before its slot is reused. */
  lemma RotationSendsWhatIsOwed(o: Observed, now: Instant, key: Key)
    requires Inv(o) && Enabled(o, Rotate(now, key))
    ensures var next := o.lives[o.SlotAfter()];
      SentBy(o, Rotate(now, key)) ==
        if next.Life? && next.owedSince.Some? then [PendingReveal(o.SlotAfter(), true, next.key)] else []
  {
    var next := o.SlotAfter();
    assert Tells(o.abw.slots[next], o.abw.published[next], o.lives[next], o.clock);
  }

  /** Over every run, whatever a step sends is the key of the slot it names, one retired before, so the key
      of a slot still active is never sent. */
  lemma OnlyRetiredKeysAreSent(now: Instant, key: Key, events: seq<Event>, event: Event, r: PendingReveal)
    requires IsRun(Start(now, key), events)
    requires Enabled(After(Start(now, key), events), event)
    requires r in SentBy(After(Start(now, key), events), event)
    ensures TellsOwnKey(After(Start(now, key), events), r)
    ensures r.slot != After(Start(now, key), events).abw.active
  {
    hide Next, Tells, RevealsDue, Rotated, CountsTell, Enabled;
    var o := After(Start(now, key), events);
    ActiveKeyIsTheNewest(now, key, events);
    match event
    case Rotate(at, k) =>
      RotationSendsWhatIsOwed(o, at, k);
      OwedLivesWereSent(o, o.SlotAfter());
    case SendReveals(at) => RoundSendsWhatIsOwed(o, at);
    case _ =>
  }

  lemma OwedLivesWereSent(o: Observed, slot: nat)
    requires Inv(o) && slot < SLOTS && o.lives[slot].Life? && o.lives[slot].owedSince.Some?
    ensures o.lives[slot].retiredAt.Some? && o.lives[slot].sentAt != []
  {
    assert Tells(o.abw.slots[slot], o.abw.published[slot], o.lives[slot], o.clock);
  }

  /** When a rotation is due, from what was seen alone: once the pool is no longer quiet after a connection
      opened, and unless the key of the slot after is still to be sent, when the active key is public, a tip
      came a quarter of the delay or more into its use, or it has had its shares or its time. */
  lemma RotationIsDueIff(o: Observed, t: Instant)
    requires Inv(o)
    ensures RotationDue(o.abw, t).Some? <==>
        && o.quietUntil <= t && !o.lives[o.SlotAfter()].AwaitsReveal()
        && o.lives[o.Slot()].Life?
        && (o.lives[o.Slot()].published || TipAsks(o) || o.shares >= 16384 || t - o.seededAt >= 600 * SECOND)
  {
    hide Tells, EarliestDue, RevealedUpTo;
    OwedIsDue(o, o.Slot(), t);
    OwedIsDue(o, o.SlotAfter(), t);
  }

  /** A tip's answer is whether it asks for a rotation on its own account. */
  lemma TipAsksWhenOldEnough(o: Observed, now: Instant)
    requires Inv(o) && o.clock <= now
    ensures NoteTip(o.abw, now).1 <==> now - o.seededAt >= 75 * SECOND
    ensures NoteTip(o.abw, now).1 <==> TipAsks(Next(o, Tip(now)))
  {
  }

  /** Without the rule that a rotation waits until it is due, a key is sent early: a rotation onto a
      slot still waiting to be revealed sends its key at once, before its time. */
  lemma RotatingBeforeItIsDueSendsEarly(o: Observed, now: Instant, key: Key)
    requires Inv(o) && o.abw.slots[NextSlot(o.abw)].Retired? && o.clock <= now < o.abw.slots[NextSlot(o.abw)].revealAt
    ensures RotationDue(o.abw, now).None?
    ensures Rotated(o.abw, now, key).1
         == [PendingReveal(NextSlot(o.abw), false, o.abw.slots[NextSlot(o.abw)].key)]
    ensures now < RevealTime(o.lives[NextSlot(o.abw)])
  {
    var next := NextSlot(o.abw);
    assert Tells(o.abw.slots[next], o.abw.published[next], o.lives[next], o.clock);
  }
}
