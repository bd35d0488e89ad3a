/** The anti-block-withholding slots as values: a ring of keyed slots, one active, rotated and
    revealed by the clock. `AbwObject` keeps them in place and `AbwRuns` follows whole runs. */
module AbwSlots {
  import opened Basics

  /** Instants and durations, in nanoseconds. */
  type Instant = int
  const SECOND := 1_000_000_000

  const SLOTS: nat := 16
  const ROTATE_AFTER_SHARES := 16384
  const ROTATE_AFTER: Instant := 600 * SECOND
  const REVEAL_AFTER: Instant := 300 * SECOND
  const MAX_TIP_ROTATIONS_PER_REVEAL := 4
  const REPLAY_GRACE: Instant := 10 * SECOND
  const U64_MAX := 0xffff_ffff_ffff_ffff

  /** A secret XOR key. */
  type Key = nat

  datatype SlotKeyStatus = Secret | Disclosed

  datatype Slot =
    | Empty
    | Seeded(key: Key)
    | Retired(key: Key, revealAt: Instant, onOpenConnection: bool)
    | Revealed(key: Key, resendAt: Option<Instant>)
  {
    predicate HoldsSecret() { Seeded? || Retired? }

    /** When a reveal of the slot, or a resend of one, is due. */
    function DueAt(): Option<Instant> {
      match this
      case Retired(_, revealAt, _) => Some(revealAt)
      case Revealed(_, resendAt) => resendAt
      case _ => None
    }

    predicate Due(now: Instant) { DueAt().Some? && now >= DueAt().value }

    /** A resume: a reveal pending since the closed connection restarts its delay from the
        close, once; a reveal already sent is to be sent again. */
    function Resumed(closedAt: Instant): Slot {
      match this
      case Retired(key, _, true) => Retired(key, closedAt + REVEAL_AFTER, false)
      case Revealed(key, None) => Revealed(key, Some(closedAt))
      case _ => this
    }
  }

  datatype PendingReveal = PendingReveal(slot: nat, resend: bool, key: Key)

  datatype Abw = Abw(
    slots: seq<Slot>, published: seq<bool>, active: nat, shares: nat,
    activatedAt: Instant, heldUntil: Instant, tipPending: bool)

  /** Exactly the active slot is seeded. */
  ghost predicate WellFormed(a: Abw) {
    && |a.slots| == SLOTS && |a.published| == SLOTS && a.active < SLOTS
    && a.slots[a.active].Seeded?
    && (forall i :: 0 <= i < SLOTS && i != a.active ==> !a.slots[i].Seeded?)
    && a.shares <= U64_MAX
  }

  function EmptySlots(n: nat): (slots: seq<Slot>)
    ensures |slots| == n && forall i :: 0 <= i < n ==> slots[i] == Empty
  {
    if n == 0 then [] else EmptySlots(n - 1) + [Empty]
  }

  function NonePublished(n: nat): (published: seq<bool>)
    ensures |published| == n && forall i :: 0 <= i < n ==> !published[i]
  {
    if n == 0 then [] else NonePublished(n - 1) + [false]
  }

  function Started(now: Instant, key: Key): Abw {
    Abw(EmptySlots(SLOTS)[0 := Seeded(key)], NonePublished(SLOTS), 0, 0, now, now, false)
  }

  function NextSlot(a: Abw): nat { (a.active + 1) % SLOTS }

  /** A slot's key with its status; none for a slot never seeded. */
  function KeyFor(a: Abw, slot: nat): Option<(Key, SlotKeyStatus)>
    requires |a.slots| == |a.published| == SLOTS
  {
    if slot >= SLOTS then None
    else
      match a.slots[slot]
      case Empty => None
      case Revealed(key, _) => Some((key, Disclosed))
      case Seeded(key) => Some((key, if a.published[slot] then Disclosed else Secret))
      case Retired(key, _, _) => Some((key, if a.published[slot] then Disclosed else Secret))
  }

  /** A relayed block's header carries the slot's key; none when it was not secret. */
  function NotePublished(a: Abw, slot: nat): (Abw, Option<bool>)
    requires |a.slots| == |a.published| == SLOTS
  {
    if slot >= SLOTS || !a.slots[slot].HoldsSecret() || a.published[slot] then (a, None)
    else (a.(published := a.published[slot := true]), Some(slot == a.active))
  }

  function Seed(a: Abw, slot: nat, key: Key): Abw
    requires |a.slots| == |a.published| == SLOTS && slot < SLOTS
  {
    a.(slots := a.slots[slot := Seeded(key)], published := a.published[slot := false], active := slot)
  }

  /** Sends the slot's key, if it awaits a reveal or the resend of one. */
  function RevealOf(slots: seq<Slot>, slot: nat): (Slot, seq<PendingReveal>)
    requires slot < |slots|
  {
    match slots[slot]
    case Retired(key, _, _) => (Revealed(key, None), [PendingReveal(slot, false, key)])
    case Revealed(key, Some(_)) => (Revealed(key, None), [PendingReveal(slot, true, key)])
    case _ => (slots[slot], [])
  }

  function Held(a: Abw, now: Instant): bool { now < a.heldUntil }

  function Rotated(a: Abw, now: Instant, key: Key): (Abw, seq<PendingReveal>)
    requires |a.slots| == |a.published| == SLOTS && a.active < SLOTS
  {
    var next := NextSlot(a);
    var (shown, sent) := RevealOf(a.slots, next);
    var slots := a.slots[next := shown];
    var retired := if slots[a.active].Seeded?
      then slots[a.active := Retired(slots[a.active].key, now + REVEAL_AFTER, true)]
      else slots;
    var seeded := Seed(a.(slots := retired), next, key);
    (seeded.(shares := 0, activatedAt := now, tipPending := false), sent)
  }

  /** The slots after the first `n` of them have sent what is due. */
  function RevealedUpTo(slots: seq<Slot>, now: Instant, n: nat): (r: (seq<Slot>, seq<PendingReveal>))
    requires n <= |slots|
    ensures |r.0| == |slots|
    ensures forall i :: n <= i < |slots| ==> r.0[i] == slots[i]
    ensures forall i :: 0 <= i < n ==> r.0[i] == if slots[i].Due(now) then Revealed(slots[i].key, None) else slots[i]
  {
    if n == 0 then (slots, [])
    else
      var (before, earlier) := RevealedUpTo(slots, now, n - 1);
      if slots[n - 1].Due(now) then
        var (shown, sent) := RevealOf(before, n - 1);
        (before[n - 1 := shown], earlier + sent)
      else (before, earlier)
  }

  /** The notice a due slot sends: its own number and key, again just when the key was sent before. */
  ghost predicate Notices(slots: seq<Slot>, now: Instant, r: PendingReveal) {
    r.slot < |slots| && slots[r.slot].Due(now) && r.key == slots[r.slot].key && (r.resend <==> slots[r.slot].Revealed?)
  }

  /** A round sends one notice for each slot due, in the order of the slots, and nothing else. */
  lemma {:induction false} RoundSends(slots: seq<Slot>, now: Instant, n: nat)
    requires n <= |slots|
    ensures var sent := RevealedUpTo(slots, now, n).1;
      && (forall r :: r in sent <==> Notices(slots, now, r) && r.slot < n)
      && (forall i, j :: 0 <= i < j < |sent| ==> sent[i].slot < sent[j].slot)
  {
    if n > 0 {
      RoundSends(slots, now, n - 1);
      var (before, earlier) := RevealedUpTo(slots, now, n - 1);
      if slots[n - 1].Due(now) {
        var (_, sent) := RevealOf(before, n - 1);
        var r := PendingReveal(n - 1, slots[n - 1].Revealed?, slots[n - 1].key);
        assert sent == [r];
        forall q ensures q in earlier + sent <==> Notices(slots, now, q) && q.slot < n {
          assert q in earlier + [r] <==> q in earlier || q == r;
        }
        forall i | 0 <= i < |earlier| ensures earlier[i].slot < n - 1 {
          assert earlier[i] in earlier;
        }
      }
    }
  }

  function RevealsDue(a: Abw, now: Instant): (Abw, seq<PendingReveal>) {
    if Held(a, now) then (a, [])
    else
      var (slots, sent) := RevealedUpTo(a.slots, now, |a.slots|);
      (a.(slots := slots), sent)
  }

  function ResumedSlots(slots: seq<Slot>, closedAt: Instant): (r: seq<Slot>)
    ensures |r| == |slots| && forall i :: 0 <= i < |r| ==> r[i] == slots[i].Resumed(closedAt)
  {
    if slots == [] then []
    else ResumedSlots(slots[..|slots| - 1], closedAt) + [slots[|slots| - 1].Resumed(closedAt)]
  }

  function Connected(a: Abw, openedAt: Instant): Abw { a.(heldUntil := openedAt + REPLAY_GRACE) }

  function NoteShare(a: Abw): Abw { a.(shares := if a.shares < U64_MAX then a.shares + 1 else a.shares) }

  /** How long since, never below zero. */
  function DurationSince(now: Instant, earlier: Instant): Instant { if now < earlier then 0 else now - earlier }

  function NoteTip(a: Abw, now: Instant): (Abw, bool) {
    var oldEnough := DurationSince(now, a.activatedAt) >= REVEAL_AFTER / MAX_TIP_ROTATIONS_PER_REVEAL;
    (a.(tipPending := a.tipPending || oldEnough), oldEnough)
  }

  // ---- When something is due ----

  function NextSlotRevealAt(a: Abw): Option<Instant>
    requires |a.slots| == SLOTS
  {
    match a.slots[NextSlot(a)]
    case Retired(_, revealAt, _) => Some(revealAt)
    case _ => None
  }

  predicate ActivePublished(a: Abw)
    requires |a.published| == SLOTS && a.active < SLOTS
  {
    a.published[a.active]
  }

  datatype Why = PublishedKey | NewTip | ShareCount | SlotAge

  function RotationDue(a: Abw, now: Instant): Option<Why>
    requires |a.slots| == |a.published| == SLOTS && a.active < SLOTS
  {
    if Held(a, now) || NextSlotRevealAt(a).Some? then None
    else if ActivePublished(a) then Some(PublishedKey)
    else if a.tipPending then Some(NewTip)
    else if a.shares >= ROTATE_AFTER_SHARES then Some(ShareCount)
    else if DurationSince(now, a.activatedAt) >= ROTATE_AFTER then Some(SlotAge)
    else None
  }

  predicate RevealDue(a: Abw, now: Instant) {
    !Held(a, now) && exists i :: 0 <= i < |a.slots| && a.slots[i].Due(now)
  }

  /** The earliest time a reveal is due, if any slot awaits one. */
  function EarliestDue(slots: seq<Slot>): (due: Option<Instant>)
    ensures due.None? <==> forall i :: 0 <= i < |slots| ==> slots[i].DueAt().None?
    ensures due.Some? ==> forall i :: 0 <= i < |slots| && slots[i].DueAt().Some? ==> due.value <= slots[i].DueAt().value
    ensures due.Some? ==> exists i :: 0 <= i < |slots| && slots[i].DueAt() == due
  {
    if slots == [] then None
    else
      var front, last := EarliestDue(slots[..|slots| - 1]), slots[|slots| - 1].DueAt();
      assert slots == slots[..|slots| - 1] + [slots[|slots| - 1]];
      if last.None? then front
      else if front.None? then last
      else Some(Min(front.value, last.value))
  }

  function NextDue(a: Abw): Instant
    requires |a.slots| == |a.published| == SLOTS && a.active < SLOTS
  {
    var rotation := if a.tipPending || ActivePublished(a) then a.heldUntil else a.activatedAt + ROTATE_AFTER;
    var waited := if NextSlotRevealAt(a).None? then rotation else Max(rotation, NextSlotRevealAt(a).value);
    var due := if EarliestDue(a.slots).None? then waited else Min(waited, EarliestDue(a.slots).value);
    Max(due, a.heldUntil)
  }

  /** A count of shares alone makes a rotation due: the one thing the wake-up time does not
      tell, since a share arrives as a frame that wakes the loop itself. */
  predicate DueByShareCount(a: Abw, now: Instant)
    requires |a.slots| == SLOTS
  {
    !Held(a, now) && NextSlotRevealAt(a).None? && a.shares >= ROTATE_AFTER_SHARES
  }

  /** The wake-up time is exact: something is due at `t` just when `t` has reached it, or the
      share count alone asks for a rotation. The loop neither oversleeps nor wakes for nothing. */
  lemma NextDueIsExact(a: Abw, t: Instant)
    requires WellFormed(a)
    ensures RevealDue(a, t) || RotationDue(a, t).Some? <==> t >= NextDue(a) || DueByShareCount(a, t)
  {
    var earliest := EarliestDue(a.slots);
    if earliest.Some? && t >= earliest.value {
      var i :| 0 <= i < |a.slots| && a.slots[i].DueAt() == earliest;
      assert a.slots[i].Due(t);
    }
    assert forall i :: 0 <= i < |a.slots| && a.slots[i].Due(t) ==> earliest.Some? && earliest.value <= t;
    assert a.slots[NextSlot(a)].DueAt() == NextSlotRevealAt(a) || NextSlotRevealAt(a).None?;
  }

  /** Under the share count that asks for a rotation the equivalence is unconditional. */
  lemma NextDueIsExactBelowTheCount(a: Abw, t: Instant)
    requires WellFormed(a) && a.shares < ROTATE_AFTER_SHARES
    ensures RevealDue(a, t) || RotationDue(a, t).Some? <==> t >= NextDue(a)
  {
    NextDueIsExact(a, t);
  }

  /** Doing what is due leaves it not due: the loop never spins. */
  lemma RevealingLeavesNoneDue(a: Abw, now: Instant)
    ensures !RevealDue(RevealsDue(a, now).0, now)
  {
  }

  lemma RotatingLeavesNoneDue(a: Abw, now: Instant, key: Key)
    requires WellFormed(a)
    ensures WellFormed(Rotated(a, now, key).0)
    ensures RotationDue(Rotated(a, now, key).0, now).None?
  {
  }

  /** A rotation changes two slots. The one that was active keeps its key, a secret as it was, and awaits its
      reveal the whole delay; the next one round holds the new key, a secret. */
  lemma RotatedKeepsKeys(a: Abw, now: Instant, key: Key)
    requires WellFormed(a)
    ensures var after := Rotated(a, now, key).0;
      && WellFormed(after) && after.active == (a.active + 1) % SLOTS
      && KeyFor(after, a.active) == KeyFor(a, a.active)
      && after.slots[a.active].DueAt() == Some(now + REVEAL_AFTER)
      && KeyFor(after, after.active) == Some((key, Secret))
      && (forall i :: 0 <= i < SLOTS && i != a.active && i != after.active ==>
            after.slots[i] == a.slots[i] && KeyFor(after, i) == KeyFor(a, i))
  {
  }

  /** A relayed block tells a slot's key: it is no secret afterwards, and the answer is none just when it
      was none before. No other slot is touched. */
  lemma PublishingDiscloses(a: Abw, slot: nat)
    requires WellFormed(a)
    ensures var (after, wasActive) := NotePublished(a, slot);
      && after.slots == a.slots && WellFormed(after)
      && (wasActive.Some? <==> exists key :: KeyFor(a, slot) == Some((key, Secret)))
      && (wasActive.Some? ==> (wasActive.value <==> slot == a.active))
      && (forall key :: KeyFor(after, slot) != Some((key, Secret)))
      && (KeyFor(a, slot).Some? ==> KeyFor(after, slot).Some? && KeyFor(after, slot).value.0 == KeyFor(a, slot).value.0)
      && (forall i: nat :: i != slot ==> KeyFor(after, i) == KeyFor(a, i))
  {
    if slot < SLOTS && KeyFor(a, slot).Some? && KeyFor(a, slot).value.1 == Secret {
      assert KeyFor(a, slot) == Some((KeyFor(a, slot).value.0, Secret));
    }
  }

  /** A rotation asked for is still due later, until something changes the slots. */
  lemma RotationStaysDue(a: Abw, t: Instant, later: Instant)
    requires WellFormed(a) && t <= later && RotationDue(a, t).Some?
    ensures RotationDue(a, later).Some?
  {
  }

  /** One turn of the connection loop: the rotation that is due, then the reveals that are. Each waits
      until every share received is answered: `mayRotate` and `maySend` are whether that held when the
      turn came to it. */
  function TurnOf(a: Abw, now: Instant, key: Key, mayRotate: bool, maySend: bool): (Abw, seq<PendingReveal>)
    requires WellFormed(a)
  {
    var (rotated, first) := if RotationDue(a, now).Some? && mayRotate then Rotated(a, now, key) else (a, []);
    var (revealed, rest) := if RevealDue(rotated, now) && maySend then RevealsDue(rotated, now) else (rotated, []);
    (revealed, first + rest)
  }

  /** A turn leaves a reveal due only if it had to wait, and one that had to wait for both leaves
      everything. */
  lemma TurnKeeps(a: Abw, now: Instant, key: Key, mayRotate: bool, maySend: bool)
    requires WellFormed(a)
    ensures var (after, sent) := TurnOf(a, now, key, mayRotate, maySend);
      && WellFormed(after)
      && (RevealDue(after, now) ==> !maySend)
      && (!mayRotate && !maySend ==> after == a && sent == [])
  {
  }

  /** A turn can leave a rotation due only because it had to wait, or because a reveal it sent is the
      one the rotation waited for; the turn after it rotates. So two turns that need not wait leave
      nothing due until the wake-up time. */
  lemma TwoTurnsSettle(a: Abw, now: Instant, first: Key, second: Key)
    requires WellFormed(a)
    ensures WellFormed(TurnOf(a, now, first, true, true).0)
    ensures var settled := TurnOf(TurnOf(a, now, first, true, true).0, now, second, true, true).0;
      && WellFormed(settled)
      && !RevealDue(settled, now) && RotationDue(settled, now).None? && NextDue(settled) > now
  {
    hide EarliestDue, NextDue, RevealedUpTo;
    TurnKeeps(a, now, first, true, true);
    var once := TurnOf(a, now, first, true, true).0;
    TurnKeeps(once, now, second, true, true);
    NextDueIsExact(TurnOf(once, now, second, true, true).0, now);
  }
}
