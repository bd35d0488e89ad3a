/** The slots of one session, kept in place. Each method is the step of `AbwSlots` it names. */
module AbwObject {
  import opened Basics
  import opened AbwSlots

  class AbwSlotState {
    const slots: array<Slot>
    const published: array<bool>
    var active: nat
    var sharesSinceActivation: nat
    var activatedAt: Instant
    var heldUntil: Instant
    var tipRotationPending: bool

    function View(): Abw
      reads this, slots, published
    {
      Abw(slots[..], published[..], active, sharesSinceActivation, activatedAt, heldUntil, tipRotationPending)
    }

    ghost predicate Valid()
      reads this, slots, published
    {
      slots.Length == published.Length == SLOTS && WellFormed(View())
    }

    /** A session's slots at its start: slot 0 active under a fresh key. */
    constructor (now: Instant, key: Key)
      ensures Valid() && View() == Started(now, key) && fresh(slots) && fresh(published)
    {
      slots := new Slot[SLOTS](_ => Empty);
      published := new bool[SLOTS](_ => false);
      active, sharesSinceActivation, activatedAt, heldUntil, tipRotationPending := 0, 0, now, now, false;
      new;
      assert slots[..] == EmptySlots(SLOTS) && published[..] == NonePublished(SLOTS);
      SeedSlot(0, key);
    }

    method SeedSlot(slot: nat, key: Key)
      requires slots.Length == published.Length == SLOTS && slot < SLOTS
      modifies slots, published, this`active
      ensures View() == Seed(old(View()), slot, key)
    {
      slots[slot] := Seeded(key);
      published[slot] := false;
      active := slot;
    }

    /** `NotePublished` in place; the answer is none when there was no secret to lose. */
    method NoteBlockPublished(slot: nat) returns (wasActive: Option<bool>)
      requires Valid()
      modifies published
      ensures Valid() && (View(), wasActive) == NotePublished(old(View()), slot)
    {
      if slot >= SLOTS || !slots[slot].HoldsSecret() || published[slot] {
        return None;
      }
      published[slot] := true;
      return Some(slot == active);
    }

    method Connect(openedAt: Instant)
      requires Valid()
      modifies this`heldUntil
      ensures Valid() && View() == Connected(old(View()), openedAt)
    {
      heldUntil := openedAt + REPLAY_GRACE;
    }

    method Resume(closedAt: Instant)
      requires Valid()
      modifies slots
      ensures Valid() && View() == old(View()).(slots := ResumedSlots(old(slots[..]), closedAt))
    {
      for i := 0 to SLOTS
        invariant forall k :: 0 <= k < i ==> slots[k] == old(slots[k]).Resumed(closedAt)
        invariant forall k :: i <= k < SLOTS ==> slots[k] == old(slots[k])
      {
        match slots[i] {
          case Retired(key, _, true) => slots[i] := Retired(key, closedAt + REVEAL_AFTER, false);
          case Revealed(key, None) => slots[i] := Revealed(key, Some(closedAt));
          case _ =>
        }
      }
      assert slots[..] == ResumedSlots(old(slots[..]), closedAt);
    }

    /** `RevealOf` on the slot in the array: it ends revealed, and one notice goes out if it owed one. */
    method Reveal(slot: nat) returns (sent: seq<PendingReveal>)
      requires slots.Length == SLOTS && slot < SLOTS
      modifies slots
      ensures var (shown, out) := RevealOf(old(slots[..]), slot);
        slots[..] == old(slots[..])[slot := shown] && sent == out
    {
      match slots[slot] {
        case Retired(key, _, _) =>
          slots[slot] := Revealed(key, None);
          return [PendingReveal(slot, false, key)];
        case Revealed(key, Some(_)) =>
          slots[slot] := Revealed(key, None);
          return [PendingReveal(slot, true, key)];
        case _ =>
          assert slots[..] == old(slots[..])[slot := slots[slot]];
          return [];
      }
    }

    /** Sends every key due at `now`; what is due is decided before any is sent. */
    method SendRevealsDue(now: Instant) returns (sent: seq<PendingReveal>)
      requires Valid()
      modifies slots
      ensures Valid() && (View(), sent) == RevealsDue(old(View()), now)
    {
      sent := [];
      if now < heldUntil {
        return;
      }
      var before := slots[..];
      for i := 0 to SLOTS
        invariant (slots[..], sent) == RevealedUpTo(before, now, i)
      {
        if before[i].Due(now) {
          var more := Reveal(i);
          sent := sent + more;
        }
      }
    }

    /** `Rotated`, on the arrays: two slots change, and the next one may owe a notice first. */
    method Rotate(now: Instant, key: Key) returns (sent: seq<PendingReveal>)
      requires Valid()
      modifies this, slots, published
      ensures Valid() && (View(), sent) == Rotated(old(View()), now, key)
    {
      RotatingLeavesNoneDue(View(), now, key);
      var was, next := active, (active + 1) % SLOTS;
      sent := Reveal(next);
      if slots[was].Seeded? {
        slots[was] := Retired(slots[was].key, now + REVEAL_AFTER, true);
      }
      SeedSlot(next, key);
      sharesSinceActivation := 0;
      activatedAt := now;
      tipRotationPending := false;
    }

    method NoteAcceptedShare()
      requires Valid()
      modifies this`sharesSinceActivation
      ensures Valid() && View() == NoteShare(old(View()))
    {
      if sharesSinceActivation < U64_MAX {
        sharesSinceActivation := sharesSinceActivation + 1;
      }
    }

    /** Records a new tip; returns whether the active slot is old enough to rotate for it. */
    method NoteNewTip(now: Instant) returns (oldEnough: bool)
      requires Valid()
      modifies this`tipRotationPending
      ensures Valid() && (View(), oldEnough) == NoteTip(old(View()), now)
    {
      oldEnough := DurationSince(now, activatedAt) >= REVEAL_AFTER / MAX_TIP_ROTATIONS_PER_REVEAL;
      tipRotationPending := tipRotationPending || oldEnough;
    }

    /** One turn of the connection loop at `now`; `wake` is when, while no share is held, the slots next
        have something to do. */
    method Turn(now: Instant, key: Key, mayRotate: bool, maySend: bool) returns (sent: seq<PendingReveal>, wake: Instant)
      requires Valid()
      modifies this, slots, published
      ensures Valid() && (View(), sent) == TurnOf(old(View()), now, key, mayRotate, maySend) && wake == NextDue(View())
    {
      hide Rotated, RevealedUpTo, RevealDue, RotationDue, NextDue;
      var first, rest := [], [];
      if RotationDue(View(), now).Some? && mayRotate {
        first := Rotate(now, key);
      }
      if RevealDue(View(), now) && maySend {
        rest := SendRevealsDue(now);
      }
      sent := first + rest;
      wake := NextDue(View());
    }
  }
}
