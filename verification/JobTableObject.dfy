/** The job table as an object shared by reference: a job is one object whether its slot, the work
    served or a connection holds it, so marking it stale is seen by all of them. */
module JobTableObject {
  import opened Basics
  import opened JobTable

  class Held {
    const job: Job
    var stalePrevblock: bool

    constructor (job: Job)
      ensures this.job == job && !stalePrevblock
    {
      this.job, stalePrevblock := job, false;
    }
  }

  function SlotOf(h: Held?): Option<Job> { if h == null then None else Some(h.job) }

  function SlotsOf(held: seq<Held?>): (slots: seq<Option<Job>>)
    ensures |slots| == |held| && forall i :: 0 <= i < |held| ==> slots[i] == SlotOf(held[i])
  {
    if held == [] then [] else SlotsOf(held[..|held| - 1]) + [SlotOf(held[|held| - 1])]
  }

  /** The serials of the marked jobs. */
  ghost function StaleOf(known: set<Held>): set<nat>
    reads known
  {
    set h | h in known && h.stalePrevblock :: h.job.serial
  }

  predicate Marks(kind: Kind, prev: Hash, h: Held?) {
    h != null && (kind == SubsidyOnly || h.job.prev != prev)
  }

  class Table {
    const slots: array<Held?>
    const keep: nat
    var current: Option<Publication>
    var published: nat
    var tip: Option<Hash>
    /** Every job this table ever held. */
    ghost var known: set<Held>

    ghost predicate Valid()
      reads this, slots
    {
      && (forall i {:trigger slots[i]} :: 0 <= i < slots.Length && slots[i] != null ==> slots[i] in known)
      && (forall g, h :: g in known && h in known && g.job.serial == h.job.serial ==> g == h)
    }

    ghost function View(): JobTable.Table
      reads this, slots, known
    {
      JobTable.Table(SlotsOf(slots[..]), current, published, tip, StaleOf(known))
    }

    constructor (count: nat, keep: nat)
      ensures View() == Empty(count) && this.keep == keep && fresh(slots) && known == {} && Valid()
    {
      slots := new Held?[count](_ => null);
      this.keep := keep;
      current, published, tip, known := None, 0, None, {};
      new;
      assert SlotsOf(slots[..]) == NoJobs(count);
    }

    method SetTip(prev: Hash)
      requires Valid()
      modifies this`tip
      ensures View() == old(View()).(tip := Some(prev)) && Valid()
    {
      tip := Some(prev);
    }

    /** Marks the installed jobs that `kind` on `prev` ends. */
    method Mark(kind: Kind, prev: Hash)
      requires Valid()
      modifies known`stalePrevblock
      ensures forall h :: h in known ==>
                h.stalePrevblock == (old(h.stalePrevblock) || (h in slots[..] && Marks(kind, prev, h)))
    {
      for i := 0 to slots.Length
        invariant forall h :: h in known ==>
                    h.stalePrevblock == (old(h.stalePrevblock) || (h in slots[..i] && Marks(kind, prev, h)))
      {
        if Marks(kind, prev, slots[i]) {
          slots[i].stalePrevblock := true;
        }
        assert slots[..i + 1] == slots[..i] + [slots[i]];
      }
      assert slots[..slots.Length] == slots[..];
    }

    /** The marks as the set of serials they add to those of the jobs marked before. */
    lemma MarkedSerials(kind: Kind, prev: Hash, marked: set<Held>)
      requires Valid() && marked <= known
      requires forall h :: h in known ==>
                 h.stalePrevblock == (h in marked || (h in slots[..] && Marks(kind, prev, h)))
      ensures StaleOf(known) == (set h | h in marked :: h.job.serial)
                + if kind == SubsidyOnly then Installed(SlotsOf(slots[..])) else Off(SlotsOf(slots[..]), prev)
    {
      var held := SlotsOf(slots[..]);
      var before := set h | h in marked :: h.job.serial;
      var added := if kind == SubsidyOnly then Installed(held) else Off(held, prev);
      forall serial | serial in StaleOf(known)
        ensures serial in before + added
      {
        var h :| h in known && h.stalePrevblock && h.job.serial == serial;
        if h !in marked {
          var i :| 0 <= i < slots.Length && slots[i] == h;
          assert held[i] == Some(h.job);
        }
      }
      forall serial | serial in added
        ensures serial in StaleOf(known)
      {
        var s :| s in held && s.Some? && s.value.serial == serial && (kind == SubsidyOnly || s.value.prev != prev);
        var i :| 0 <= i < |held| && held[i] == s;
        assert slots[i] in known && slots[i] in slots[..];
      }
    }

    /** Marks the jobs `kind` on `prev` ends, as their serials. */
    method MarkEnded(kind: Kind, prev: Hash)
      requires Valid()
      modifies known`stalePrevblock
      ensures StaleOf(known) == old(StaleOf(known))
                + if kind == SubsidyOnly then Installed(SlotsOf(slots[..])) else Off(SlotsOf(slots[..]), prev)
    {
      hide SlotsOf, Installed, Off;
      ghost var marked := set h | h in known && h.stalePrevblock;
      Mark(kind, prev);
      MarkedSerials(kind, prev, marked);
    }

    method MarkStaleOff(prev: Hash)
      requires Valid()
      modifies known`stalePrevblock
      ensures View() == JobTable.MarkStaleOff(old(View()), prev) && Valid()
    {
      hide SlotsOf, Installed, Off, StaleOf;
      MarkEnded(Pooled, prev);
    }

    /** Drops the jobs past `keep`. */
    method DropExpired(now: nat)
      modifies slots
      ensures SlotsOf(slots[..]) == Kept(old(SlotsOf(slots[..])), keep, now)
      ensures forall i {:trigger slots[i]} :: 0 <= i < slots.Length && slots[i] != null ==> slots[i] == old(slots[i])
    {
      for i := 0 to slots.Length
        invariant forall j :: i <= j < slots.Length ==> slots[j] == old(slots[j])
        invariant forall j {:trigger slots[j]} :: 0 <= j < i ==>
                    slots[j] == if old(slots[j]) != null && Expired(old(slots[j]).job, keep, now) then null else old(slots[j])
      {
        if slots[i] != null && Expired(slots[i].job, keep, now) {
          slots[i] := null;
        }
      }
    }

    method Install(held: Held)
      modifies slots
      ensures SlotsOf(slots[..]) == Placed(old(SlotsOf(slots[..])), held.job)
      ensures forall i {:trigger slots[i]} :: 0 <= i < slots.Length && slots[i] != null ==>
                slots[i] == held || slots[i] == old(slots[i])
    {
      if held.job.slot < slots.Length {
        slots[held.job.slot] := held;
      }
    }

    /** `JobTable.Publish` in place: marks, expiry, slot, counter and served work together, or nothing at
        all when the table refuses the job. */
    method Publish(held: Held, kind: Kind, now: nat) returns (served: bool)
      requires Valid()
      requires held in known || !held.stalePrevblock
      requires forall h :: h in known && h.job.serial == held.job.serial ==> h == held
      modifies this, slots, known`stalePrevblock
      ensures served <==> !Refuses(old(View()), held.job)
      ensures View() == JobTable.Publish(old(View()), held.job, kind, keep, now)
      ensures known == old(known) + (if served then {held} else {}) && Valid()
    {
      hide Kept, Placed, SlotsOf, Installed, Off, StaleOf, Expired, Marks, SlotOf;
      var prev := held.job.prev;
      if tip.Some? && tip.value != prev {
        return false;
      }
      MarkEnded(kind, prev);
      DropExpired(now);
      Install(held);
      published := published + 1;
      current := Some(Publication(held.job, kind, published));
      KnowingKeepsStale(held);
      known := known + {held};
      return true;
    }

    lemma KnowingKeepsStale(held: Held)
      requires held in known || !held.stalePrevblock
      ensures StaleOf(known + {held}) == StaleOf(known)
    {
    }

    method JobAt(slot: nat) returns (held: Held?)
      requires Valid()
      ensures SlotOf(held) == if slot < |View().slots| then View().slots[slot] else None
      ensures held != null ==> held in known && (held.stalePrevblock <==> held.job.serial in View().stale)
    {
      held := if slot < slots.Length then slots[slot] else null;
    }
  }
}
