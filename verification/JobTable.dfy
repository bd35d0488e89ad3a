/** The gateway's job table as a value: slots, the publication served, the tip and the stale marks. */
module JobTable {
  import opened Basics

  type Hash = nat

  datatype Job = Job(serial: nat, slot: nat, prev: Hash, createdAt: nat)

  /** Whether work pays the pool's outputs or the subsidy alone. */
  datatype Kind = Pooled | SubsidyOnly

  datatype Publication = Publication(job: Job, kind: Kind, sequence: nat)

  /** `stale` holds the serials of the jobs marked. */
  datatype Table = Table(slots: seq<Option<Job>>, current: Option<Publication>, published: nat,
                         tip: Option<Hash>, stale: set<nat>)

  function Empty(slots: nat): (t: Table)
    ensures |t.slots| == slots && forall i :: 0 <= i < slots ==> t.slots[i].None?
  {
    Table(NoJobs(slots), None, 0, None, {})
  }

  function NoJobs(n: nat): (slots: seq<Option<Job>>)
    ensures |slots| == n && forall i :: 0 <= i < n ==> slots[i].None?
  {
    if n == 0 then [] else NoJobs(n - 1) + [None]
  }

  /** The installed jobs on another previous block. */
  function Off(slots: seq<Option<Job>>, prev: Hash): set<nat> {
    set s | s in slots && s.Some? && s.value.prev != prev :: s.value.serial
  }

  function Installed(slots: seq<Option<Job>>): set<nat> {
    set s | s in slots && s.Some? :: s.value.serial
  }

  function MarkStaleOff(t: Table, prev: Hash): Table { t.(stale := t.stale + Off(t.slots, prev)) }

  predicate Expired(job: Job, keep: nat, now: nat) { Sub(now, job.createdAt) > keep }

  /** The slots without the jobs past `keep`. */
  function Kept(slots: seq<Option<Job>>, keep: nat, now: nat): (kept: seq<Option<Job>>)
    ensures |kept| == |slots|
    ensures forall i :: 0 <= i < |slots| ==>
              kept[i] == if slots[i].Some? && Expired(slots[i].value, keep, now) then None else slots[i]
  {
    if slots == [] then []
    else
      var last := slots[|slots| - 1];
      Kept(slots[..|slots| - 1], keep, now) + [if last.Some? && Expired(last.value, keep, now) then None else last]
  }

  function Placed(slots: seq<Option<Job>>, job: Job): (placed: seq<Option<Job>>)
    ensures |placed| == |slots|
    ensures forall i :: 0 <= i < |slots| ==> placed[i] == if i == job.slot then Some(job) else slots[i]
  {
    if job.slot < |slots| then slots[job.slot := Some(job)] else slots
  }

  /** Once a tip is recorded, only jobs that build on it are served. */
  predicate Refuses(t: Table, job: Job) { t.tip.Some? && t.tip.value != job.prev }

  function Publish(t: Table, job: Job, kind: Kind, keep: nat, now: nat): Table {
    if Refuses(t, job) then t
    else t.(
      stale := t.stale + if kind == SubsidyOnly then Installed(t.slots) else Off(t.slots, job.prev),
      slots := Placed(Kept(t.slots, keep, now), job),
      published := t.published + 1,
      current := Some(Publication(job, kind, t.published + 1)))
  }

  /** What a publication on the tip does: the job takes its slot, every other job stays until it is older
      than `keep` and then goes, and of the jobs installed before exactly those on another previous
      block are marked, or all of them when the work pays the subsidy alone. */
  lemma PublishedTable(t: Table, job: Job, kind: Kind, keep: nat, now: nat)
    requires t.tip.None? || t.tip.value == job.prev
    ensures var after := Publish(t, job, kind, keep, now);
      && |after.slots| == |t.slots| && after.tip == t.tip
      && after.current == Some(Publication(job, kind, t.published + 1)) && after.published == t.published + 1
      && (job.slot < |t.slots| ==> after.slots[job.slot] == Some(job))
      && (forall i, j: Job :: 0 <= i < |t.slots| && i != job.slot ==>
            (after.slots[i] == Some(j) <==> t.slots[i] == Some(j) && now <= j.createdAt + keep))
      && (forall n: nat :: n in after.stale <==>
            n in t.stale || exists i :: 0 <= i < |t.slots| && EndedBy(t.slots[i], job.prev, kind, n))
  {
    hide Kept;
    forall n: nat
      ensures n in Publish(t, job, kind, keep, now).stale <==>
        n in t.stale || exists i :: 0 <= i < |t.slots| && EndedBy(t.slots[i], job.prev, kind, n)
    {
      EndedAre(t.slots, job.prev, kind, n);
    }
  }

  /** The slot holds job `n`, which a publication of this kind on this previous block ends. */
  predicate EndedBy(slot: Option<Job>, prev: Hash, kind: Kind, n: nat) {
    slot.Some? && slot.value.serial == n && (kind == SubsidyOnly || slot.value.prev != prev)
  }

  lemma EndedAre(slots: seq<Option<Job>>, prev: Hash, kind: Kind, n: nat)
    ensures n in (if kind == SubsidyOnly then Installed(slots) else Off(slots, prev)) <==>
      exists i :: 0 <= i < |slots| && EndedBy(slots[i], prev, kind, n)
  {
    if i :| 0 <= i < |slots| && EndedBy(slots[i], prev, kind, n) {
      assert slots[i] in slots;
    }
  }

  /** A job off the tip is refused and changes nothing. */
  lemma OffTheTipIsRefused(t: Table, job: Job, kind: Kind, keep: nat, now: nat)
    requires t.tip.Some? && t.tip.value != job.prev
    ensures Publish(t, job, kind, keep, now) == t
  {
  }

  /** A mark apart from a publication goes to exactly the installed jobs on another previous block. */
  lemma MarkedOff(t: Table, prev: Hash, n: nat)
    ensures MarkStaleOff(t, prev).(stale := t.stale) == t
    ensures n in MarkStaleOff(t, prev).stale <==>
      n in t.stale || exists i :: 0 <= i < |t.slots| && EndedBy(t.slots[i], prev, Pooled, n)
  {
    EndedAre(t.slots, prev, Pooled, n);
  }
}
