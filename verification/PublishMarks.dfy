/** The work served is never marked stale while its tip lasts, however the template thread and the
    session thread interleave. */
module PublishMarks {
  import opened Basics
  import opened JobTable
  import opened PublishRuns

  // ---- Serials ----

  /** Every installed job with the serial of `job` is `job`. */
  predicate OnlyAs(slots: seq<Option<Job>>, job: Job) {
    forall i :: 0 <= i < |slots| && slots[i].Some? && slots[i].value.serial == job.serial ==> slots[i].value == job
  }

  predicate NotHeld(slots: seq<Option<Job>>, serial: nat) {
    forall i :: 0 <= i < |slots| && slots[i].Some? ==> slots[i].value.serial != serial
  }

  predicate Unique(slots: seq<Option<Job>>) {
    forall i, j :: 0 <= i < j < |slots| && slots[i].Some? && slots[j].Some? ==>
      slots[i].value.serial != slots[j].value.serial
  }

  /** No job has been given a serial from `next` on. */
  predicate Below(t: Table, next: nat) {
    && (forall i :: 0 <= i < |t.slots| && t.slots[i].Some? ==> t.slots[i].value.serial < next)
    && forall serial :: serial in t.stale ==> serial < next
  }

  /** A job not served yet is unknown to the table; one served as empty work is there under its own
      serial alone, if it still is, and unmarked. */
  predicate JobKnown(t: Table, next: nat, place: Place) {
    match place
    case Announcing(job, _, _) => job.serial < next && job.serial !in t.stale && NotHeld(t.slots, job.serial)
    case Serving(job, announced, _, _) =>
      && job.serial < next && job.serial !in t.stale
      && if announced then OnlyAs(t.slots, job) else NotHeld(t.slots, job.serial)
    case _ => true
  }

  predicate HasJob(place: Place) { place.Announcing? || place.Serving? }

  predicate Serials(t: Table, next: nat, template: Place, session: Place) {
    && Unique(t.slots) && Below(t, next) && JobKnown(t, next, template) && JobKnown(t, next, session)
    && (HasJob(template) && HasJob(session) ==> template.job.serial != session.job.serial)
  }

  // ---- What each thread may be doing ----

  predicate SessionShape(place: Place) {
    match place
    case Idle => true
    case Building(_, announces, _, ask) => !announces && !ask
    case Serving(_, announced, _, ask) => !announced && !ask
    case _ => false
  }

  /** A coinbaser request is on its way, or its answer is being served. */
  predicate Pending(s: State) { s.pool.request.Some? || s.pool.waiting.Some? || !s.session.Idle? }

  predicate Unpooled(place: Place) {
    match place
    case Polled(pooled) => !pooled
    case Building(_, _, pooled, _) => !pooled
    case Announcing(_, pooled, _) => !pooled
    case Serving(_, _, pooled, _) => !pooled
    case _ => false
  }

  /** A request needs a configuration, and a configuration held stays held while the connection lasts,
      so no template read without one is worked on while a request is pending. */
  predicate RequestsArePooled(s: State) {
    Pending(s) ==> s.pool.configured && !Unpooled(s.template)
  }

  /** Work was served since the tip was last recorded. */
  predicate ServedSinceTip(h: seq<Entry>) { |h| > 0 && h[|h| - 1].Served? }

  /** The session thread works on a previous block the tip has left. */
  predicate Behind(s: State) { s.session.Building? && s.table.tip != Some(s.session.prev) }

  /** While the session thread is behind, an assignment it would wait for would have stopped the
      template thread too. */
  predicate NoLateWait(s: State) {
    Behind(s) && (HasJob(s.template) || ServedSinceTip(s.history)) ==> !Awaiting(s.pool)
  }

  predicate ServedIsUnmarked(t: Table, h: seq<Entry>) {
    ServedSinceTip(h) ==>
      t.current.Some? && t.tip == Some(t.current.value.job.prev) && t.current.value.job.serial !in t.stale
  }

  predicate Marks(s: State) {
    && Serials(s.table, s.nextSerial, s.template, s.session) && SessionShape(s.session)
    && RequestsArePooled(s) && NoLateWait(s) && ServedIsUnmarked(s.table, s.history)
  }

  // ---- Tables ----

  /** A job whose serial no other job carries is not marked with the jobs off its own previous block. */
  lemma NotOff(slots: seq<Option<Job>>, job: Job)
    requires OnlyAs(slots, job)
    ensures job.serial !in Off(slots, job.prev)
  {
  }

  lemma NotInstalled(slots: seq<Option<Job>>, serial: nat)
    requires NotHeld(slots, serial)
    ensures serial !in Installed(slots) && forall prev :: serial !in Off(slots, prev)
  {
  }

  lemma InstalledOnlyAs(slots: seq<Option<Job>>, job: Job)
    requires Unique(slots) && job.slot < |slots| && slots[job.slot] == Some(job)
    ensures OnlyAs(slots, job)
  {
  }

  lemma MarkedBelow(t: Table, next: nat, marked: set<nat>)
    requires Below(t, next) && marked <= Installed(t.slots)
    ensures Below(t.(stale := t.stale + marked), next)
  {
    forall serial | serial in marked
      ensures serial < next
    {
      var s :| s in t.slots && s.Some? && s.value.serial == serial;
      var i :| 0 <= i < |t.slots| && t.slots[i] == s;
    }
  }

  lemma OffIsInstalled(slots: seq<Option<Job>>, prev: Hash)
    ensures Off(slots, prev) <= Installed(slots)
  {
  }

  /** Marking the jobs off the previous block a place works on leaves its own job alone, and those of
      no place that the table does not know. */
  lemma MarkingKeepsKnown(t: Table, next: nat, place: Place, prev: Hash)
    requires JobKnown(t, next, place)
    requires place.Serving? && place.announced ==> place.job.prev == prev
    ensures JobKnown(MarkStaleOff(t, prev), next, place)
  {
    hide Off;
    if place.Announcing? || (place.Serving? && !place.announced) {
      NotInstalled(t.slots, place.job.serial);
    } else if place.Serving? {
      NotOff(t.slots, place.job);
    }
  }

  lemma PublishUnique(t: Table, job: Job, kind: Kind, keep: nat, now: nat)
    requires Unique(t.slots) && OnlyAs(t.slots, job) && !Refuses(t, job)
    requires forall i :: 0 <= i < |t.slots| && t.slots[i].Some? ==> t.slots[i].value.slot == i
    ensures Unique(Publish(t, job, kind, keep, now).slots)
  {
    hide Kept, Placed;
  }

  lemma PublishBelow(t: Table, job: Job, kind: Kind, keep: nat, now: nat, next: nat)
    requires Below(t, next) && job.serial < next && !Refuses(t, job)
    ensures Below(Publish(t, job, kind, keep, now), next)
  {
    hide Kept, Placed;
    OffIsInstalled(t.slots, job.prev);
    MarkedBelow(t, next, if kind == SubsidyOnly then Installed(t.slots) else Off(t.slots, job.prev));
  }

  /** A publication leaves the other thread's job as it was known. */
  lemma PublishKeepsKnown(t: Table, job: Job, kind: Kind, keep: nat, now: nat, next: nat, other: Place)
    requires JobKnown(t, next, other) && !Refuses(t, job)
    requires HasJob(other) ==> other.job.serial != job.serial
    requires other.Serving? && other.announced ==> other.job.prev == job.prev && kind == Pooled
    ensures JobKnown(Publish(t, job, kind, keep, now), next, other)
  {
    hide Kept, Placed, Off, Installed;
    if other.Announcing? || (other.Serving? && !other.announced) {
      NotInstalled(t.slots, other.job.serial);
    } else if other.Serving? {
      NotOff(t.slots, other.job);
    }
  }

  /** A publication leaves the job it serves unmarked, and there under its own serial alone. */
  lemma PublishedIsUnmarked(t: Table, job: Job, kind: Kind, keep: nat, now: nat)
    requires job.serial !in t.stale && !Refuses(t, job)
    requires if kind == SubsidyOnly then NotHeld(t.slots, job.serial) else OnlyAs(t.slots, job)
    ensures var after := Publish(t, job, kind, keep, now);
            job.serial !in after.stale && OnlyAs(after.slots, job)
  {
    hide Kept, Placed, Off, Installed;
    if kind == SubsidyOnly {
      NotInstalled(t.slots, job.serial);
    } else {
      NotOff(t.slots, job);
    }
  }

  lemma NotHeldIsOnlyAs(slots: seq<Option<Job>>, job: Job)
    requires NotHeld(slots, job.serial)
    ensures OnlyAs(slots, job)
  {
  }

  // ---- Every step keeps the marks right ----

  lemma TemplateBuildKeeps(s: State, outcome: Outcome)
    requires Inv(s) && Marks(s) && s.template.Building?
    ensures Marks(BuildStep(s, TemplateThread, outcome))
  {
    hide HistoryMatches, TableServes, Unique, OnlyAs, NotHeld, Off;
    if s.template.pooled && Awaiting(s.pool) {
      WaitingKeeps(s, s.template.prev);
    } else if outcome.Built? {
      FreshSerial(s.table, s.nextSerial);
    }
    BelowGrows(s.table, s.nextSerial);
  }

  lemma FreshSerial(t: Table, next: nat)
    requires Below(t, next)
    ensures next !in t.stale && NotHeld(t.slots, next)
  {
  }

  lemma BelowGrows(t: Table, next: nat)
    ensures Below(t, next) ==> Below(t, next + 1)
  {
  }

  /** Marking the jobs off the tip, or off another previous block while nothing rests on the tip. */
  lemma WaitingKeeps(s: State, prev: Hash)
    requires Inv(s) && Marks(s)
    requires Some(prev) != s.table.tip ==> !HasJob(s.template) && !ServedSinceTip(s.history)
    requires s.session.Idle? || s.session.Building? || Some(prev) == s.table.tip
    ensures Marks(s.(table := MarkStaleOff(s.table, prev)))
  {
    hide HistoryMatches, TableServes, Off, OnlyAs, NotHeld, Unique;
    MarkingKeepsKnown(s.table, s.nextSerial, s.template, prev);
    MarkingKeepsKnown(s.table, s.nextSerial, s.session, prev);
    OffIsInstalled(s.table.slots, prev);
    MarkedBelow(s.table, s.nextSerial, Off(s.table.slots, prev));
    if ServedSinceTip(s.history) {
      ServedIsItself(s.table);
      NotOff(s.table.slots, s.table.current.value.job);
    }
  }

  lemma ServedIsItself(t: Table)
    requires TableServes(t) && Unique(t.slots) && t.current.Some?
    ensures OnlyAs(t.slots, t.current.value.job)
  {
    InstalledOnlyAs(t.slots, t.current.value.job);
  }

  lemma SessionBuildKeeps(s: State, outcome: Outcome)
    requires Inv(s) && Marks(s) && s.session.Building?
    ensures Marks(BuildStep(s, SessionThread, outcome))
  {
    hide HistoryMatches, TableServes, Unique, OnlyAs, NotHeld, Off;
    if s.session.pooled && Awaiting(s.pool) {
      WaitingKeeps(s, s.session.prev);
    } else if outcome.Built? {
      FreshSerial(s.table, s.nextSerial);
    }
    BelowGrows(s.table, s.nextSerial);
  }

  /** What is true of the table once `thread` served `job`. */
  lemma PublicationKeeps(s: State, thread: Thread, job: Job, kind: Kind, now: nat)
    requires Inv(s) && Marks(s) && !Refuses(s.table, job) && s.table.tip == Some(job.prev)
    requires HasJob(At(s, thread)) && At(s, thread).job == job
    requires kind == SubsidyOnly <==> At(s, thread).Announcing?
    requires kind == SubsidyOnly ==> thread == TemplateThread
    ensures var other := if thread == TemplateThread then s.session else s.template;
            var after := Published(s, job, kind, now);
            && Unique(after.table.slots) && Below(after.table, s.nextSerial)
            && JobKnown(after.table, s.nextSerial, other)
            && job.serial !in after.table.stale && OnlyAs(after.table.slots, job)
            && ServedIsUnmarked(after.table, after.history)
  {
    hide HistoryMatches, Unique, OnlyAs, NotHeld, Off, Installed, Kept, Placed;
    var other := if thread == TemplateThread then s.session else s.template;
    if !(At(s, thread).Serving? && At(s, thread).announced) {
      NotHeldIsOnlyAs(s.table.slots, job);
    }
    PublishUnique(s.table, job, kind, s.keep, now);
    PublishBelow(s.table, job, kind, s.keep, now, s.nextSerial);
    PublishKeepsKnown(s.table, job, kind, s.keep, now, s.nextSerial, other);
    PublishedIsUnmarked(s.table, job, kind, s.keep, now);
  }

  lemma TemplateServeKeeps(s: State, now: nat)
    requires Inv(s) && Marks(s) && HasJob(s.template)
    ensures Marks(ServeStep(s, TemplateThread, now))
  {
    hide HistoryMatches, TableServes, Unique, Below, OnlyAs, NotHeld, Published;
    var kind := if s.template.Announcing? then SubsidyOnly else Pooled;
    PublicationKeeps(s, TemplateThread, s.template.job, kind, now);
    PublishedLeavesPlaces(s, s.template.job, kind, now);
    PublishedLeavesTip(s, s.template.job, kind, now);
  }

  lemma PublishedLeavesTip(s: State, job: Job, kind: Kind, now: nat)
    ensures Published(s, job, kind, now).table.tip == s.table.tip
    ensures Refuses(s.table, job) ==>
              Published(s, job, kind, now).table == s.table && Published(s, job, kind, now).history == s.history
  {
  }

  lemma SessionServeKeeps(s: State, now: nat)
    requires Inv(s) && Marks(s) && HasJob(s.session)
    ensures Marks(ServeStep(s, SessionThread, now))
  {
    hide HistoryMatches, TableServes, Unique, Below, OnlyAs, NotHeld, Published;
    var job := s.session.job;
    if !Refuses(s.table, job) {
      PublicationKeeps(s, SessionThread, job, Pooled, now);
    }
    PublishedLeavesPlaces(s, job, Pooled, now);
    PublishedLeavesTip(s, job, Pooled, now);
  }

  lemma ThreadStepKeeps(s: State, e: Event)
    requires Inv(s) && Marks(s) && !e.Build? && !e.Serve?
    ensures Marks(Step(s, e))
  {
    hide HistoryMatches, TableServes, Unique, OnlyAs, NotHeld;
  }

  lemma MarksKept(s: State, e: Event)
    requires Inv(s) && Marks(s)
    ensures Marks(Step(s, e))
  {
    hide Marks, Inv, BuildStep, ServeStep, TemplateStep, SessionStep;
    match e
    case Build(thread, outcome) =>
      if At(s, thread).Building? {
        if thread == TemplateThread {
          TemplateBuildKeeps(s, outcome);
        } else {
          SessionBuildKeeps(s, outcome);
        }
      }
    case Serve(thread, now) =>
      if !HasJob(At(s, thread)) {
        NothingToServe(s, thread, now);
      } else if thread == TemplateThread {
        TemplateServeKeeps(s, now);
      } else {
        SessionServeKeeps(s, now);
      }
    case _ => ThreadStepKeeps(s, e);
  }

  lemma NothingToServe(s: State, thread: Thread, now: nat)
    requires !HasJob(At(s, thread))
    ensures ServeStep(s, thread, now) == s
  {
  }

  lemma {:induction false} RunMarks(slots: pos, keep: nat, events: seq<Event>, n: nat)
    requires n <= |events|
    ensures Marks(After(slots, keep, events, n))
  {
    hide Step, Inv;
    if n > 0 {
      RunMarks(slots, keep, events, n - 1);
      RunKeeps(slots, keep, events, n - 1);
      MarksKept(After(slots, keep, events, n - 1), events[n - 1]);
    }
  }

  /** From its publication until the tip is next recorded, the work served is on the tip and not
      marked stale: no share on it is refused for its previous block. */
  lemma ServedWorkIsNotStale(slots: pos, keep: nat, events: seq<Event>, n: nat)
    requires n <= |events| && ServedSinceTip(After(slots, keep, events, n).history)
    ensures var t := After(slots, keep, events, n).table;
            && t.current.Some? && t.tip == Some(t.current.value.job.prev)
            && t.current.value.job.serial !in t.stale
  {
    hide After;
    RunMarks(slots, keep, events, n);
  }
}
