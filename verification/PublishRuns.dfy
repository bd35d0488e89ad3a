/** The template thread and the session thread building and serving work over one job table, one
    locked operation at a time. */
module PublishRuns {
  import opened Basics
  import opened JobTable

  /** Where a thread is. The template thread polls, takes the template, builds and serves, and may
      ask the pool for a split; the session thread builds and serves what the pool answered. `ask`
      says that a coinbaser request follows the build, `announced` that the job was served as empty
      work already, `pooled` whether the pool configuration was held when it was read. */
  datatype Place =
    | Idle
    | Polled(pooled: bool)
    | Building(prev: Hash, announces: bool, pooled: bool, ask: bool)
    | Announcing(job: Job, pooled: bool, ask: bool)
    | Serving(job: Job, announced: bool, pooled: bool, ask: bool)
    | Asking(prev: Hash, newBlock: bool)

  /** What the session thread holds about its connection: the configuration, whether it requires an
      assignment, whether one is held, and the coinbaser request not sent and not answered. */
  datatype Pool = Pool(configured: bool, required: bool, held: bool,
                       request: Option<Hash>, waiting: Option<Hash>)

  const DISCONNECTED := Pool(false, false, false, None, None)

  /** Work must commit to an assignment that has not arrived. */
  predicate Awaiting(pool: Pool) { pool.configured && pool.required && !pool.held }

  datatype Entry = TipSet(prev: Hash) | Served(publication: Publication)

  datatype State = State(table: Table, keep: nat, template: Place, session: Place, pool: Pool,
                         nextSerial: nat, history: seq<Entry>)

  datatype Outcome = Failed | Built(createdAt: nat)

  datatype Thread = TemplateThread | SessionThread

  datatype Event =
    | Poll
    | NothingNew
    | OnTemplate(prev: Hash, newBlock: bool)
    | Build(thread: Thread, outcome: Outcome)
    | Serve(thread: Thread, now: nat)
    | AskForSplit(worthAsking: bool)
    | Configured(required: bool)
    | Assigned(held: bool)
    | Disconnected
    | SentRequest
    | OnCoinbaser(nothingToServe: bool)

  function Start(slots: pos, keep: nat): State { State(Empty(slots), keep, Idle, Idle, DISCONNECTED, 0, []) }

  function At(s: State, thread: Thread): Place {
    if thread == TemplateThread then s.template else s.session
  }

  function Moved(s: State, thread: Thread, place: Place): State {
    if thread == TemplateThread then s.(template := place) else s.(session := place)
  }

  /** What follows a build, whether it served a job or not. */
  function Then(prev: Hash, ask: bool): Place { if ask then Asking(prev, true) else Idle }

  /** Taking a template sets the tip; its jobs come later, in steps of their own. */
  function Taken(s: State, prev: Hash, newBlock: bool, pooled: bool): State {
    s.(table := s.table.(tip := Some(prev)), history := s.history + [TipSet(prev)],
       template := if !pooled then Building(prev, newBlock, false, false)
                   else if newBlock then Building(prev, true, true, true)
                   else Asking(prev, false))
  }

  function BuildStep(s: State, thread: Thread, outcome: Outcome): State
    requires At(s, thread).Building?
  {
    var at := At(s, thread);
    if at.pooled && Awaiting(s.pool) then
      Moved(s.(table := MarkStaleOff(s.table, at.prev)), thread, Then(at.prev, at.ask))
    else if outcome.Failed? then
      Moved(s.(nextSerial := s.nextSerial + 1), thread, Then(at.prev, at.ask))
    else
      var slots := |s.table.slots|;
      var job := Job(s.nextSerial, if slots > 0 then s.nextSerial % slots else 0, at.prev, outcome.createdAt);
      Moved(s.(nextSerial := s.nextSerial + 1), thread,
            if at.announces then Announcing(job, at.pooled, at.ask) else Serving(job, false, at.pooled, at.ask))
  }

  function Published(s: State, job: Job, kind: Kind, now: nat): State {
    var table := Publish(s.table, job, kind, s.keep, now);
    s.(table := table,
       history := if table.current.None? || Refuses(s.table, job) then s.history
                  else s.history + [Served(table.current.value)])
  }

  function ServeStep(s: State, thread: Thread, now: nat): State {
    match At(s, thread)
    case Announcing(job, pooled, ask) =>
      Moved(Published(s, job, SubsidyOnly, now), thread,
            if Refuses(s.table, job) then Then(job.prev, ask) else Serving(job, true, pooled, ask))
    case Serving(job, _, _, ask) => Moved(Published(s, job, Pooled, now), thread, Then(job.prev, ask))
    case _ => s
  }

  function TemplateStep(s: State, e: Event): State {
    match e
    case Poll => if s.template.Idle? then s.(template := Polled(s.pool.configured)) else s
    case NothingNew => if s.template.Polled? then s.(template := Idle) else s
    case OnTemplate(prev, newBlock) => if s.template.Polled? then Taken(s, prev, newBlock, s.template.pooled) else s
    case AskForSplit(worthAsking) =>
      if !s.template.Asking? then s
      else if worthAsking && s.pool.configured then
        s.(template := Idle, pool := s.pool.(request := Some(s.template.prev)))
      else s.(template := if s.template.newBlock then Idle else Building(s.template.prev, false, true, false))
    case _ => s
  }

  /** What the session thread does between building jobs. */
  function SessionStep(s: State, e: Event): State
    requires s.session.Idle?
  {
    match e
    case Configured(required) =>
      s.(pool := s.pool.(configured := true, required := required,
                         held := s.pool.held && required == s.pool.required))
    case Assigned(held) => s.(pool := s.pool.(held := held))
    case Disconnected => s.(pool := DISCONNECTED)
    case SentRequest =>
      if s.pool.request.None? then s else s.(pool := s.pool.(request := None, waiting := s.pool.request))
    case OnCoinbaser(nothingToServe) =>
      if s.pool.waiting.None? then s
      else
        var prev, taken := s.pool.waiting.value, s.(pool := s.pool.(waiting := None));
        if s.table.tip != Some(prev) || nothingToServe then taken
        else taken.(session := Building(prev, false, s.pool.configured, false))
    case _ => s
  }

  /** One step; an event that the threads are not at leaves everything alone. */
  function Step(s: State, e: Event): State {
    match e
    case Build(thread, outcome) => if At(s, thread).Building? then BuildStep(s, thread, outcome) else s
    case Serve(thread, now) => ServeStep(s, thread, now)
    case Poll => TemplateStep(s, e)
    case NothingNew => TemplateStep(s, e)
    case OnTemplate(_, _) => TemplateStep(s, e)
    case AskForSplit(_) => TemplateStep(s, e)
    case _ => if s.session.Idle? then SessionStep(s, e) else s
  }

  function After(slots: pos, keep: nat, events: seq<Event>, n: nat): State
    requires n <= |events|
  {
    if n == 0 then Start(slots, keep) else Step(After(slots, keep, events, n - 1), events[n - 1])
  }

  // ---- The history of a run ----

  /** Where the last tip before place `n` was recorded. */
  function LastTip(h: seq<Entry>, n: nat): (at: Option<nat>)
    requires n <= |h|
    ensures at.Some? ==> at.value < n && h[at.value].TipSet?
  {
    if n == 0 then None else if h[n - 1].TipSet? then Some(n - 1) else LastTip(h, n - 1)
  }

  /** Every publication is on the tip recorded last before it. */
  predicate FollowsTips(h: seq<Entry>) {
    forall i :: 0 <= i < |h| && h[i].Served? ==>
      LastTip(h, i).Some? && h[i].publication.job.prev == h[LastTip(h, i).value].prev
  }

  /** How many publications the first `n` entries hold. */
  function ServedCount(h: seq<Entry>, n: nat): nat
    requires n <= |h|
  {
    if n == 0 then 0 else ServedCount(h, n - 1) + if h[n - 1].Served? then 1 else 0
  }

  /** Publications are numbered in order, from 1. */
  predicate Numbered(h: seq<Entry>) {
    forall i :: 0 <= i < |h| && h[i].Served? ==> h[i].publication.sequence == ServedCount(h, i) + 1
  }

  lemma {:induction false} LastTipOfPrefix(h: seq<Entry>, e: Entry, n: nat)
    requires n <= |h|
    ensures LastTip(h + [e], n) == LastTip(h, n) && ServedCount(h + [e], n) == ServedCount(h, n)
  {
    if n > 0 {
      LastTipOfPrefix(h, e, n - 1);
    }
  }

  lemma HistoryGrows(h: seq<Entry>, e: Entry)
    requires FollowsTips(h) && Numbered(h)
    requires e.Served? ==> LastTip(h, |h|).Some? && e.publication.job.prev == h[LastTip(h, |h|).value].prev
                           && e.publication.sequence == ServedCount(h, |h|) + 1
    ensures FollowsTips(h + [e]) && Numbered(h + [e])
    ensures LastTip(h + [e], |h| + 1) == if e.TipSet? then Some(|h|) else LastTip(h, |h|)
    ensures ServedCount(h + [e], |h| + 1) == ServedCount(h, |h|) + if e.Served? then 1 else 0
  {
    hide LastTip, ServedCount;
    forall i | 0 <= i <= |h|
      ensures LastTip(h + [e], i) == LastTip(h, i) && ServedCount(h + [e], i) == ServedCount(h, i)
    {
      LastTipOfPrefix(h, e, i);
    }
    LastOfGrown(h, e);
  }

  lemma LastOfGrown(h: seq<Entry>, e: Entry)
    ensures LastTip(h + [e], |h| + 1) == if e.TipSet? then Some(|h|) else LastTip(h + [e], |h|)
    ensures ServedCount(h + [e], |h| + 1) == ServedCount(h + [e], |h|) + if e.Served? then 1 else 0
  {
  }

  // ---- What every step keeps ----

  /** The history tells the table's tip and how often it published. */
  predicate HistoryMatches(h: seq<Entry>, tip: Option<Hash>, published: nat) {
    && FollowsTips(h) && Numbered(h)
    && ServedCount(h, |h|) == published
    && (match LastTip(h, |h|)
        case None => tip.None?
        case Some(at) => tip == Some(h[at].prev))
  }

  /** The previous block a place works on. */
  function PrevOf(place: Place): Option<Hash> {
    match place
    case Building(prev, _, _, _) => Some(prev)
    case Announcing(job, _, _) => Some(job.prev)
    case Serving(job, _, _, _) => Some(job.prev)
    case Asking(prev, _) => Some(prev)
    case _ => None
  }

  /** Only the template thread moves the tip, so what it works on is the tip; the session thread
      works only once there is one. */
  predicate TipsMatch(s: State) {
    && (PrevOf(s.template).Some? ==> s.table.tip == PrevOf(s.template))
    && (PrevOf(s.session).Some? ==> s.table.tip.Some?)
  }

  /** The work served is in its slot, and the jobs installed on another previous block than its are
      marked. */
  predicate TableServes(t: Table) {
    && (forall i :: 0 <= i < |t.slots| && t.slots[i].Some? ==> t.slots[i].value.slot == i)
    && (t.current.None? ==> forall i :: 0 <= i < |t.slots| ==> t.slots[i].None?)
    && (t.current.Some? ==>
          && t.current.value.sequence == t.published
          && t.current.value.job.slot < |t.slots| && t.slots[t.current.value.job.slot] == Some(t.current.value.job)
          && forall i :: 0 <= i < |t.slots| && t.slots[i].Some? ==>
               t.slots[i].value.prev == t.current.value.job.prev || t.slots[i].value.serial in t.stale)
  }

  predicate JobFits(slots: nat, place: Place) {
    match place
    case Announcing(job, _, _) => job.slot < slots
    case Serving(job, _, _, _) => job.slot < slots
    case _ => true
  }

  predicate Inv(s: State) {
    && |s.table.slots| > 0 && HistoryMatches(s.history, s.table.tip, s.table.published)
    && TipsMatch(s) && TableServes(s.table)
    && JobFits(|s.table.slots|, s.template) && JobFits(|s.table.slots|, s.session)
  }

  lemma MarkingServes(t: Table, prev: Hash)
    requires TableServes(t)
    ensures TableServes(MarkStaleOff(t, prev))
  {
    hide Off;
  }

  lemma PublishServes(t: Table, job: Job, kind: Kind, keep: nat, now: nat)
    requires TableServes(t) && job.slot < |t.slots|
    ensures TableServes(Publish(t, job, kind, keep, now))
  {
    hide Kept, Placed;
    var after := Publish(t, job, kind, keep, now);
    if !Refuses(t, job) {
      forall i | 0 <= i < |after.slots| && after.slots[i].Some?
        ensures after.slots[i].value.slot == i
        ensures after.slots[i].value.prev == job.prev || after.slots[i].value.serial in after.stale
      {
        assert i != job.slot ==> after.slots[i] == t.slots[i] && t.slots[i] in t.slots;
      }
    }
  }

  lemma TipSetKeeps(h: seq<Entry>, tip: Option<Hash>, published: nat, prev: Hash)
    requires HistoryMatches(h, tip, published)
    ensures HistoryMatches(h + [TipSet(prev)], Some(prev), published)
  {
    hide FollowsTips, Numbered, LastTip, ServedCount;
    HistoryGrows(h, TipSet(prev));
  }

  lemma ServedKeeps(h: seq<Entry>, tip: Option<Hash>, published: nat, p: Publication)
    requires HistoryMatches(h, tip, published) && tip == Some(p.job.prev) && p.sequence == published + 1
    ensures HistoryMatches(h + [Served(p)], tip, published + 1)
  {
    hide FollowsTips, Numbered, LastTip, ServedCount;
    HistoryGrows(h, Served(p));
  }

  lemma PublishedKeeps(s: State, job: Job, kind: Kind, now: nat)
    requires Inv(s) && s.table.tip.Some? && job.slot < |s.table.slots|
    ensures Inv(Published(s, job, kind, now))
    ensures Published(s, job, kind, now).table.tip == s.table.tip
    ensures |Published(s, job, kind, now).table.slots| == |s.table.slots|
  {
    hide TableServes, HistoryMatches, Kept, Placed;
    PublishServes(s.table, job, kind, s.keep, now);
    if !Refuses(s.table, job) {
      ServedKeeps(s.history, s.table.tip, s.table.published, Publication(job, kind, s.table.published + 1));
    }
  }

  lemma StepKeeps(s: State, e: Event)
    requires Inv(s)
    ensures Inv(Step(s, e)) && |Step(s, e).table.slots| == |s.table.slots|
  {
    hide TableServes, HistoryMatches, Published, Off;
    match e
    case OnTemplate(prev, _) =>
      TipSetKeeps(s.history, s.table.tip, s.table.published, prev);
      TipLeavesSlots(s.table, prev);
    case Build(thread, _) =>
      if At(s, thread).Building? {
        MarkingServes(s.table, At(s, thread).prev);
      }
    case Serve(thread, now) =>
      if At(s, thread).Announcing? {
        PublishedKeeps(s, At(s, thread).job, SubsidyOnly, now);
        PublishedLeavesPlaces(s, At(s, thread).job, SubsidyOnly, now);
      } else if At(s, thread).Serving? {
        PublishedKeeps(s, At(s, thread).job, Pooled, now);
        PublishedLeavesPlaces(s, At(s, thread).job, Pooled, now);
      }
    case _ =>
  }

  lemma TipLeavesSlots(t: Table, prev: Hash)
    requires TableServes(t)
    ensures TableServes(t.(tip := Some(prev)))
  {
  }

  lemma PublishedLeavesPlaces(s: State, job: Job, kind: Kind, now: nat)
    ensures var after := Published(s, job, kind, now);
            after.template == s.template && after.session == s.session && after.keep == s.keep
            && after.nextSerial == s.nextSerial && after.pool == s.pool
  {
  }

  lemma {:induction false} RunKeeps(slots: pos, keep: nat, events: seq<Event>, n: nat)
    requires n <= |events|
    ensures Inv(After(slots, keep, events, n)) && |After(slots, keep, events, n).table.slots| == slots
  {
    hide Step;
    if n > 0 {
      RunKeeps(slots, keep, events, n - 1);
      StepKeeps(After(slots, keep, events, n - 1), events[n - 1]);
    }
  }

  lemma {:induction false} LastTipGrows(h: seq<Entry>, i: nat, j: nat)
    requires i <= j <= |h| && LastTip(h, i).Some?
    ensures LastTip(h, j).Some? && LastTip(h, i).value <= LastTip(h, j).value
  {
    if i < j {
      LastTipGrows(h, i, j - 1);
    }
  }

  lemma {:induction false} ServedCountGrows(h: seq<Entry>, i: nat, j: nat)
    requires i < j <= |h|
    ensures ServedCount(h, i) + (if h[i].Served? then 1 else 0) <= ServedCount(h, j)
  {
    if i + 1 < j {
      ServedCountGrows(h, i, j - 1);
    }
  }

  /** Whatever way the two threads interleave, each publication is on the tip recorded last before
      it, publications come in the order of those tips, and their sequence numbers rise. */
  lemma ServedWorkFollowsTheTips(slots: pos, keep: nat, events: seq<Event>, n: nat, i: nat, j: nat)
    requires n <= |events|
    requires var h := After(slots, keep, events, n).history; i < j < |h| && h[i].Served? && h[j].Served?
    ensures var h := After(slots, keep, events, n).history;
            && LastTip(h, i).Some? && LastTip(h, j).Some? && LastTip(h, i).value <= LastTip(h, j).value
            && h[i].publication.job.prev == h[LastTip(h, i).value].prev
            && h[j].publication.job.prev == h[LastTip(h, j).value].prev
            && h[i].publication.sequence < h[j].publication.sequence
  {
    hide After, LastTip, ServedCount;
    RunKeeps(slots, keep, events, n);
    var h := After(slots, keep, events, n).history;
    LastTipGrows(h, i, j);
    ServedCountGrows(h, i, j);
  }

  /** In every reachable state the work served can be named by its slot, and every installed job on
      another previous block than its is marked stale. */
  lemma OtherWorkIsStale(slots: pos, keep: nat, events: seq<Event>, n: nat, i: nat)
    requires n <= |events| && i < slots
    ensures var t := After(slots, keep, events, n).table;
            && |t.slots| == slots
            && (t.current.Some? ==>
                  && t.current.value.job.slot < slots
                  && t.slots[t.current.value.job.slot] == Some(t.current.value.job)
                  && (t.slots[i].Some? && t.slots[i].value.prev != t.current.value.job.prev ==>
                        t.slots[i].value.serial in t.stale))
            && (t.current.None? ==> t.slots[i].None?)
  {
    hide After, HistoryMatches;
    RunKeeps(slots, keep, events, n);
  }

  /** The template thread's own jobs are never refused. */
  lemma TemplateJobsAreNeverRefused(slots: pos, keep: nat, events: seq<Event>, n: nat)
    requires n <= |events|
    ensures var s := After(slots, keep, events, n);
            (s.template.Announcing? || s.template.Serving?) ==> !Refuses(s.table, s.template.job)
  {
    hide After, HistoryMatches, TableServes;
    RunKeeps(slots, keep, events, n);
  }
}
