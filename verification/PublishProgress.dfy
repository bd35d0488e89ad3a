/** That the threads get their work out: what is served for a template, and for the pool's answer, whatever
    the other thread does meanwhile. */
module PublishProgress {
  import opened Basics
  import opened JobTable
  import opened PublishRuns

  function Ran(s: State, events: seq<Event>): State
    decreases |events|
  {
    if events == [] then s else Ran(Step(s, events[0]), events[1..])
  }

  function ThreadOf(e: Event): Thread {
    match e
    case Build(thread, _) => thread
    case Serve(thread, _) => thread
    case Poll => TemplateThread
    case NothingNew => TemplateThread
    case OnTemplate(_, _) => TemplateThread
    case AskForSplit(_) => TemplateThread
    case _ => SessionThread
  }

  ghost predicate Without(events: seq<Event>, thread: Thread) { forall e <- events :: ThreadOf(e) != thread }

  /** What a thread finds after events of the other: its own place and all that was served before; the template
      thread also the tip, and the session thread its connection and the answer it waits for. */
  ghost predicate Undisturbed(before: State, after: State, thread: Thread) {
    && At(after, thread) == At(before, thread) && before.history <= after.history && |after.table.slots| == |before.table.slots|
    && (thread == TemplateThread ==> after.table.tip == before.table.tip)
    && (thread == SessionThread ==>
          && after.pool.waiting == before.pool.waiting
          && after.pool.configured == before.pool.configured && after.pool.required == before.pool.required
          && after.pool.held == before.pool.held)
  }

  lemma OtherStep(s: State, e: Event, thread: Thread)
    requires ThreadOf(e) != thread
    ensures Undisturbed(s, Step(s, e), thread)
  {
    hide MarkStaleOff, Publish, Refuses;
    TablesTip(s, e);
  }

  lemma TablesTip(s: State, e: Event)
    ensures |Step(s, e).table.slots| == |s.table.slots| && (!e.OnTemplate? ==> Step(s, e).table.tip == s.table.tip)
  {
    hide Off, Installed;
  }

  lemma {:induction false} OthersKeep(s: State, events: seq<Event>, thread: Thread)
    requires Without(events, thread)
    ensures Undisturbed(s, Ran(s, events), thread)
    ensures (forall e <- events :: !e.OnTemplate?) ==> Ran(s, events).table.tip == s.table.tip
    decreases |events|
  {
    hide Step;
    if events != [] {
      OtherStep(s, events[0], thread);
      TablesTip(s, events[0]);
      OthersKeep(Step(s, events[0]), events[1..], thread);
    }
  }

  /** Nothing can be built on the pool's terms yet: an assignment is required and none is held. */
  ghost predicate MustWait(s: State, pooled: bool) {
    pooled && s.pool.configured && s.pool.required && !s.pool.held
  }

  /** What a build that succeeds leaves its thread at: the next job, in its slot, to be announced or served. */
  ghost predicate HoldsNext(place: Place, s: State, at: Place, createdAt: nat)
    requires at.Building?
  {
    && |s.table.slots| > 0
    && var job := Job(s.nextSerial, s.nextSerial % |s.table.slots|, at.prev, createdAt);
       place == if at.announces then Announcing(job, at.pooled, at.ask) else Serving(job, false, at.pooled, at.ask)
  }

  lemma BuiltIsHeld(s: State, thread: Thread, createdAt: nat)
    requires |s.table.slots| > 0 && At(s, thread).Building? && !MustWait(s, At(s, thread).pooled)
    ensures var at, after := At(s, thread), Step(s, Build(thread, Built(createdAt)));
      && HoldsNext(At(after, thread), s, at, createdAt)
      && after.table == s.table && after.history == s.history && after.pool == s.pool
      && after.nextSerial == s.nextSerial + 1
  {
  }

  /** A build that fails serves nothing, and one that must wait for an assignment serves nothing and ends the work
      on every tip before; the thread goes on as after a build, to ask for the split or to rest. */
  lemma FailedBuildsServeNothing(s: State, thread: Thread, outcome: Outcome)
    requires At(s, thread).Building? && (outcome.Failed? || MustWait(s, At(s, thread).pooled))
    ensures var at, after := At(s, thread), Step(s, Build(thread, outcome));
      && after.history == s.history && after.table.slots == s.table.slots && after.table.current == s.table.current
      && At(after, thread) == (if at.ask then Asking(at.prev, true) else Idle)
      && (forall n: nat :: n in after.table.stale <==>
            n in s.table.stale || (MustWait(s, at.pooled) && EndsAny(s.table.slots, at.prev, n)))
      && after.nextSerial == s.nextSerial + (if MustWait(s, at.pooled) then 0 else 1)
  {
    hide MarkStaleOff;
    forall n: nat
      ensures n in MarkStaleOff(s.table, At(s, thread).prev).stale <==>
        n in s.table.stale || EndsAny(s.table.slots, At(s, thread).prev, n)
    {
      MarkedOff(s.table, At(s, thread).prev, n);
    }
    MarksAlone(s.table, At(s, thread).prev);
  }

  /** Job `n` is installed, on another previous block. */
  ghost predicate EndsAny(slots: seq<Option<Job>>, prev: Hash, n: nat) {
    exists i :: 0 <= i < |slots| && EndedBy(slots[i], prev, Pooled, n)
  }

  lemma MarksAlone(t: Table, prev: Hash)
    ensures MarkStaleOff(t, prev).slots == t.slots && MarkStaleOff(t, prev).current == t.current
  {
  }

  lemma ServedIsLast(s: State, job: Job, kind: Kind, now: nat)
    requires s.table.tip.None? || s.table.tip == Some(job.prev)
    ensures var after := Published(s, job, kind, now);
      && after.history == s.history + [Served(Publication(job, kind, s.table.published + 1))]
      && after.table.tip == s.table.tip && after.template == s.template && after.session == s.session
      && after.pool == s.pool
  {
    hide Kept, Placed, Off, Installed;
  }

  /** A publication of this kind on `prev`, of a job made then. */
  ghost predicate Serves(e: Entry, prev: Hash, createdAt: nat, kind: Kind) {
    e.Served? && e.publication.job.prev == prev && e.publication.job.createdAt == createdAt && e.publication.kind == kind
  }

  /** The history from `before` on ends with such a publication. */
  ghost predicate EndsServing(before: seq<Entry>, h: seq<Entry>, prev: Hash, createdAt: nat, kind: Kind) {
    before < h && Serves(h[|h| - 1], prev, createdAt, kind)
  }

  /** Two histories end with publications of one job. */
  ghost predicate OneJob(a: seq<Entry>, b: seq<Entry>) {
    && a != [] && a[|a| - 1].Served? && b != [] && b[|b| - 1].Served?
    && a[|a| - 1].publication.job == b[|b| - 1].publication.job
  }

  /** A template on a new block is served twice, whatever the session thread does between the steps: first as work
      that pays the subsidy alone, then the same job with the pool's outputs; and a pool is asked for
      its split after that. */
  lemma NewBlocksAreServedTwice(
    s: State, prev: Hash, a: seq<Event>, createdAt: nat, b: seq<Event>, first: nat, c: seq<Event>, second: nat)
    requires s.template.Polled? && |s.table.slots| > 0
    requires Without(a, TemplateThread) && Without(b, TemplateThread) && Without(c, TemplateThread)
    requires !MustWait(Ran(Step(s, OnTemplate(prev, true)), a), s.template.pooled)
    ensures var built := Step(Ran(Step(s, OnTemplate(prev, true)), a), Build(TemplateThread, Built(createdAt)));
      var announced := Step(Ran(built, b), Serve(TemplateThread, first));
      var end := Step(Ran(announced, c), Serve(TemplateThread, second));
      && end.template == (if s.template.pooled then Asking(prev, true) else Idle)
      && EndsServing(s.history + [TipSet(prev)], announced.history, prev, createdAt, SubsidyOnly)
      && EndsServing(announced.history, end.history, prev, createdAt, Pooled)
      && OneJob(announced.history, end.history)
  {
    hide MustWait, Ran, Published;
    var taken := Step(s, OnTemplate(prev, true));
    var pooled := s.template.pooled;
    assert taken.template == Building(prev, true, pooled, pooled);
    OthersKeep(taken, a, TemplateThread);
    var ready := Ran(taken, a);
    BuiltIsHeld(ready, TemplateThread, createdAt);
    var built := Step(ready, Build(TemplateThread, Built(createdAt)));
    OthersKeep(built, b, TemplateThread);
    var held := Ran(built, b);
    var job := held.template.job;
    ServedIsLast(held, job, SubsidyOnly, first);
    var announced := Step(held, Serve(TemplateThread, first));
    OthersKeep(announced, c, TemplateThread);
    var resting := Ran(announced, c);
    ServedIsLast(resting, job, Pooled, second);
  }

  /** A template on the tip already served, without a pool to ask, is served once, under the pool's kind. */
  lemma RefreshesAreServedOnce(s: State, prev: Hash, a: seq<Event>, createdAt: nat, b: seq<Event>, now: nat)
    requires s.template == Polled(false) && |s.table.slots| > 0
    requires Without(a, TemplateThread) && Without(b, TemplateThread)
    ensures var built := Step(Ran(Step(s, OnTemplate(prev, false)), a), Build(TemplateThread, Built(createdAt)));
      var end := Step(Ran(built, b), Serve(TemplateThread, now));
      && end.template == Idle
      && EndsServing(s.history + [TipSet(prev)], end.history, prev, createdAt, Pooled)
  {
    hide Ran, Published;
    var taken := Step(s, OnTemplate(prev, false));
    assert taken.template == Building(prev, false, false, false);
    OthersKeep(taken, a, TemplateThread);
    var ready := Ran(taken, a);
    BuiltIsHeld(ready, TemplateThread, createdAt);
    var built := Step(ready, Build(TemplateThread, Built(createdAt)));
    OthersKeep(built, b, TemplateThread);
    var held := Ran(built, b);
    ServedIsLast(held, held.template.job, Pooled, now);
  }

  /** With a pool it is asked for the split first; if the split is not worth asking for, or the pool is gone, the
      work is built at once unless empty work was served already. */
  lemma PooledRefreshesAsk(s: State, prev: Hash, a: seq<Event>, worthAsking: bool)
    requires s.template == Polled(true) && Without(a, TemplateThread)
    ensures var asking := Ran(Step(s, OnTemplate(prev, false)), a);
      var asked := Step(asking, AskForSplit(worthAsking));
      && asking.template == Asking(prev, false) && asking.table.tip == Some(prev)
      && if worthAsking && asking.pool.configured then asked.template == Idle && asked.pool.request == Some(prev)
         else asked.template == Building(prev, false, true, false) && asked.pool == asking.pool
  {
    hide Ran;
    OthersKeep(Step(s, OnTemplate(prev, false)), a, TemplateThread);
  }

  lemma NewBlocksAsk(s: State, worthAsking: bool)
    requires s.template.Asking? && s.template.newBlock
    ensures var asked := Step(s, AskForSplit(worthAsking));
      && asked.template == Idle && asked.history == s.history && asked.table == s.table
      && asked.pool == (if worthAsking && s.pool.configured then s.pool.(request := Some(s.template.prev)) else s.pool)
  {
  }

  /** The pool's answer is served, whatever the template thread does meanwhile short of taking another
      template. */
  lemma AnswersAreServed(s: State, prev: Hash, a: seq<Event>, b: seq<Event>, createdAt: nat, c: seq<Event>, now: nat)
    requires s.session.Idle? && s.pool.request == Some(prev) && s.table.tip == Some(prev) && |s.table.slots| > 0
    requires Without(a, SessionThread) && Without(b, SessionThread) && Without(c, SessionThread)
    requires forall e <- a + b + c :: !e.OnTemplate?
    requires var ready := Ran(Step(Ran(Step(s, SentRequest), a), OnCoinbaser(false)), b);
      !MustWait(ready, s.pool.configured)
    ensures var ready := Ran(Step(Ran(Step(s, SentRequest), a), OnCoinbaser(false)), b);
      var end := Step(Ran(Step(ready, Build(SessionThread, Built(createdAt))), c), Serve(SessionThread, now));
      && end.session == Idle && end.pool.waiting.None?
      && EndsServing(s.history, end.history, prev, createdAt, Pooled)
  {
    hide Ran, Published, MustWait;
    assert (forall e <- a :: !e.OnTemplate?) && (forall e <- b :: !e.OnTemplate?) && (forall e <- c :: !e.OnTemplate?);
    var sent := Step(s, SentRequest);
    OthersKeep(sent, a, SessionThread);
    var asked := Ran(sent, a);
    var taken := Step(asked, OnCoinbaser(false));
    assert taken.session == Building(prev, false, s.pool.configured, false);
    OthersKeep(taken, b, SessionThread);
    var ready := Ran(taken, b);
    BuiltIsHeld(ready, SessionThread, createdAt);
    var built := Step(ready, Build(SessionThread, Built(createdAt)));
    OthersKeep(built, c, SessionThread);
    var held := Ran(built, c);
    ServedIsLast(held, held.session.job, Pooled, now);
  }

  /** An answer for a tip that has passed, or with nothing to serve, is dropped; so is the job of one built when its tip passed
      before it was served. */
  lemma LateAnswersAreDropped(s: State, nothingToServe: bool, now: nat)
    requires s.table.tip.Some?
    ensures s.session.Idle? && s.pool.waiting.Some? && (nothingToServe || s.table.tip != s.pool.waiting) ==>
      Step(s, OnCoinbaser(nothingToServe)) == s.(pool := s.pool.(waiting := None))
    ensures s.session.Serving? && !s.session.ask && s.table.tip != Some(s.session.job.prev) ==>
      Step(s, Serve(SessionThread, now)) == s.(session := Idle)
  {
    hide Kept, Placed, Off, Installed;
  }

  /** An assignment is lost with its connection, and when the pool's configuration changes whether one is required; and
      with the connection goes every request. */
  lemma ConfigurationForgets(s: State, required: bool)
    requires s.session.Idle?
    ensures var after := Step(s, Configured(required)).pool;
      && after.configured && after.required == required && (after.held <==> s.pool.held && required == s.pool.required)
      && after.request == s.pool.request && after.waiting == s.pool.waiting
    ensures var gone := Step(s, Disconnected).pool;
      !gone.configured && !gone.required && !gone.held && gone.request.None? && gone.waiting.None?
    ensures forall held :: Step(s, Assigned(held)).pool == s.pool.(held := held)
  {
  }

  /** A request goes out once: after it is sent there is none to send, and sending then changes nothing. */
  lemma RequestsAreSentOnce(s: State)
    requires s.session.Idle?
    ensures var sent := Step(s, SentRequest);
      && sent.pool.request.None? && Step(sent, SentRequest) == sent
      && sent.pool.waiting == (if s.pool.request.Some? then s.pool.request else s.pool.waiting)
      && sent.table == s.table && sent.history == s.history
  {
  }

  /** A poll notes whether there is a pool, and one that finds nothing leaves everything as it was; a template comes
      from a poll only. */
  lemma PollsAreQuiet(s: State, prev: Hash, newBlock: bool)
    ensures s.template.Idle? ==>
      Step(s, Poll) == s.(template := Polled(s.pool.configured)) && Step(Step(s, Poll), NothingNew) == s
    ensures !s.template.Idle? ==> Step(s, Poll) == s
    ensures !s.template.Polled? ==> Step(s, OnTemplate(prev, newBlock)) == s && Step(s, NothingNew) == s
  {
  }
}
