# Ratum verification

A Dafny model of the parts of Ratum that decide who is paid and what counts as work: the mining
pool (`prime`), its gateway (`gateway`) and their shared library (`core`). Each part is written
down as values and steps, the state the source updates in place is a class whose methods are
proved to take exactly those steps, and what the source promises is proved about the steps: for
every input, every run and every interleaving. `dafny verify dfyconfig.toml` checks the project.

## What is modelled

**The share window.** `ShareWindow` defines the window as a function of the recorded history: the
shortest suffix whose work reaches the window, cut to a count. `WindowContents` keeps it
incrementally, with interned identities and a free list, `LedgerStore` holds the rows on disk,
`LedgerRuns` is the ledger as a state machine and `LedgerObject` the object that refines it. The
main result is `LedgerRuns.WindowIsExactIff`: under records, store failures, narrowing, widening,
retention and re-reads that run off the lock while shares keep arriving, the window is exactly the
function of the rows in every state, if and only if retention always leaves it; a sound store does.
What retention may remove from under a widening is `LedgerRuns.TrueWindowIsKeptIff`, and that a
re-read settles it `LedgerRuns.RereadSettlesIff`.
`WorkSince` is the work of the newest shares, in all and by identity.

**Payouts.** `Split` is the exact split, `SplitInPool` the pool's own loops over 128-bit products
that saturate, the operator's fee and the scaling of what is owed. `WindowPayouts` ties both to the
window: the split is a function of the shares held and the value alone.

**Anti-block-withholding slots.** `AbwSlots` are the slots as values with the wake-up time,
`AbwObject` the arrays updated in place, `AbwRuns` whole runs beside an observer who sees only what
leaves the pool: which key is in which slot, and when it is sent. `BoundedMaps` and `Sessions` keep
the sessions between connections: found again by their token, claimed once, out of reach of a copied
hello.

**Credit once.** `AcceptedHashes` is the expiring table of accepted hashes, `CreditOnce` follows
every run of shares sent, resent, held, recorded, released and retained away, over restarts: a share
sent in time is claimed exactly when no claim of it stands.

**Consensus arithmetic.** `Merkle` (any pair hash, injective where a result says so), `CompactSize`,
`Target` and `TargetShift` over 32-byte targets read as big-endian numbers, `PowersOfTwo`,
`NonceSearch` as threads that take turns in any order.

**The gateway.** `JobTable`, `PublishRuns`, `PublishMarks` and `PublishProgress` are the job table
under the template thread and the session thread, one locked operation at a time: what is never
served, and what always is; `JobTableObject` is the table of shared job objects. `Vardiff`,
`VardiffRuns` and `VardiffObject` are a connection's difficulty, `SeenShares` the duplicate table,
`StratumDifficulty` the announced decimal, `MinimumDifficulty` the configured one, `CivilDates` the
date of a log line.

**The pool's housekeeping and the status interfaces.** `Confirmations` is the round robin that
re-reads found blocks, `HttpHeaders` and `HttpRead` the reading of one request however its bytes
arrive, `UrlRedaction` the hiding of a URL's password.

`Basics`, `Arithmetic`, `Bytes`, `Decimals`, `Weights` and `Sorting` hold what the parts share.

## What the model found

- Retention counts rows while its floor counts shares (`prime/src/ledger/store.rs:231-248`). With a
  row that does not unpack among the newest, it can remove a share the window still holds
  (`LedgerRuns.UnreadableRowsBreakTheFloor`), and from then on the window is not what the rows say.
  `LedgerRuns.WindowIsExactIff` is the exact condition over runs; a store whose rows all unpack, or
  that keeps every row, always meets it (`LedgerRuns.WindowIsExactOnEveryRun`).
- Retention waits for a re-read that runs, not for one that is due (`prime/src/ledger.rs:515-522`). The
  ledger lock is free between a widening and its re-read (`prime/src/node.rs:212-218`), and a failed
  read leaves one due; retention after a batch recorded then still has the narrower floor, and can take
  shares out from under the wider window even when every row unpacks (`LedgerRuns.WideningCanLoseShares`).
  Those batches are the only ones that can (`LedgerRuns.TrueWindowIsKeptIff`), and while they leave
  enough a widening is honoured in full (`LedgerRuns.WideningIsHonoured`).
- The ten minutes `CLOCK_STEP_MARGIN_SECS` adds (`prime/src/accounting.rs:20-29`) cover a clock that
  steps back while the pool stays up. Across a restart they must cover three things together: the
  later step, the disorder among the rows, because the read back stops at the first older row, and
  the time a share waits for its parent, because it is claimed when it is released but recorded under
  its arrival (`prime/src/connection/shares.rs:843-850`). Rows fall out of order without any step,
  since shares wait for transactions and commits. The three may total ten minutes and no more, in
  whatever parts: `CreditOnce.MarginsSufficeIff`.
- The split's products saturate at 128 bits (`prime/src/ledger/split.rs:71-84`). While the value times
  the work of each identity fits, the pool's split is the exact one. Past that only the last product
  decides whether value is lost (`SplitInPool.CascadePaysAllIff`); an identity alone in the window is
  paid the whole value exactly when the value times its work fits (`SplitInPool.AloneIsPaidTheValueIff`).
- `next_due` (`prime/src/abw.rs:233-243`) does not know the share count: the wake-up time is exact but
  for a rotation that the count alone asks for. `AbwSlots.NextDueIsExact` states both sides.
- `due`'s comment (`prime/src/confirmations.rs:27-31`) promises a read within
  `ceil(due / MAX_PER_PASS)` passes. That holds while reads are answered; a read that fails keeps its
  place at the front, and a block further back moves up by exactly the blocks ahead that were answered
  or voided. `Confirmations.TriedIff` says when a block is first tried, and
  `Confirmations.TheLastOf33Starves` is a run in which one never is: 32 blocks that always fail hold
  back the rest.
- A marker for a tip no job can be built on (`gateway/src/publish.rs:64-72`) never marks the work
  already served on that tip, whatever the two threads do, because only the session thread changes
  whether an assignment is awaited (`PublishMarks.ServedWorkIsNotStale`).
- Doubling a difficulty of 2^63 shifts it out (`gateway/src/vardiff.rs:145`); the next notify can then
  announce a floor below the configured minimum (`Vardiff.DoublingTheLargestAnnouncesTheFloor`), and
  notifies after it can announce further floors below it. No other run announces less than the minimum
  (`Vardiff.EverBelowTheMinimumIff`).
- `work_since`'s comment (`prime/src/ledger.rs:544`) names the shares accepted at or after a cutoff. The
  scan stops at the first older one, so the two agree exactly when none of those shares stands before
  an older one (`WorkSince.SinceIsAllOfThemIff`); one share recorded late hides the newer ones before it
  (`WorkSince.OneOutOfOrderHidesTheRest`).

## Model

| member | source | states |
|---|---|---|
| ShareWindow.NeedIsShortest | prime/src/ledger/store.rs:262-298 | the newest n rows reach the window's work exactly when n is at least `Need`, unless no suffix does: the window is the shortest suffix |
| ShareWindow.WindowOfSuffix | prime/src/ledger.rs:342-362 | a suffix that holds the window has the same window, and a shorter one has its own share of it |
| ShareWindow.WindowOfPush | prime/src/ledger.rs:511-514 | pushing onto the window and trimming gives the window over the longer history |
| ShareWindow.WindowOfNarrower | prime/src/ledger.rs:377-383 | narrowing the window held gives the narrower window over the whole history |
| ShareWindow.NeedAfterDrop | prime/src/ledger.rs:229-237 | the oldest share may go exactly when the rest still reach the work |
| WindowContents.Identities.IndexOf | prime/src/ledger.rs:138-157 | a held name keeps its index; a new one takes a released index or a new one, no other entry changes, and names and live indices stay in bijection with the vacant indices all free |
| WindowContents.Identities.Release | prime/src/ledger.rs:167-172 | a released index is vacant and free, its name unknown, the bijection kept |
| WindowContents.Identities.Credit | prime/src/ledger.rs:207-213 | one identity's entry gains the share's work, count and tag and no other entry changes |
| WindowContents.Identities.Debit | prime/src/ledger.rs:243-254 | one identity's entry loses a share, and its index with its last share; no subtraction goes below zero |
| WindowContents.PushAgrees | prime/src/ledger.rs:207-225 | after a push the queue and the table still stand for the shares held: each identity's work, count and newest tag are those of its own shares |
| WindowContents.DropAgrees | prime/src/ledger.rs:243-254 | the same after the oldest share leaves, whether or not it was its identity's last |
| WindowContents.Contents.Push | prime/src/ledger.rs:207-225 | the shares held gain exactly this one, and no more than one index past the count bound is ever made |
| WindowContents.Contents.DropOldest | prime/src/ledger.rs:243-254 | exactly the oldest share leaves, and nothing when there is none |
| WindowContents.Contents.TrimToWork | prime/src/ledger.rs:229-237 | stopping at the first share that cannot go leaves the shortest suffix that reaches the work |
| WindowContents.Contents.Trim | prime/src/ledger.rs:229-241 | the in-place trim leaves exactly the window over what was held |
| WindowContents.Contents.IndicesAtMostShares | prime/src/ledger.rs:83-86 | with no index free there are no more indices than shares in the window |
| WindowContents.Contents.Weights | prime/src/ledger/split.rs:95-105 | each identity with a share in the window is listed once with the work of its shares, and the weights total the window's work |
| WindowContents.WeightsTotalTheWindow | prime/src/ledger/split.rs:40-42 | the weights of a window total its work, in whatever order |
| WindowContents.WeightsAreDetermined | prime/src/ledger/split.rs:95-105 | the same shares have the same weights whatever indices their identities were given |
| WorkSince.TotalSince | prime/src/ledger.rs:540-547 | the work of the newest shares back to the first accepted before the cutoff |
| WorkSince.TotalSinceByIdentity | prime/src/ledger.rs:551-558 | the same by identity: each identity with such a share once, with the work of its own, and together all of it |
| WorkSince.SinceIsAllOfThemIff | prime/src/ledger.rs:539-547 | the scan finds all the shares accepted at or after the cutoff exactly when none of them stands before an older one |
| WorkSince.SinceIsAllForEveryCutoffIff | prime/src/ledger.rs:539-547 | it does so for every cutoff exactly when the shares are in order of their 32-bit times |
| WorkSince.TimesTellThem | prime/src/ledger.rs:80-93 | the 32-bit times tell exactly the shares accepted at or after a cutoff, for every cutoff that fits in 32 bits |
| WorkSince.OneOutOfOrderHidesTheRest | prime/src/ledger.rs:539-547 | a share recorded late hides a newer one from the scan |
| LedgerStore.Store.InsertBatch | prime/src/ledger/store.rs:157-179 | what every reader reads back grows by exactly the batch, or by nothing, and the counter goes with it, whatever rows do not unpack |
| LedgerStore.Store.Retain | prime/src/ledger/store.rs:212-259 | only oldest rows go, none past the surplus over both floors, and none from the first row the duplicate check still reads back |
| LedgerStore.RetentionLeaves | prime/src/ledger/store.rs:212-248 | the rows asked for and the window's are left, at most 4096 go a call, and retention stops short of those only before a row the startup read needs |
| LedgerStore.FindWindowStart | prime/src/ledger/store.rs:268-298 | the walk back from the newest row ends where exactly the window starts, skipping rows that do not unpack, and reports truncation exactly when all shares fall short of work and count |
| LedgerRuns.WindowIsExactIff | prime/src/ledger.rs:332-433 | on every run from any opened store, the window is exact in every state if and only if every retention leaves as many readable shares as the window holds; exact is the window over the stored rows with no re-read due, and no share outside it with one due |
| LedgerRuns.WindowIsExactOnEveryRun | prime/src/ledger.rs:332-433 | so it is exact in every state of every run from a store whose rows all unpack, or that keeps every row |
| LedgerRuns.HeldIsWithinTheTrueWindow | prime/src/ledger.rs:402-433 | while a re-read is due what is held is a suffix of the true window |
| LedgerRuns.RereadEnds | prime/src/ledger.rs:404-433 | a re-read that succeeds leaves none running, and one due exactly when the window widened past what it read to; when none is due the window is whole |
| LedgerRuns.RereadSettlesIff | prime/src/ledger.rs:385-433 | whatever happens between the start of a re-read and its success, it leaves none due, and the window whole, exactly when the window ended no wider than it began on |
| LedgerRuns.WideningRereadAtOnce | prime/src/ledger.rs:377-433 | a widening re-read at once, with none wider since, ends with no re-read due and the window over every share stored when it widened and every share accepted since |
| LedgerRuns.StepKeeps | prime/src/ledger.rs:377-527 | every step whose retention leaves the window keeps it a trimmed suffix of the rows, whole unless a re-read is due, and a running re-read's snapshot plus what came since equal to the rows |
| LedgerRuns.RetentionKeepsTheWindowIff | prime/src/ledger/store.rs:224-259 | removing oldest rows keeps the window exactly when as many readable shares are left as it holds |
| LedgerRuns.RetentionLeavesTheWindow | prime/src/ledger/store.rs:212-248 | on rows that all unpack the retention rule leaves as many shares as its floor |
| LedgerRuns.StepKeepsTheTrueWindowIff | prime/src/ledger/store.rs:212-259 | a step keeps the window over the rows before it and its batch exactly when it leaves as many readable shares as that holds |
| LedgerRuns.SoundStepKeepsTheTrueWindow | prime/src/ledger.rs:515-527 | on a sound store every step does so while no widening waits for its re-read: none is due, or one runs |
| LedgerRuns.TrueWindowIsKeptIff | prime/src/ledger.rs:502-527 | on every run from a sound store no share of the true window is lost, if and only if none is by the records made while a widening waits |
| LedgerRuns.WideningIsHonoured | prime/src/ledger.rs:377-433 | if those records leave enough, then once no re-read is due the window is the one over every share stored at the widening and every share accepted since |
| LedgerRuns.WideningCanLoseShares | prime/src/ledger.rs:515-522 | a run on a store of readable rows where a batch recorded before the re-read begins loses a share of the wider window |
| LedgerRuns.CounterIsAllWorkAccepted | prime/src/ledger.rs:505-510 | the stored counter is all the work of every batch that reached the disk |
| LedgerRuns.KeepAllIsTheWindowOverTheHistory | prime/src/ledger.rs:499-527 | a store that keeps every row pays over the newest work ever accepted |
| LedgerRuns.NarrowingIsTheWindowOverTheHistory | prime/src/ledger.rs:377-383 | while the window never widens it is the window over every share ever accepted, whatever retention removed from the rows |
| LedgerRuns.UnreadableRowsBreakTheFloor | prime/src/ledger/store.rs:231-248 | with an unreadable row among the newest, retention can leave fewer shares than the window holds |
| LedgerObject.ReadContents | prime/src/ledger.rs:190-205 | the contents streamed from the rows are the window over them, within the index bound |
| LedgerObject.Ledger.constructor | prime/src/ledger.rs:332-362 | a ledger attached to any store holds the window over its rows, and no re-read is due |
| LedgerObject.Ledger.Trim | prime/src/ledger.rs:572-590 | trims to the window and notes whether the count is what ends it |
| LedgerObject.Ledger.PushOne | prime/src/ledger.rs:512-513 | pushing one share and trimming gives the window over what was held and the share |
| LedgerObject.Ledger.PushAll | prime/src/ledger.rs:511-514 | trimming after each share of a batch gives the window over all of them |
| LedgerObject.Ledger.TrimAndPushAll | prime/src/ledger.rs:427-431 | the contents read, trimmed and pushed with the shares recorded meanwhile, are the window over the two together |
| LedgerObject.Ledger.SetWindow | prime/src/ledger.rs:377-383 | the object takes the resize step, to a window of at least one; a widening leaves a re-read due, and nothing else does |
| LedgerObject.Ledger.RecordBatch | prime/src/ledger.rs:502-527 | the object takes the record step: nothing on a store error, otherwise the batch, then retention unless a re-read is under way; the window stays exact when that leaves it |
| LedgerObject.Ledger.BeginReread | prime/src/ledger.rs:387-400 | a snapshot of the rows is taken, to be read to the window as it stands, exactly when a re-read is due, none is under way and the store gives one |
| LedgerObject.Ledger.FinishReread | prime/src/ledger.rs:404-433 | the contents read off the lock and the shares recorded since are installed; a re-read is due afterwards exactly when the window is wider than the one read to, and otherwise the window is the one over the stored rows; a failed read installs nothing and leaves it as due as it was |
| Sorting.SortedIsUnique | prime/src/ledger.rs:603-605 | two lists of the same items sorted by a strict total order are one list |
| Split.MoreWorkIsStrictTotalOrder | prime/src/ledger.rs:603-605 | most work first, then name, orders any identities strictly and totally |
| Split.Kept | prime/src/ledger/split.rs:66-76 | the longest sorted prefix whose last member would be paid the minimum |
| Split.MostWorkIsFirst | prime/src/ledger/split.rs:62-63 | the count cut keeps as many identities as there may be outputs, in order of work, and everyone left out comes after everyone kept |
| Split.KeptHaveTheMostWork | prime/src/ledger/split.rs:62-76 | after both cuts everyone left out still comes after everyone kept, and no more are kept than there may be outputs |
| Split.CascadeStep | prime/src/ledger/split.rs:80-86 | one amount lies between the exact share rounded down and one more for each rounding before it, and what is left stays as near to exact |
| Split.AmountsConserve | prime/src/ledger/split.rs:78-91 | the cascaded amounts total what there was to divide |
| Split.AmountsNearExact | prime/src/ledger/split.rs:78-91 | the j-th amount is at least its exact share rounded down and at most j more |
| Split.SplitConserves | e2e/e2e.py:155-178 | the payouts total the whole value if anyone is kept, and nothing otherwise |
| Split.KeptMeetTheMinimum | e2e/e2e.py:155-167 | everyone kept has an exact share of at least the minimum |
| Split.SplitIsFair | e2e/e2e.py:155-178 | everyone kept is paid, at least the minimum and at least the exact share rounded down, and the j-th at most j more |
| Split.NobodyPaidIsOutranked | prime/src/ledger/split.rs:62-91 | whoever comes before someone paid is paid |
| Split.SplitForgetsOrder | prime/src/ledger/split.rs:62-63 | the split does not depend on the order the weights are listed in |
| SplitInPool.SplitWith | prime/src/ledger/split.rs:56-92 | the pool's loops compute the split over saturating 128-bit products and never pay more than the value; said without sorting, it is shared among at most maxOutputs identities, none with less work than one left out |
| SplitInPool.SplitIsAmongTheFirst | prime/src/ledger/split.rs:62-91 | the split is paid to at most maxOutputs identities of the window, those with the most work but for the last that would be paid too little |
| SplitInPool.SatKeptIsLongest | prime/src/ledger/split.rs:66-76 | with saturating products too, those kept are the longest sorted prefix whose last member would be paid the minimum |
| SplitInPool.DropUnderMinimum | prime/src/ledger/split.rs:64-76 | dropping the last while it is under the minimum leaves the prefix the specification keeps, with its work |
| SplitInPool.Cascade | prime/src/ledger/split.rs:78-91 | paying each from what is left gives the specified payouts and never more than the value |
| SplitInPool.PoolSplitIsExact | prime/src/ledger/split.rs:56-92 | while the value times each identity's work fits in 128 bits the pool's split is the exact one |
| SplitInPool.CascadePaysAllIff | prime/src/ledger/split.rs:78-91 | the cascade pays all there is exactly when the product it divides for the last identity with work fits in 128 bits, whatever the products before it did |
| SplitInPool.PoolSplitConservesIff | prime/src/ledger/split.rs:56-92 | the payouts total the value exactly when someone is kept and that last product fits |
| SplitInPool.AloneIsPaidTheValueIff | prime/src/ledger/split.rs:71-84 | an identity alone in the window is paid the value exactly when the value times its work fits |
| SplitInPool.FeeAtMostValue | prime/src/ledger/split.rs:26-38 | a fee of at most ten thousand basis points never exceeds the value |
| SplitInPool.FeeIsTheWholePart | prime/src/ledger/split.rs:26-38 | for every 64-bit value and 16-bit rate the fee is that many ten-thousandths of the value, rounded down |
| SplitInPool.ScaledTotal | prime/src/accounting.rs:300-310 | the scaled amounts total at most their exact part of what was received, and fall short by less than one for each |
| SplitInPool.ScaledIsWithinWhatIsAvailable | prime/src/accounting.rs:292-310 | what is owed never exceeds what the pool's script received, and is short of it by less than one for each entry |
| SplitInPool.OwedInProportion | prime/src/accounting.rs:294-310 | when less is available than was dictated, exactly those whose part of it, rounded down, is not nothing are owed that part |
| SplitInPool.OwedFor | prime/src/accounting.rs:294-310 | the in-place scaling owes everything when it fits and each in proportion otherwise, never more than is available |
| WindowPayouts.SplitIsAFunctionOfTheWindow | prime/src/ledger/split.rs:40-105 | the same shares give the same payouts whatever the interning, and while the value times each identity's work fits in 128 bits they total the whole value, or nobody reaches the minimum |
| WindowPayouts.SplitValue | prime/src/ledger/split.rs:98-120 | payouts and fee together never exceed the value, and the payouts are the split of the shares in the window, among the 1024 identities with the most work in it |
| AbwSlots.NextDueIsExact | prime/src/abw.rs:233-300 | at any time something is due exactly when the wake-up time has come or the share count alone asks for a rotation |
| AbwSlots.NextDueIsExactBelowTheCount | prime/src/abw.rs:233-300 | under the share count the wake-up time is exact |
| AbwSlots.RevealingLeavesNoneDue | prime/src/abw.rs:249-257 | sending the due reveals leaves none due then |
| AbwSlots.RotatingLeavesNoneDue | prime/src/abw.rs:261-300 | a rotation leaves none due then, with exactly the active slot seeded |
| AbwSlots.RotationStaysDue | prime/src/abw.rs:286-300 | a rotation asked for stays due until the slots change |
| AbwSlots.RotatedKeepsKeys | prime/src/abw.rs:259-278 | a rotation leaves the slot that was active under its own key, its reveal the whole delay away, seeds the next slot round with the new key, and touches no other |
| AbwSlots.PublishingDiscloses | prime/src/abw.rs:125-148 | after a relayed block the slot's key is the same and no secret; the answer is none exactly when it was none before, and otherwise whether the slot is active |
| AbwSlots.RoundSends | prime/src/abw.rs:197-257 | a round sends one notice for each slot due, with that slot's own key, in the order of the slots, and nothing else |
| AbwSlots.TurnKeeps | prime/src/connection.rs:340-347 | a turn leaves a reveal due only when shares received were still unanswered, and changes nothing when it may do neither |
| AbwSlots.TwoTurnsSettle | prime/src/connection.rs:335-347 | after two turns of the connection loop with every share answered nothing is due and the next wake-up lies ahead: the loop does not spin |
| AbwSlots.EarliestDue | prime/src/abw.rs:240-241 | the least of the times the slots await, if any slot awaits one |
| AbwSlots.RevealedUpTo | prime/src/abw.rs:249-257 | exactly the due slots among those visited become revealed, the others stay |
| AbwSlots.ResumedSlots | prime/src/abw.rs:184-195 | a resume treats every slot alike: a reveal pending since the close restarts once, one sent is to be sent again |
| AbwRuns.StepKeeps | prime/src/abw.rs:125-310 | every step keeps each slot telling what the observer saw of its key, and the counts what was seen since the newest key was seeded |
| AbwRuns.KeysAreSentLateAndSecretUntilThen | prime/src/abw.rs:125-310 | on every run exactly the active slot is seeded, a slot's key is the one seeded there last, no key is first sent sooner than the delay past its retirement, its time is fixed by the first close after that however many resumes follow, one sent is due again exactly when a close may have lost it, and a key is called secret exactly while neither sent nor published |
| AbwRuns.OnlyRetiredKeysAreSent | prime/src/abw.rs:197-278 | on every run whatever is sent, by a rotation or by the clock, is the key of the slot it names, retired before, and marked as a resend exactly when it was sent before; so the active slot's key is never sent |
| AbwRuns.RoundSendsWhatIsOwed | prime/src/abw.rs:245-257 | a round sends exactly the keys owed, each once and as its own slot's: those retired the delay ago, and those a close may have lost |
| AbwRuns.RotationSendsWhatIsOwed | prime/src/abw.rs:261-278 | a rotation sends nothing, or again the key a close may have lost of the slot it reuses |
| AbwRuns.ActiveKeyIsTheNewest | prime/src/abw.rs:217-278 | on every run the active slot is the one as many rotations on, and of the keys held only its own was never retired |
| AbwRuns.RotationIsDueIff | prime/src/abw.rs:284-310 | when a rotation is due from what was seen alone: the pool not quiet after a connection opened, the slot after not awaiting its reveal, and the active key public, a tip 75 seconds or more into its use, 16384 shares, or ten minutes |
| AbwRuns.TipAsksWhenOldEnough | prime/src/abw.rs:302-310 | a tip's answer is whether the newest key is 75 seconds old, which is when the tip asks for a rotation |
| AbwRuns.RotatingBeforeItIsDueSendsEarly | prime/src/abw.rs:222-230 | rotating onto a slot still waiting sends its key at once, before its time, which is why no rotation is due then |
| AbwObject.AbwSlotState.constructor | prime/src/abw.rs:94-106 | a new session has slot 0 seeded and active and the rest empty |
| AbwObject.AbwSlotState.SeedSlot | prime/src/abw.rs:154-158 | in place: the slot holds a new key, unpublished, and is active |
| AbwObject.AbwSlotState.NoteBlockPublished | prime/src/abw.rs:141-148 | in place: the slot's key is public; answers whether it was active, and nothing if it was not secret |
| AbwObject.AbwSlotState.Connect | prime/src/abw.rs:176-178 | in place: the hold ends a grace after the connection opened |
| AbwObject.AbwSlotState.Resume | prime/src/abw.rs:184-195 | in place: the resume of every slot |
| AbwObject.AbwSlotState.Reveal | prime/src/abw.rs:199-215 | in place: one slot's reveal or resend |
| AbwObject.AbwSlotState.SendRevealsDue | prime/src/abw.rs:249-257 | in place: the reveals due, none during the hold |
| AbwObject.AbwSlotState.Rotate | prime/src/abw.rs:261-278 | in place: the rotation, revealing the next slot first if it awaits one |
| AbwObject.AbwSlotState.NoteAcceptedShare | prime/src/abw.rs:280-282 | in place: the count, stopping at the largest 64-bit number |
| AbwObject.AbwSlotState.NoteNewTip | prime/src/abw.rs:304-309 | in place: a tip asks for a rotation once the slot is old enough |
| AbwObject.AbwSlotState.Turn | prime/src/connection.rs:340-347 | one turn of the loop is the specified one, sends what that sends, each action waiting for the answers owed, and wakes at the exact time |
| BoundedMaps.BoundedMap.constructor | prime/src/bounded.rs:14-16 | an empty map of at least one entry |
| BoundedMaps.BoundedMap.Get | prime/src/bounded.rs:31-33 | the key's value in the list the map stands for |
| BoundedMaps.BoundedMap.GetRenewed | prime/src/bounded.rs:36-42 | in place: the key's entry moves to the newest place of the list |
| BoundedMaps.BoundedMap.Insert | prime/src/bounded.rs:44-55 | in place: the key's old entry goes, the new one is newest, and of the list only the newest up to the capacity stay |
| BoundedMaps.BoundedMap.EvictPastCapacity | prime/src/bounded.rs:50-53 | in place: the eviction loop leaves the newest up to the capacity |
| BoundedMaps.BoundedMap.Remove | prime/src/bounded.rs:57-61 | in place: exactly the key's entry leaves the list |
| BoundedMaps.BoundedMap.Retain | prime/src/bounded.rs:63-67 | in place: the entries taken stay, in their order |
| BoundedMaps.BoundedMap.ForgetOrder | prime/src/bounded.rs:69-73 | in place: the key leaves the queue once |
| BoundedMaps.InsertedHolds | prime/src/bounded.rs:44-55 | an insertion ends with its own entry in place of the key's old one, as many of the others stay as fit, in their order, and any that left came before all that stay |
| BoundedMaps.RemovedTakesOne | prime/src/bounded.rs:57-61 | a removal takes the key's entry and no other, and keeps the order |
| BoundedMaps.RetainedTakes | prime/src/bounded.rs:63-67 | exactly the entries asked for stay, in their order |
| BoundedMaps.RenewedHolds | prime/src/bounded.rs:36-42 | a renewal makes the key's entry the newest and leaves the others in their order |
| Sessions.SessionsAreClaimedOnce | prime/src/sessions.rs:54-97 | on every run of hellos, proofs and closes each saved session is claimed at most once, and a claimed one is no longer stored |
| Sessions.ClosedIsResumed | prime/src/sessions.rs:41-97 | on every run a gateway whose proven connection closed, and that comes back within the hour with its token, finds its splits and its slots' keys again, whatever other gateways did meanwhile, as long as nothing took the session's place or claimed it |
| Sessions.SavedIsStored | prime/src/sessions.rs:41-52 | a save stores the session unless a newer connection's unexpired one is kept, and every other gateway's unexpired session stays while they fit |
| Sessions.TokenResumesWhatWasSaved | prime/src/sessions.rs:66-86 | a hello resumes exactly with the token of its key's session saved within the hour, and then goes on with that session's splits and every slot's key, as secret as it was, its reveals pending or owed again from the close; any other starts with one key and no splits |
| Sessions.HelloTakesNothing | prime/src/sessions.rs:54-86 | a hello leaves what is stored and claimed and every other connection, and its own is not proven and remembers the token exactly when that resumed a session |
| Sessions.ProofClaims | prime/src/sessions.rs:88-97 | a frame that decrypts claims the session its connection resumed exactly when that is still stored for its key, once, and changes nothing else |
| Sessions.ReconnectingGoesOn | prime/src/sessions.rs:41-97 | from an empty store a gateway that connects, proves its connection, loses it and comes back within the hour goes on with its session, which is then claimed and stored no more |
| Sessions.CopiedHellosLeaveTheRest | prime/src/sessions.rs:59-97 | on every run a connection no frame ever proves, whatever token it presents, leaves what is stored, what is claimed and every other connection exactly as they are without it |
| Sessions.NewerSessionsStay | prime/src/sessions.rs:41-52 | an older connection's close never displaces a newer connection's session that has not expired |
| Sessions.SavedTokens | prime/src/sessions.rs:41-52 | saving stores no token but the session's own |
| Sessions.SessionStore.constructor | prime/src/sessions.rs:37-39 | an empty store |
| Sessions.SessionStore.SaveSession | prime/src/sessions.rs:41-52 | in place: expired sessions go, and the session is stored unless a newer connection's is kept |
| Sessions.SessionStore.Resume | prime/src/sessions.rs:66-86 | a copy with its slots resumed under a new token exactly when the token presented is the unexpired saved one, and a new session otherwise |
| Sessions.SessionStore.ClaimSession | prime/src/sessions.rs:91-97 | in place: removed and true exactly when the saved session carries the token |
| AcceptedHashes.ExpireForgetsOnlyExpired | prime/src/accounting.rs:108-126 | expiring forgets no hash that is not expired |
| AcceptedHashes.ExpireDrops | prime/src/accounting.rs:108-126 | expiring drops exactly the oldest claims that are past the retention, up to the first that is not, and only what those held |
| AcceptedHashes.HoldKeeps | prime/src/accounting.rs:81-106 | holding a hash accepts it only if every earlier claim of it is expired, and always if none is held; only expired hashes go until the capacity forgets one early, and it reports that exactly when it does |
| AcceptedHashes.RemovedIsAcceptedAgain | prime/src/accounting.rs:77-106 | a hash taken back would be accepted at once; every other is held under its time, and the order is unchanged |
| AcceptedHashes.SinceTo | prime/src/ledger/store.rs:190-210 | the newest rows back to the first older than the cutoff, at most so many |
| AcceptedHashes.RestoreHoldsAll | prime/src/server.rs:123-135 | rows read back that are not expired, each of its own hash and no more than fit, are all held |
| AcceptedHashes.AcceptedShareHashes.HoldAt | prime/src/accounting.rs:81-106 | in place: the hold, and the warning exactly when a hash was forgotten early |
| AcceptedHashes.AcceptedShareHashes.ExpireOld | prime/src/accounting.rs:108-116 | in place: the oldest leave while expired |
| AcceptedHashes.AcceptedShareHashes.ForgetClaim | prime/src/accounting.rs:118-126 | in place: a hash leaves only if held under this time |
| AcceptedHashes.AcceptedShareHashes.RemoveHash | prime/src/accounting.rs:77-79 | in place: the hash is held no more, and every other under the time it was |
| AcceptedHashes.RestoredFrom | prime/src/server.rs:123-135 | a starting pool holds the hashes its ledger recorded within the retention |
| AcceptedHashes.AcceptedSince | prime/src/ledger/store.rs:190-210 | the scan collects the newest rows back to the first older than the cutoff |
| CreditOnce.ResendIsRefused | prime/src/verify.rs:531-533 | a resend that passes the header-time check finds its share's hash held and not expired |
| CreditOnce.RetentionIsAllowed | prime/src/ledger/store.rs:212-248 | the store's retention rule, with the cutoff of a batch's newest share, removes only rows the startup read does not need |
| CreditOnce.NoShareIsCreditedTwice | prime/src/accounting.rs:20-181 | over every run, restarts included, no hash is credited twice while the clock's backward steps, those between recorded rows and the wait between a share's arrival and its claim together stay within ten minutes |
| CreditOnce.NoShareIsCreditedTwiceWithoutRestart | prime/src/accounting.rs:20-181 | without restarts the clock alone may step back the whole ten minutes, whatever the rows and the waits |
| CreditOnce.WiderMarginsCreditTwice | prime/src/connection/shares.rs:843-850 | whatever the three margins, once they total more than ten minutes a run within them credits one share twice |
| CreditOnce.MarginsSufficeIff | prime/src/accounting.rs:20-29 | no share is credited twice on any run within the margins if and only if they total at most ten minutes |
| CreditOnce.ShareIsClaimedIffNoneStands | prime/src/accounting.rs:129-143 | on every run within the margins a share sent in time is claimed exactly when no claim of its hash stands, none on its way to the ledger and none ever credited, and it was not answered by name |
| CreditOnce.ReleasedIsClaimedAgain | prime/src/accounting.rs:145-165 | on every run within the margins a share whose write failed is claimed when it is next sent in time, whatever happened since to other shares, a restart included |
| Merkle.FoldingIsTheRoot | core/src/bitcoin.rs:56-92 | folding the first entry through its branches gives the root of the whole tree, and there is one branch for each level |
| Merkle.BranchesIgnoreTheFirst | core/src/bitcoin.rs:60-73 | the branches do not depend on the coinbase |
| Merkle.MerkleBranches | core/src/bitcoin.rs:60-73 | the loop over a level with an unknown first entry computes the branches of any coinbase, its sibling always known |
| Merkle.MerkleRootFromBranches | core/src/bitcoin.rs:56-58 | the loop folds the coinbase through the branches |
| Merkle.TreeRoot | core/src/bitcoin.rs:81-92 | the loop gives the root of the tree and flags exactly a level with equal siblings |
| Merkle.SameLengthRootsAreInjective | core/src/bitcoin.rs:81-92 | with an injective pair hash, lists of one length with one root are one list |
| Merkle.TheLongerIsFlagged | core/src/bitcoin.rs:81-92 | of two lists of one height with one root the longer is always flagged |
| Merkle.UnflaggedRootsAreInjective | core/src/bitcoin.rs:75-92 | two unflagged lists of one height with one root are one list |
| Merkle.FlaggedIff | core/src/bitcoin.rs:81-92 | a list is flagged exactly when two siblings of some level of its tree are equal |
| Merkle.DistinctAreNotFlagged | core/src/bitcoin.rs:81-92 | with an injective pair hash a list without repetitions is never flagged |
| Merkle.RepeatingTheLastHides | core/src/bitcoin.rs:48-54 | every list of odd length shares its root with a longer one, and the longer is flagged |
| Merkle.MatchingTxnsGiveTheRoot | prime/src/relay.rs:113-160 | transactions that match a job's branches give the root its header commits to, under any coinbase |
| Merkle.MatchingTxnsAreTheJobs | prime/src/relay.rs:111-132 | count and branches determine the transactions and their order |
| CompactSize.DecodeOfEncode | core/src/bitcoin.rs:101-133 | an encoded count decodes to itself and its length, whatever follows |
| CompactSize.EncodeOfDecode | core/src/bitcoin.rs:121-133 | only the shortest form decodes |
| Target.BitsToTarget | core/src/target.rs:25-43 | placing the mantissa bytes one by one succeeds exactly when the sign bit is clear and the named number is not zero and fits in 256 bits, and gives that number |
| Target.EncodingRoundsDown | core/src/target.rs:129-139 | a nonzero target's encoding decodes to it with its dropped bytes zeroed, never above it and less than one unit below; zero encodes to nothing |
| Target.EncodingIsTheLargestBelow | core/src/target.rs:129-139 | no bits decode to a number nearer from below |
| Target.DecodeEncodeDecode | core/src/target.rs:25-139 | decoding, encoding and decoding again is decoding once |
| Target.BitsAreTheirParts | core/src/target.rs:25-33 | the size, the sign bit and the mantissa are the bits, in one way |
| TargetShift.ShlSaturating | core/src/target.rs:51-70 | the byte loop computes the smaller of target times 2^bits and 2^256 - 1 |
| TargetShift.OverflowIsTooLarge | core/src/target.rs:54-62 | the overflow branch is taken only when the product does not fit |
| TargetShift.FourTimes | prime/src/verify.rs:313-316 | comparing with the saturated shift by two is comparing with four times the template's target |
| TargetShift.Relayable | prime/src/verify.rs:303-317 | in numbers, which refused block is passed on: it meets its own bits, and these are the template's, or at most four times as easy, or not compared |
| TargetShift.ExponentTargetIsThePower | core/src/target.rs:72-77 | the target of an exponent is two to 224 less the exponent |
| TargetShift.ShareTargetIsOneLess | core/src/target.rs:118-127 | the target of a job's bits is one less than that power, for every exponent |
| TargetShift.ShareBitsAreNoEasier | core/src/target.rs:141-143 | a hash that meets the bits a job carries meets the target its shares are checked against |
| PowersOfTwo.Pow2FloorIsLargest | core/src/target.rs:153-155 | no power of two at most v is larger |
| PowersOfTwo.Pow2CeilIsSmallest | core/src/target.rs:157-159 | up to 2^63 the result is the least power of two at least v, above it the largest in 64 bits, and 0 for 0 |
| PowersOfTwo.ShiftedByOne | gateway/src/vardiff.rs:145 | a power of two shifted by one in 64 bits is its double, or 0 for the largest alone |
| NonceSearch.SearchIsExact | core/src/nonce.rs:12-48 | however the threads take turns, a nonce found solves, and none found without an abort means that none exists |
| NonceSearch.SearchFindsIff | core/src/nonce.rs:12-48 | a search the caller never asks to stop finds a nonce exactly when one solves |
| NonceSearch.SearchEnds | core/src/nonce.rs:24-41 | every search ends: a thread that takes enough turns has returned, whatever the others do |
| NonceSearch.LeastIsFound | core/src/nonce.rs:31-31 | in every state of a run the nonce found is the least one a thread succeeded at, and there is none exactly when no thread did |
| NonceSearch.LookStopsIff | core/src/nonce.rs:34-36 | a look ends its thread exactly when a nonce was found or the caller asks to stop |
| NonceSearch.TurnKeeps | core/src/nonce.rs:24-41 | every turn keeps each thread on its stride, its buffer the input but for the nonce, and every earlier nonce of the stride no solution |
| NonceSearch.NextOfStride | core/src/nonce.rs:26-39 | between two nonces of a stride there is none of it, so the strides part the nonce space |
| NonceSearch.LooksOncePerInterval | core/src/nonce.rs:34-38 | on every run each thread looks whether to stop at most once in an interval of the nonces, and has looked once when it is past it |
| JobTable.Kept | gateway/src/job.rs:210-215 | exactly the jobs older than the retention leave their slots |
| JobTable.Placed | gateway/src/job.rs:216-218 | the job takes its own slot, if there is one, and no other changes |
| JobTable.PublishedTable | gateway/src/job.rs:199-224 | after a publication the job is in its slot, every other job stays exactly until it is older than the retention, and of the jobs installed exactly those on another previous block are marked stale, or all when the work pays the subsidy alone |
| JobTable.OffTheTipIsRefused | gateway/src/job.rs:201-204 | a job off the tip changes nothing |
| JobTable.MarkedOff | gateway/src/job.rs:226-233 | a mark apart from a publication goes to exactly the installed jobs on another previous block |
| JobTableObject.Held.constructor | gateway/src/job.rs:41-60 | a new job is not stale |
| JobTableObject.Table.constructor | gateway/src/job.rs:170-178 | a new table has every slot empty and serves nothing |
| JobTableObject.Table.SetTip | gateway/src/job.rs:184-186 | in place: the tip alone changes |
| JobTableObject.Table.Mark | gateway/src/job.rs:205-209 | the loop marks exactly the installed jobs the publication ends, through the shared object |
| JobTableObject.Table.MarkStaleOff | gateway/src/job.rs:226-232 | in place: exactly the installed jobs on another previous block are marked |
| JobTableObject.Table.DropExpired | gateway/src/job.rs:210-215 | in place: the jobs past the retention are dropped |
| JobTableObject.Table.Publish | gateway/src/job.rs:199-222 | in place: refused with nothing changed exactly when the job is off the tip; otherwise marked, dropped, installed, counted and served |
| JobTableObject.Table.JobAt | gateway/src/job.rs:235-237 | the job in the slot, its mark the one the table shows |
| PublishRuns.ServedWorkFollowsTheTips | gateway/src/job.rs:180-222 | for every interleaving each publication is on the tip last set before it, publications come in the order of those tips, and sequence numbers rise |
| PublishRuns.OtherWorkIsStale | gateway/src/job.rs:193-232 | in every reachable state the work served is in its slot and every installed job on another previous block is marked stale |
| PublishRuns.TemplateJobsAreNeverRefused | gateway/src/publish.rs:146-166 | a job of the template thread is never refused |
| PublishRuns.StepKeeps | gateway/src/publish.rs:49-198 | every step of either thread keeps the history, the tips and the table in agreement |
| PublishProgress.NewBlocksAreServedTwice | gateway/src/publish.rs:96-198 | a template on a new block is served twice whatever the session thread does between the steps, first as work that pays the subsidy alone and then the same job with the pool's outputs; the pool is asked for its split after that |
| PublishProgress.RefreshesAreServedOnce | gateway/src/publish.rs:146-158 | a template on the tip already served is served once, without a pool to ask |
| PublishProgress.PooledRefreshesAsk | gateway/src/publish.rs:159-168 | with a pool it is asked for the split first, and the work is built at once when it is not worth asking |
| PublishProgress.NewBlocksAsk | gateway/src/publish.rs:164-168 | after the work of a new block the pool is asked exactly when that is worth it and there is one, and nothing more is built |
| PublishProgress.AnswersAreServed | gateway/src/publish.rs:171-198 | the pool's answer is served as work on its tip, whatever the template thread does meanwhile short of taking another template |
| PublishProgress.LateAnswersAreDropped | gateway/src/publish.rs:171-194 | an answer for a tip that has passed, or with nothing to serve, is dropped, and so is a job whose tip passed while it was built |
| PublishProgress.FailedBuildsServeNothing | gateway/src/publish.rs:46-91 | a build that fails or must wait for an assignment serves nothing; one that waits ends the work on every other previous block, and only that |
| PublishProgress.ConfigurationForgets | gateway/src/datum/session.rs:369-383 | an assignment is lost with its connection, and when a configuration changes whether one is required |
| PublishProgress.RequestsAreSentOnce | gateway/src/datum/session/shares.rs:86-93 | a request for a split goes out once, and is then the one an answer is awaited for |
| PublishProgress.PollsAreQuiet | gateway/src/template/poller.rs:245-277 | a poll notes whether there is a pool, one that finds nothing leaves everything as it was, and a template comes from a poll only |
| PublishMarks.ServedWorkIsNotStale | gateway/src/publish.rs:47-198 | from its publication until the tip is next set the work served is never marked stale, however the threads interleave |
| PublishMarks.MarksKept | gateway/src/publish.rs:47-198 | every step keeps the reasons: jobs not yet served are unknown to the table, requests are pooled, and an assignment awaited by a late session thread would have stopped the template thread |
| Vardiff.AnnouncesPowers | gateway/src/vardiff.rs:65-196 | on every run each announced difficulty is a power of two |
| Vardiff.AnnouncesAtLeastTheMinimum | gateway/src/vardiff.rs:65-196 | in particular at least the minimum on any run that stays below 2^63 |
| Vardiff.EverBelowTheMinimumIff | gateway/src/vardiff.rs:65-196 | a run announces something below the minimum if and only if a notify of it, with a floor between nothing and the minimum, meets a difficulty of 0 or doubles the largest power |
| Vardiff.AnnouncesBelowTheMinimumIff | gateway/src/vardiff.rs:65-101 | from any state, what one notify must meet to announce less than the minimum: a shifted out difficulty and a floor under the minimum, or a difficulty already below it that neither the floor nor the rate brings back |
| Vardiff.DoublingTheLargestAnnouncesTheFloor | gateway/src/vardiff.rs:141-147 | a run from a new connection that ends so |
| Vardiff.RaisedIsAPower | gateway/src/vardiff.rs:190-196 | a quick raise gives a power of two, no lower, and raises by at most the measured factor or four |
| Vardiff.RaisingDoesNotOvershoot | gateway/src/vardiff.rs:168-196 | a quick raise leaves the expected time per share at most twice the target |
| Vardiff.RateAdjustmentDoesNotOvershoot | gateway/src/vardiff.rs:134-148 | from a notify or a share alike, a doubling leaves the expected time per share at most the target and a halving leaves it above the target |
| Vardiff.SharesDoNotOvershoot | gateway/src/vardiff.rs:129-196 | a share's raise leaves it at most twice the target, a share's lowering leaves it above the target, so neither undoes the other |
| Vardiff.DeltaOfOneOvershoots | gateway/src/vardiff.rs:178-183 | with a delta of 1, which the configuration refuses, a raise by four overshoots |
| Vardiff.MovesOnceBetweenNotifies | gateway/src/vardiff.rs:108-112 | however many shares come in between two notifies the difficulty moves at most once |
| Vardiff.MeasuredIsTheWholePart | gateway/src/vardiff.rs:114-127 | the measured time is the elapsed time over the shares in whole milliseconds, at least one, and there is one exactly when a share came and a second has passed |
| Vardiff.TargetPartsTheMinute | gateway/src/vardiff.rs:104-106 | the target is a minute parted among the shares wanted, rounded down |
| VardiffRuns.NotifyMoves | gateway/src/vardiff.rs:129-166 | what a notify makes of the difficulty before its floor, in every case: half after more than an idle minute or by a rate more than twice slow, double by a rate twice fast over sixteen shares, and otherwise nothing; never while a change is pending |
| VardiffRuns.ShareMoves | gateway/src/vardiff.rs:168-196 | what an accepted share makes of it, in every case: a quick raise, from the configured count on what the rate asks for, or nothing |
| VardiffRuns.RaisesToOne | gateway/src/vardiff.rs:188-196 | the power of two a quick raise reaches is the only one at least four times the old, at most the more of four times and the measured factor, and more than half of that factor |
| VardiffRuns.RateIsOfTheSharesSince | gateway/src/vardiff.rs:53-56 | on every run the rate is measured over exactly the shares accepted since the difficulty last moved or the count last restarted, from that time on |
| VardiffRuns.TheMinerKnows | gateway/src/vardiff.rs:58-102 | on every run the difficulty last sent is the one last announced, no change is pending after a notify or a subscription, and a quickdiff notify's own is kept |
| VardiffRuns.NotifyServes | gateway/src/vardiff.rs:60-76 | a notify serves what the rate leaves or the floor when that is more, and announces exactly when that is not what was told last |
| VardiffObject.Difficulty.constructor | gateway/src/vardiff.rs:41-51 | a new connection starts at the minimum with nothing announced |
| VardiffObject.Difficulty.OnNotify | gateway/src/vardiff.rs:65-76 | in place: the notify step; announces exactly a change, and leaves none pending |
| VardiffObject.Difficulty.OnShareAccepted | gateway/src/vardiff.rs:85-88 | in place: the share step; true exactly for a raise announced at once |
| VardiffObject.Difficulty.MarkSent | gateway/src/vardiff.rs:95-101 | in place: what is announced is the difficulty, or the minimum in place of 0 |
| VardiffObject.Difficulty.ResetSnapshot | gateway/src/vardiff.rs:53-56 | in place: a new rate window |
| VardiffObject.Difficulty.Halve | gateway/src/vardiff.rs:129-132 | in place: half, not below the minimum, and a new rate window |
| VardiffObject.Difficulty.AdjustToRate | gateway/src/vardiff.rs:138-148 | in place: halves, doubles or leaves alone by the rate |
| VardiffObject.Difficulty.AdjustOnNotify | gateway/src/vardiff.rs:153-166 | in place: nothing while a change is pending, otherwise by the rate, or halved after a minute without a share |
| VardiffObject.Difficulty.AdjustOnShare | gateway/src/vardiff.rs:173-186 | in place: nothing while a change is pending or too few shares came, otherwise a quick raise or by the rate |
| VardiffObject.Difficulty.QuickRaise | gateway/src/vardiff.rs:190-196 | in place: the raised difficulty and a new rate window |
| VardiffObject.Difficulty.MeasuredMs | gateway/src/vardiff.rs:120-127 | the milliseconds per share, none while none can be measured |
| SeenShares.RunsScanLittle | gateway/src/seen_shares.rs:23-42 | over every run the table fits its capacity of at least 1024 and its prunes look at no more than 21 entries for each share accepted |
| SeenShares.ScanIsPaidFor | gateway/src/seen_shares.rs:27-39 | a prune of a full table frees or grows by enough to pay for its scan |
| SeenShares.AcceptedAgainOnlyPastTheWindow | gateway/src/seen_shares.rs:23-42 | with a rising clock a hash is accepted again only once the job it was accepted for is past the window |
| SeenShares.HeldUntilPastTheWindow | gateway/src/seen_shares.rs:23-42 | an accepted share stays held under its job's time until then |
| SeenShares.RefusedWasAccepted | gateway/src/seen_shares.rs:23-26 | a share is refused only when one with its hash was accepted before |
| SeenShares.GrowsIffLittleIsFreed | gateway/src/seen_shares.rs:27-39 | a prune grows the table by a quarter exactly when it freed less than a twentieth of it |
| SeenShares.RunsScanAtMost21 | gateway/src/seen_shares.rs:23-42 | over every run the entries the prunes look at number at most 21 for each share accepted, both counted from the run |
| SeenShares.SeenShareHashes.Insert | gateway/src/seen_shares.rs:23-42 | in place: new exactly when not held; pruned and grown as specified |
| SeenShares.SeenShareHashes.constructor | gateway/src/seen_shares.rs:19-21 | an empty table of at least the least capacity |
| StratumDifficulty.RoundsToNearest | core/src/stratum_difficulty.rs:38-51 | the rounding is a 64-bit significand, none is nearer, and where another is as near the kept bits are even |
| StratumDifficulty.RoundingIsMonotone | core/src/stratum_difficulty.rs:38-51 | rounding keeps the order |
| StratumDifficulty.RoundingIsIdempotent | core/src/stratum_difficulty.rs:38-51 | rounding twice is rounding once |
| StratumDifficulty.FormatIsExact | core/src/stratum_difficulty.rs:26-36 | the printed decimal is the rounded product over 2^16 exactly, with no zero at the end of a fraction |
| StratumDifficulty.ProductIsExactIff | core/src/stratum_difficulty.rs:26-51 | the product is exact just when 64 significant bits hold it |
| StratumDifficulty.AnnouncedExactlyIff | core/src/stratum_difficulty.rs:21-36 | the decimal is exactly n times 65535 over 65536 if and only if 64 significant bits hold that product |
| StratumDifficulty.AnnouncedExactly | core/src/stratum_difficulty.rs:21-36 | so it is for every difficulty up to 2^48 and every power of two |
| StratumDifficulty.AnnouncementsDiffer | core/src/stratum_difficulty.rs:21-36 | no two of those are announced alike |
| StratumDifficulty.AnnouncementsAreInOrder | core/src/stratum_difficulty.rs:26-36 | of any two difficulties the larger is never announced as a decimal of a smaller number |
| MinimumDifficulty.IntegersRoundUp | gateway/src/difficulty.rs:38-51 | 0 is refused and an integer of 31 bits taken as it is; a larger one is a hash count, refused exactly above the most, and otherwise the smallest power of two with as many hashes, exact or rounded up |
| MinimumDifficulty.DigitsCompareAsNumbers | gateway/src/difficulty.rs:87 | digits without leading zeros compare, by length and then by character, as the numbers they write |
| MinimumDifficulty.BoundaryComparesAsANumber | gateway/src/difficulty.rs:74-88 | comparing digits is comparing the number with the boundary rounded half up to the last digit given |
| MinimumDifficulty.EstimatesArePutRight | gateway/src/difficulty.rs:110-123 | any estimate at most one power of two off, or clamped to the largest, is put right: the decimal is refused exactly when the largest does not cover it, and otherwise gives the smallest power of two that does, exact just when equal to the last digit |
| CivilDates.CivilDatesFollowTheCalendar | gateway/src/logger.rs:137-149 | for every day the conversion gives a valid date of the proleptic Gregorian calendar of ISO 8601, and the next day the next date |
| CivilDates.EpochIsDayZero | gateway/src/logger.rs:133-149 | day 0 is 1 January 1970 |
| CivilDates.CivilInvertsTheDayCount | gateway/src/logger.rs:137-149 | inverts the day count: of all dates, exactly the one computed is that many days after the first of January 1970 |
| CivilDates.LogTimesNameTheirSecond | gateway/src/logger.rs:151-160 | the fields written are a date and a time of day, and of all of those exactly the ones that many seconds after the epoch |
| Confirmations.FirstByPosition | prime/src/confirmations.rs:32-48 | a pass reads a block exactly when it is due and fewer than 32 due blocks are ahead of it |
| Confirmations.MovesUpOverPasses | prime/src/confirmations.rs:60-93 | over any passes at rising times a block past the first 32 moves up by exactly the blocks ahead of it that were answered or voided |
| Confirmations.TriedIff | prime/src/confirmations.rs:32-93 | a block has been tried by pass n + 1 exactly when fewer than 32 of the blocks ahead of it are left after the n passes before |
| Confirmations.DueUntilConfirmedIff | prime/src/confirmations.rs:32-93 | over any passes a block is read again exactly while it was not voided and no answer recorded put it a hundred blocks deep |
| Confirmations.NewBlocksAreDue | prime/src/confirmations.rs:32-48 | a block found, not voided and never read is due |
| Confirmations.ReadInItsTurn | prime/src/confirmations.rs:27-93 | while reads are answered at rising times and no block is added or voided, the block at position p is read by pass p / 32 + 1 and by none before |
| Confirmations.AllReadInOneRound | prime/src/confirmations.rs:27-31 | every due block's turn comes within as many passes as the due blocks fill |
| Confirmations.FailingReadsStarve | prime/src/confirmations.rs:27-31 | while the reads of the first 32 fail, no other block is ever tried |
| Confirmations.TheLastOf33Starves | prime/src/confirmations.rs:27-31 | the 33rd of 33 new blocks is never tried, though the node would answer for it in every pass |
| Confirmations.NewBlockCostsOne | prime/src/confirmations.rs:33-46 | a new block costs a block read before one position, and one never read none |
| Confirmations.BlockRecords.CheckBlocks | prime/src/confirmations.rs:60-93 | in place: the answers of the pass are recorded, and nothing for a read that failed or a block voided while it was read |
| HttpHeaders.ContentLength | core/src/http.rs:570-596 | the loop over the headers gives the body length of section 6.3 of RFC 9112, or the refusal |
| HttpHeaders.AcceptedBodies | core/src/http.rs:570-596 | a body of n bytes is accepted exactly when no other framing is given, every Content-Length writes n, and n is allowed |
| HttpHeaders.SameNameIff | core/src/http.rs:573-580 | names match exactly when they are the same but for the case of letters |
| HttpRead.EndsAtIff | core/src/http.rs:40 | a head ends at two line ends in a row |
| HttpRead.Find | core/src/http.rs:492-494 | the first blank line from a place on |
| HttpRead.ResumedSearchFindsTheFirst | core/src/http.rs:503-512 | a search resumed three bytes before the end finds the first blank line of all |
| HttpRead.Stream.ReadSome | core/src/http.rs:465-490 | one read appends a prefix of what is left, and refuses only at the end, on a timeout or on a failure |
| HttpRead.ReadHead | core/src/http.rs:501-512 | the head found is that of the whole stream; without one, 431 past the limit and closed before it |
| HttpRead.ReadBody | core/src/http.rs:525-529 | the body is the bytes that follow, or closed when there are too few |
| HttpRead.ReadRequest | core/src/http.rs:496-531 | the request depends on the bytes alone, not on how they arrive; a timeout or failure turns it only into 408 or closed |
| UrlRedaction.SchemeAtIff | core/src/rpc.rs:255 | the authority follows a colon and two slashes |
| UrlRedaction.SpanOfReplaced | core/src/rpc.rs:254-262 | another password without a slash is found exactly where the first was, whatever '@' and ':' it holds |
| UrlRedaction.RedactionHidesThePassword | core/src/rpc.rs:264-271 | what is shown does not depend on the password |
| UrlRedaction.RestoringGivesTheOriginal | core/src/rpc.rs:266-286 | restoring a redacted URL from the original gives the original back |
| UrlRedaction.EditingKeepsThePassword | core/src/rpc.rs:273-286 | a URL edited while redacted carries the original's password again, and shown again is what was edited |

## Left out

- CreditOnce.NoShareIsCreditedTwice: assumes that the capacity forgets no hash early, as the source itself warns, and that a row that does not unpack is not among those read back.
- LedgerRuns.WindowIsExactIff: sums of work are unbounded where the source has 128 bits.
- AbwObject.AbwSlotState.Rotate: keys come in as arguments, and notices and payload encodings are not modelled.
- HttpRead.ReadRequest: parsing of the head is any function of its bytes; the 100-continue reply is only whether it could be written.
- HttpRead.Stream.ReadSome: the deadline and the socket timeout are one event of the schedule.
- PublishRuns.StepKeeps: building a job is its outcome alone; coinbase contents, commitments and the coinbaser's value matching are not modelled.
- The file-less ledger, the test-only resizing of the count bound, warnings and the buffer's growth.
- A crash between a deferred retention and the next synced commit, which leaves rows the next call removes again; the group commit's queue.
- Window sizing by network difficulty, hashrates, token budgets and modifier proportions: floating point.
- Hash functions, ciphers, address encodings, header serialisation, username and settings parsing.
- Sessions.SessionsAreClaimedOnce: tokens are random in the source; the model issues none twice.
- MinimumDifficulty.EstimatesArePutRight: the estimate is a floating-point quotient in the source; the model takes any estimate at most one power of two off, and decimals already split from their suffix.
- Dictated split ids, pool rotation and connection counts: smaller members beside those above.
- Sockets, threads' scheduling and wake-ups, files, log output and JSON pages.
