/** Re-reading the confirmations of the blocks a pool found, a few each pass. A block is named by its
    place in the order blocks were found. */
module Confirmations {
  import opened Basics
  import opened Sorting

  const CONFIRMED_DEPTH := 100
  const MAX_PER_PASS: nat := 32

  datatype Reading = Reading(checkedAt: nat, confirmations: int)

  /** A block voided keeps its place and is never due again. */
  datatype Records = Records(count: nat, readings: map<nat, Reading>, voided: set<nat>)

  /** When a block was last read, if it was. */
  function Key(r: Records, place: nat): Option<nat> {
    if place in r.readings then Some(r.readings[place].checkedAt) else None
  }

  predicate IsDue(r: Records, place: nat) {
    place < r.count && place !in r.voided && (place !in r.readings || r.readings[place].confirmations < CONFIRMED_DEPTH)
  }

  datatype Entry = Entry(key: Option<nat>, place: nat)

  /** Never read first, then least recently read; blocks of one key in the order they were found. */
  predicate Before(a: Entry, b: Entry) {
    if a.key == b.key then a.place < b.place
    else a.key.None? || (b.key.Some? && a.key.value < b.key.value)
  }

  function EntryOf(r: Records, place: nat): Entry { Entry(Key(r, place), place) }

  /** The due blocks in the order they were found. */
  function DueEntries(r: Records, n: nat): (due: seq<Entry>)
    ensures forall e :: e in due <==> e.place < n && IsDue(r, e.place) && e == EntryOf(r, e.place)
    ensures forall i, j :: 0 <= i < j < |due| ==> due[i].place < due[j].place
  {
    if n == 0 then []
    else if IsDue(r, n - 1) then DueEntries(r, n - 1) + [EntryOf(r, n - 1)]
    else DueEntries(r, n - 1)
  }

  function DueOrder(r: Records): seq<Entry> { Sort(Before, DueEntries(r, r.count)) }

  function PlacesOf(s: seq<Entry>): set<nat> { set e | e in s :: e.place }

  /** The blocks the next pass reads. */
  function First(r: Records): set<nat> { PlacesOf(DueOrder(r)[..Min(|DueOrder(r)|, MAX_PER_PASS)]) }

  /** The due blocks ahead of a block. */
  function Ahead(r: Records, place: nat): set<nat> {
    set j | 0 <= j < r.count && IsDue(r, j) && Before(EntryOf(r, j), EntryOf(r, place))
  }

  function Position(r: Records, place: nat): nat { |Ahead(r, place)| }

  // ---- The order is the position ----

  lemma BeforeIsTotal()
    ensures StrictTotalOrder(Before)
  {
  }

  lemma OrderIsSorted(r: Records)
    ensures Sorted(Before, DueOrder(r)) && SameItems(DueEntries(r, r.count), DueOrder(r))
  {
    BeforeIsTotal();
    SortSorts(Before, DueEntries(r, r.count));
  }

  lemma {:induction false} DistinctPlaces(s: seq<Entry>)
    requires forall i, j :: 0 <= i < j < |s| ==> s[i].place != s[j].place
    ensures |PlacesOf(s)| == |s|
  {
    if s != [] {
      DistinctPlaces(s[..|s| - 1]);
      PlacesPushed(s[..|s| - 1], s[|s| - 1]);
      assert s == s[..|s| - 1] + [s[|s| - 1]];
    }
  }

  lemma PlacesPushed(s: seq<Entry>, e: Entry)
    ensures PlacesOf(s + [e]) == PlacesOf(s) + {e.place}
    ensures (forall i :: 0 <= i < |s| ==> s[i].place != e.place) ==> e.place !in PlacesOf(s)
  {
    forall f | f in s + [e]
      ensures f in s || f == e
    {
    }
    assert e in s + [e] && forall f :: f in s ==> f in s + [e];
  }

  lemma OrderPlacesDiffer(r: Records)
    ensures forall i, j :: 0 <= i < j < |DueOrder(r)| ==> DueOrder(r)[i].place != DueOrder(r)[j].place
  {
    hide DueOrder, DueEntries;
    OrderIsSorted(r);
    var s := DueOrder(r);
    forall i, j | 0 <= i < j < |s|
      ensures s[i].place != s[j].place
    {
      assert s[i] in DueEntries(r, r.count) && s[j] in DueEntries(r, r.count);
      assert Before(s[i], s[j]);
    }
  }

  /** The entries before the one at `p` are those of the blocks ahead of it. */
  lemma OrderIsPosition(r: Records, p: nat)
    requires p < |DueOrder(r)|
    ensures var place := DueOrder(r)[p].place;
            && IsDue(r, place) && DueOrder(r)[p] == EntryOf(r, place)
            && Ahead(r, place) == PlacesOf(DueOrder(r)[..p]) && Position(r, place) == p
  {
    hide DueOrder, DueEntries, IsDue, Key;
    OrderIsSorted(r);
    OrderPlacesDiffer(r);
    var s := DueOrder(r);
    var place := s[p].place;
    assert s[p] in DueEntries(r, r.count);
    forall j | j in Ahead(r, place)
      ensures j in PlacesOf(s[..p])
    {
      assert EntryOf(r, j) in DueEntries(r, r.count);
      var i :| 0 <= i < |s| && s[i] == EntryOf(r, j);
      assert i < p;
      assert s[..p][i] == s[i];
    }
    forall j | j in PlacesOf(s[..p])
      ensures j in Ahead(r, place)
    {
      var e :| e in s[..p] && e.place == j;
      var i :| 0 <= i < p && s[..p][i] == e;
      assert s[i] in DueEntries(r, r.count) && Before(s[i], s[p]);
    }
    DistinctPlaces(s[..p]);
  }

  lemma DueIsInOrder(r: Records, place: nat) returns (p: nat)
    requires IsDue(r, place)
    ensures p < |DueOrder(r)| && DueOrder(r)[p].place == place
  {
    hide DueOrder;
    OrderIsSorted(r);
    assert EntryOf(r, place) in DueEntries(r, r.count);
    p :| p < |DueOrder(r)| && DueOrder(r)[p] == EntryOf(r, place);
  }

  /** A pass reads a due block exactly when fewer than 32 are ahead of it. */
  lemma FirstByPosition(r: Records, place: nat)
    ensures place in First(r) <==> IsDue(r, place) && Position(r, place) < MAX_PER_PASS
  {
    hide DueOrder, IsDue, Ahead;
    var s := DueOrder(r);
    var n := Min(|s|, MAX_PER_PASS);
    if place in First(r) {
      var e :| e in s[..n] && e.place == place;
      var p :| 0 <= p < n && s[..n][p] == e;
      OrderIsPosition(r, p);
    }
    if IsDue(r, place) {
      var p := DueIsInOrder(r, place);
      OrderIsPosition(r, p);
      if p < MAX_PER_PASS {
        assert s[..n][p] == s[p];
      }
    }
  }

  // ---- One pass ----

  /** One pass: when it reads, what the node answers, and the blocks voided before their answer is
      recorded. */
  datatype Pass = Pass(now: nat, answers: map<nat, int>, voided: set<nat>)

  /** The blocks of a pass whose answer is recorded: not those whose read fails, nor those voided. */
  function AnsweredIn(r: Records, pass: Pass): set<nat> { First(r) * (pass.answers.Keys - pass.voided) }

  function Recorded(readings: map<nat, Reading>, places: set<nat>, pass: Pass): map<nat, Reading> {
    readings + map place | place in places * (pass.answers.Keys - pass.voided) :: Reading(pass.now, pass.answers[place])
  }

  function AfterPass(r: Records, pass: Pass): Records {
    r.(readings := Recorded(r.readings, First(r), pass), voided := r.voided + pass.voided)
  }

  lemma NothingRecorded(readings: map<nat, Reading>, pass: Pass)
    ensures Recorded(readings, PlacesOf([]), pass) == readings
  {
  }

  lemma RecordedOneMore(readings: map<nat, Reading>, places: set<nat>, place: nat, pass: Pass)
    ensures var before := Recorded(readings, places, pass);
            Recorded(readings, places + {place}, pass) ==
              if place in pass.answers && place !in pass.voided then before[place := Reading(pass.now, pass.answers[place])]
              else before
  {
  }

  predicate ReadBefore(r: Records, now: nat) {
    forall place :: place in r.readings ==> r.readings[place].checkedAt < now
  }

  /** The blocks ahead that a pass takes out of the way: answered, or voided. */
  function Gone(r: Records, pass: Pass, place: nat): set<nat> {
    Ahead(r, place) * (AnsweredIn(r, pass) + pass.voided)
  }

  lemma KeyAfter(r: Records, pass: Pass, j: nat)
    ensures var after := AfterPass(r, pass);
            && after.count == r.count
            && Key(after, j) == (if j in AnsweredIn(r, pass) then Some(pass.now) else Key(r, j))
            && (j in pass.voided ==> !IsDue(after, j))
            && (j !in pass.voided && j !in AnsweredIn(r, pass) ==> IsDue(after, j) == IsDue(r, j))
  {
    hide First;
  }

  /** A block answered is behind every block that was not. */
  lemma ReadIsBehind(r: Records, pass: Pass, j: nat, place: nat)
    requires ReadBefore(r, pass.now) && place !in AnsweredIn(r, pass) && j in AnsweredIn(r, pass)
    ensures !Before(EntryOf(AfterPass(r, pass), j), EntryOf(AfterPass(r, pass), place))
  {
    hide First, AfterPass;
    KeyAfter(r, pass, j);
    KeyAfter(r, pass, place);
  }

  /** A block not answered keeps its turn, and moves up by exactly the blocks ahead of it that were
      answered or voided: by none when every read fails. */
  lemma MovesUp(r: Records, pass: Pass, place: nat)
    requires ReadBefore(r, pass.now) && IsDue(r, place) && place !in AnsweredIn(r, pass) && place !in pass.voided
    ensures var after := AfterPass(r, pass);
            IsDue(after, place) && Key(after, place) == Key(r, place)
            && Position(after, place) == Position(r, place) - |Gone(r, pass, place)|
  {
    hide First, Key, IsDue, AfterPass, AnsweredIn, Before;
    var after := AfterPass(r, pass);
    KeyAfter(r, pass, place);
    forall j: nat
      ensures j in Ahead(after, place) <==> j in Ahead(r, place) && j !in Gone(r, pass, place)
    {
      KeyAfter(r, pass, j);
      if j in AnsweredIn(r, pass) {
        ReadIsBehind(r, pass, j, place);
      }
    }
    assert Ahead(after, place) == Ahead(r, place) - Gone(r, pass, place);
    SizeLess(Ahead(r, place), Gone(r, pass, place));
  }

  lemma FirstAreAhead(r: Records, place: nat)
    requires IsDue(r, place) && Position(r, place) >= MAX_PER_PASS
    ensures First(r) <= Ahead(r, place) && |First(r)| == MAX_PER_PASS
  {
    hide DueOrder, Ahead, IsDue;
    var p := DueIsInOrder(r, place);
    OrderIsPosition(r, p);
    OrderIsPosition(r, MAX_PER_PASS);
    var s := DueOrder(r);
    forall j | j in First(r)
      ensures j in PlacesOf(s[..p])
    {
      var e :| e in s[..MAX_PER_PASS] && e.place == j;
      var i :| 0 <= i < MAX_PER_PASS && s[..MAX_PER_PASS][i] == e;
      assert s[..p][i] == e;
    }
  }

  lemma SizeLess(a: set<nat>, b: set<nat>)
    requires b <= a
    ensures |a - b| == |a| - |b|
  {
    assert a == b + (a - b);
  }

  /** Past the first 32, those are the reads the pass answers, and the voided: all 32 when every read
      is answered and none is voided. */
  lemma GoneAreTheAnswers(r: Records, pass: Pass, place: nat)
    requires IsDue(r, place) && Position(r, place) >= MAX_PER_PASS && pass.voided == {}
    ensures Gone(r, pass, place) == AnsweredIn(r, pass)
    ensures First(r) <= pass.answers.Keys ==> |AnsweredIn(r, pass)| == MAX_PER_PASS
  {
    hide First, Ahead, IsDue;
    FirstAreAhead(r, place);
    if First(r) <= pass.answers.Keys {
      assert AnsweredIn(r, pass) == First(r);
    }
  }

  // ---- Rounds ----

  function After(r: Records, passes: seq<Pass>, n: nat): Records
    requires n <= |passes|
  {
    if n == 0 then r else AfterPass(After(r, passes, n - 1), passes[n - 1])
  }

  /** On every run a block is still read exactly while it was not voided and no answer recorded for it put it
      a hundred blocks deep: from then on no pass reads it again. */
  lemma {:induction false} DueUntilConfirmedIff(r: Records, passes: seq<Pass>, place: nat, n: nat)
    requires n <= |passes|
    ensures IsDue(After(r, passes, n), place) <==>
      IsDue(r, place) && forall i :: 0 <= i < n ==> LeavesUnconfirmed(After(r, passes, i), passes[i], place)
    ensures !IsDue(After(r, passes, n), place) ==> place !in First(After(r, passes, n))
  {
    hide First, IsDue, AfterPass, Position, LeavesUnconfirmed;
    FirstByPosition(After(r, passes, n), place);
    if n > 0 {
      DueUntilConfirmedIff(r, passes, place, n - 1);
      PassLeavesDueIff(After(r, passes, n - 1), passes[n - 1], place);
    }
  }

  /** The pass does not void the block, nor record that it is deep enough. */
  predicate LeavesUnconfirmed(r: Records, pass: Pass, place: nat) {
    place !in pass.voided && (place in First(r) && place in pass.answers ==> pass.answers[place] < 100)
  }

  lemma PassLeavesDueIff(r: Records, pass: Pass, place: nat)
    ensures IsDue(AfterPass(r, pass), place) <==> IsDue(r, place) && LeavesUnconfirmed(r, pass, place)
  {
    hide First, Position;
    FirstByPosition(r, place);
  }

  /** A block found, not voided and never read is due. */
  lemma NewBlocksAreDue(r: Records, place: nat)
    requires place < r.count && place !in r.voided && place !in r.readings
    ensures IsDue(r, place)
  {
  }

  /** The blocks ahead that the first `n` passes take out of the way, counted. */
  function GoneBy(r: Records, passes: seq<Pass>, place: nat, n: nat): nat
    requires n <= |passes|
  {
    if n == 0 then 0
    else GoneBy(r, passes, place, n - 1) + |Gone(After(r, passes, n - 1), passes[n - 1], place)|
  }

  predicate TimesRise(r: Records, passes: seq<Pass>) {
    && (forall i :: 0 <= i < |passes| ==> ReadBefore(r, passes[i].now))
    && forall i, j :: 0 <= i < j < |passes| ==> passes[i].now < passes[j].now
  }

  predicate NeverVoided(passes: seq<Pass>, place: nat) {
    forall i :: 0 <= i < |passes| ==> place !in passes[i].voided
  }

  lemma RecordedBefore(r: Records, pass: Pass)
    ensures forall now :: ReadBefore(r, now) && pass.now < now ==> ReadBefore(AfterPass(r, pass), now)
  {
    hide First;
  }

  lemma {:induction false} EarlierReadings(r: Records, passes: seq<Pass>, n: nat)
    requires n < |passes| && TimesRise(r, passes)
    ensures forall m :: n <= m < |passes| ==> ReadBefore(After(r, passes, n), passes[m].now)
  {
    hide First, Recorded;
    if n > 0 {
      RecordedBefore(After(r, passes, n - 1), passes[n - 1]);
      EarlierReadings(r, passes, n - 1);
      assert forall m :: n <= m < |passes| ==> passes[n - 1].now < passes[m].now;
    }
  }

  /** Over any run of passes at rising times a block past the first 32 moves up by exactly the blocks
      ahead of it that were answered or voided. */
  lemma {:induction false} MovesUpOverPasses(r: Records, passes: seq<Pass>, place: nat, n: nat)
    requires TimesRise(r, passes) && NeverVoided(passes, place) && IsDue(r, place) && n <= |passes|
    requires n > 0 ==> Position(r, place) - GoneBy(r, passes, place, n - 1) >= MAX_PER_PASS
    ensures IsDue(After(r, passes, n), place)
    ensures Position(After(r, passes, n), place) == Position(r, place) - GoneBy(r, passes, place, n)
  {
    hide IsDue, Position, AfterPass, First, Gone, ReadBefore;
    if n > 0 {
      MovesUpOverPasses(r, passes, place, n - 1);
      EarlierReadings(r, passes, n - 1);
      var before := After(r, passes, n - 1);
      FirstByPosition(before, place);
      MovesUp(before, passes[n - 1], place);
    }
  }

  /** Whether any of the first `n + 1` passes tries to read the block. */
  ghost predicate TriedBy(r: Records, passes: seq<Pass>, place: nat, n: nat)
    requires n <= |passes|
  {
    exists m :: 0 <= m <= n && place in First(After(r, passes, m))
  }

  lemma TriedOneMore(r: Records, passes: seq<Pass>, place: nat, n: nat)
    requires 0 < n <= |passes|
    ensures TriedBy(r, passes, place, n) <==> TriedBy(r, passes, place, n - 1) || place in First(After(r, passes, n))
  {
    hide First, After;
  }

  /** The exact turn: by pass `n + 1` the block has been tried if and only if fewer than 32 of the
      blocks ahead of it are left after the answers and voids of the `n` passes before. */
  lemma {:induction false} TriedIff(r: Records, passes: seq<Pass>, place: nat, n: nat)
    requires TimesRise(r, passes) && NeverVoided(passes, place) && IsDue(r, place) && n <= |passes|
    ensures TriedBy(r, passes, place, n) <==> Position(r, place) - GoneBy(r, passes, place, n) < MAX_PER_PASS
  {
    hide IsDue, Position, First, Gone, TimesRise, TriedBy;
    if n == 0 {
      TriedAtOnce(r, passes, place);
      FirstByPosition(r, place);
    } else {
      TriedOneMore(r, passes, place, n);
      TriedIff(r, passes, place, n - 1);
      if Position(r, place) - GoneBy(r, passes, place, n - 1) >= MAX_PER_PASS {
        MovesUpOverPasses(r, passes, place, n);
        FirstByPosition(After(r, passes, n), place);
      }
    }
  }

  lemma TriedAtOnce(r: Records, passes: seq<Pass>, place: nat)
    ensures TriedBy(r, passes, place, 0) <==> place in First(r)
  {
    hide First;
    assert After(r, passes, 0) == r;
  }

  predicate AllAnswered(r: Records, passes: seq<Pass>) {
    forall i :: 0 <= i < |passes| ==> First(After(r, passes, i)) <= passes[i].answers.Keys && passes[i].voided == {}
  }

  /** While every read is answered and none is voided, each pass takes 32. */
  lemma {:induction false} NearerEachPass(r: Records, passes: seq<Pass>, place: nat, n: nat)
    requires TimesRise(r, passes) && AllAnswered(r, passes) && IsDue(r, place)
    requires n <= Position(r, place) / MAX_PER_PASS && n <= |passes|
    ensures GoneBy(r, passes, place, n) == MAX_PER_PASS * n
  {
    hide IsDue, Position, AfterPass, First, AnsweredIn, Gone, ReadBefore;
    if n > 0 {
      NearerEachPass(r, passes, place, n - 1);
      MovesUpOverPasses(r, passes, place, n - 1);
      GoneAreTheAnswers(After(r, passes, n - 1), passes[n - 1], place);
    }
  }

  /** The round robin is fair: while reads are answered, at rising times, and no block is added or
      voided, the block at position p is read by pass p / 32 + 1 and by none before it. */
  lemma ReadInItsTurn(r: Records, passes: seq<Pass>, place: nat)
    requires TimesRise(r, passes) && AllAnswered(r, passes) && IsDue(r, place)
    requires Position(r, place) / MAX_PER_PASS < |passes|
    ensures forall n :: 0 <= n <= Position(r, place) / MAX_PER_PASS ==>
              (place in AnsweredIn(After(r, passes, n), passes[n]) <==> n == Position(r, place) / MAX_PER_PASS)
  {
    hide IsDue, Ahead, First, After, GoneBy, TimesRise;
    forall n | 0 <= n <= Position(r, place) / MAX_PER_PASS
      ensures place in AnsweredIn(After(r, passes, n), passes[n]) <==> n == Position(r, place) / MAX_PER_PASS
    {
      NearerEachPass(r, passes, place, n);
      if n > 0 {
        NearerEachPass(r, passes, place, n - 1);
      }
      MovesUpOverPasses(r, passes, place, n);
      FirstByPosition(After(r, passes, n), place);
    }
  }

  function Due(r: Records): set<nat> { set j | 0 <= j < r.count && IsDue(r, j) }

  /** So all of the blocks due are read within as many passes as they fill. */
  lemma AllReadInOneRound(r: Records, place: nat)
    requires IsDue(r, place)
    ensures Position(r, place) / MAX_PER_PASS + 1 <= (|Due(r)| + MAX_PER_PASS - 1) / MAX_PER_PASS
  {
    assert Ahead(r, place) + {place} <= Due(r) && place !in Ahead(r, place);
    SizeLess(Due(r), Ahead(r, place) + {place});
  }

  // ---- When reads fail ----

  /** Reads that fail leave everything as it was. */
  lemma {:induction false} FailingReadsChangeNothing(r: Records, passes: seq<Pass>, n: nat)
    requires n <= |passes|
    requires forall i :: 0 <= i < |passes| ==> passes[i].answers.Keys !! First(r) && passes[i].voided == {}
    ensures After(r, passes, n) == r
  {
    hide First;
    if n > 0 {
      FailingReadsChangeNothing(r, passes, n - 1);
      assert Recorded(r.readings, First(r), passes[n - 1]) == r.readings;
    }
  }

  /** So 32 blocks whose reads fail hold back every other for good, though the node would answer
      for it. */
  lemma FailingReadsStarve(r: Records, passes: seq<Pass>, place: nat, n: nat)
    requires n <= |passes| && Position(r, place) >= MAX_PER_PASS
    requires forall i :: 0 <= i < |passes| ==> passes[i].answers.Keys !! First(r) && passes[i].voided == {}
    ensures place !in First(After(r, passes, n))
  {
    hide First, Position;
    FailingReadsChangeNothing(r, passes, n);
    FirstByPosition(r, place);
  }

  function Below(n: nat): (s: set<nat>)
    ensures |s| == n && forall j: nat :: j in s <==> j < n
  {
    if n == 0 then {} else Below(n - 1) + {n - 1}
  }

  /** The 33rd of 33 new blocks is one of them: however many passes answer for it alone, none reads
      it, where one round of the 33 is two passes. */
  lemma TheLastOf33Starves(passes: seq<Pass>, n: nat)
    requires n <= |passes|
    requires forall i :: 0 <= i < |passes| ==> passes[i].answers.Keys == {MAX_PER_PASS} && passes[i].voided == {}
    ensures var r := Records(MAX_PER_PASS + 1, map[], {});
            IsDue(r, MAX_PER_PASS) && |Due(r)| == MAX_PER_PASS + 1
            && MAX_PER_PASS !in First(After(r, passes, n))
  {
    hide First, After, Below;
    var r := Records(MAX_PER_PASS + 1, map[], {});
    assert Ahead(r, MAX_PER_PASS) == Below(MAX_PER_PASS);
    assert Due(r) == Below(MAX_PER_PASS + 1);
    FirstByPosition(r, MAX_PER_PASS);
    FailingReadsStarve(r, passes, MAX_PER_PASS, n);
  }

  function Found(r: Records): Records { r.(count := r.count + 1) }

  /** A new block costs a block that was read before one position, and one never read none. */
  lemma NewBlockCostsOne(r: Records, place: nat)
    requires IsDue(r, place) && r.count !in r.readings && r.count !in r.voided
    ensures IsDue(Found(r), place)
    ensures Position(Found(r), place) == Position(r, place) + if Key(r, place).Some? then 1 else 0
  {
    var after := Ahead(Found(r), place);
    if Key(r, place).Some? {
      assert after == Ahead(r, place) + {r.count};
    } else {
      assert after == Ahead(r, place);
    }
  }

  // ---- The records a pass updates ----

  class BlockRecords {
    var count: nat
    var readings: map<nat, Reading>
    var voided: set<nat>

    ghost function View(): Records
      reads this
    {
      Records(count, readings, voided)
    }

    constructor ()
      ensures View() == Records(0, map[], {})
    {
      count, readings, voided := 0, map[], {};
    }

    /** One pass over the first of the due order: every answer that comes, and is not for a block voided
        meanwhile, is noted under the pass's time. */
    method CheckBlocks(pass: Pass)
      modifies this`readings, this`voided
      ensures View() == AfterPass(old(View()), pass)
    {
      hide DueOrder, PlacesOf, Recorded;
      ghost var before := View();
      var order := DueOrder(Records(count, readings, voided));
      var pending := order[..Min(|order|, MAX_PER_PASS)];
      voided := voided + pass.voided;
      NothingRecorded(readings, pass);
      for i := 0 to |pending|
        invariant readings == Recorded(before.readings, PlacesOf(pending[..i]), pass)
        invariant voided == before.voided + pass.voided
      {
        var place := pending[i].place;
        assert pending[..i + 1] == pending[..i] + [pending[i]];
        PlacesPushed(pending[..i], pending[i]);
        RecordedOneMore(before.readings, PlacesOf(pending[..i]), place, pass);
        if place in pass.answers && place !in pass.voided {
          readings := readings[place := Reading(pass.now, pass.answers[place])];
        }
      }
      assert pending[..|pending|] == pending;
    }
  }
}
