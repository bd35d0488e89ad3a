/** The sessions saved between connections: resumed by their token, claimed once by the gateway they
    belong to, and out of reach of a copied hello. */
module Sessions {
  import opened Basics
  import opened AbwSlots
  import opened BoundedMaps

  const SESSION_KEEP: Instant := 3600 * SECOND
  const MAX_SAVED_SESSIONS: nat := 4096

  type GatewayKey = nat
  type Token = nat
  /** The splits a verifier recorded, as the store passes them on. */
  type Splits = seq<nat>

  datatype Session = Session(token: Token, abw: Abw)

  datatype SavedSession = SavedSession(session: Session, splits: Splits, savedAt: Instant, openedAt: Instant)

  type Saved = seq<Entry<GatewayKey, SavedSession>>

  predicate IsExpired(s: SavedSession, now: Instant) { DurationSince(now, s.savedAt) > SESSION_KEEP }

  function StillKept(now: Instant): (GatewayKey, SavedSession) -> bool { (_, s) => !IsExpired(s, now) }

  function Save(saved: Saved, key: GatewayKey, session: SavedSession): Saved {
    var live := Retained(saved, StillKept(session.savedAt));
    var kept := Lookup(live, key);
    if kept.Some? && kept.value.openedAt > session.openedAt then live
    else Inserted(live, key, session, MAX_SAVED_SESSIONS)
  }

  /** The saved session a hello resumes. */
  function Resumable(saved: Saved, key: GatewayKey, presented: Option<Token>, now: Instant): Option<SavedSession> {
    var kept := Lookup(saved, key);
    if presented.Some? && kept.Some? && !IsExpired(kept.value, now) && kept.value.session.token == presented.value
    then kept else None
  }

  /** A hello's session and splits: a copy of the session it resumes, its slots resumed from the close,
      under a new token, or a new one. */
  function ResumeOrStart(saved: Saved, key: GatewayKey, presented: Option<Token>, now: Instant, token: Token, seed: Key)
    : (Session, Splits, bool)
  {
    match Resumable(saved, key, presented, now)
    case Some(s) =>
      (Session(token, s.session.abw.(slots := ResumedSlots(s.session.abw.slots, s.savedAt))), s.splits, true)
    case None => (Session(token, Started(now, seed)), [], false)
  }

  predicate Claims(saved: Saved, key: GatewayKey, presented: Token) {
    Lookup(saved, key).Some? && Lookup(saved, key).value.session.token == presented
  }

  function Claim(saved: Saved, key: GatewayKey, presented: Token): Saved {
    if Claims(saved, key, presented) then Removed(saved, key) else saved
  }

  // ---- The store in place ----

  class SessionStore {
    const saved: BoundedMap<GatewayKey, SavedSession>

    ghost predicate Valid()
      reads this, saved
    {
      saved.Valid() && saved.capacity == MAX_SAVED_SESSIONS
    }

    ghost function View(): Saved
      requires Valid()
      reads this, saved
    {
      saved.View()
    }

    constructor ()
      ensures Valid() && View() == [] && fresh(saved)
    {
      saved := new BoundedMap(MAX_SAVED_SESSIONS);
    }

    method SaveSession(key: GatewayKey, session: SavedSession)
      requires Valid()
      modifies saved
      ensures Valid() && View() == Save(old(View()), key, session)
      ensures !NewerIsKept(old(View()), key, session) ==> Lookup(View(), key) == Some(session)
    {
      hide Retained, Lookup, Inserted, Agree, ListOf, IndexIn, NewerIsKept;
      assert DistinctKeys(View()) by { ListIsDistinct(saved.order, saved.entries); }
      SavedIsStored(View(), key, session);
      saved.Retain(StillKept(session.savedAt));
      var kept := saved.Get(key);
      if kept.Some? && kept.value.openedAt > session.openedAt {
        return;
      }
      var _ := saved.Insert(key, session);
    }

    method Resume(key: GatewayKey, presented: Option<Token>, now: Instant, token: Token, seed: Key)
      returns (session: Session, splits: Splits, resumed: bool)
      requires Valid()
      ensures (session, splits, resumed) == ResumeOrStart(View(), key, presented, now, token, seed)
    {
      if presented.Some? {
        var kept := saved.Get(key);
        if kept.Some? && !IsExpired(kept.value, now) && kept.value.session.token == presented.value {
          var abw := kept.value.session.abw;
          return Session(token, abw.(slots := ResumedSlots(abw.slots, kept.value.savedAt))), kept.value.splits, true;
        }
      }
      return Session(token, Started(now, seed)), [], false;
    }

    method ClaimSession(key: GatewayKey, presented: Token) returns (claimed: bool)
      requires Valid()
      modifies saved
      ensures Valid() && View() == Claim(old(View()), key, presented) && claimed == Claims(old(View()), key, presented)
    {
      hide Retained, Lookup, Inserted, Removed, Agree, ListOf, IndexIn;
      var kept := saved.Get(key);
      claimed := kept.Some? && kept.value.session.token == presented;
      if claimed {
        var _ := saved.Remove(key);
      }
    }
  }

  // ---- Runs ----

  datatype Connection = Connection(key: GatewayKey, session: Session, splits: Splits, openedAt: Instant,
                                   resumedFrom: Option<Token>, proven: bool)

  /** `issued` are the tokens given out, and `claimed` lists those claimed, in order. */
  datatype Pool = Pool(saved: Saved, open: map<nat, Connection>, issued: set<Token>, claimed: seq<Token>)

  datatype Event =
    | Hello(id: nat, key: GatewayKey, presented: Option<Token>, openedAt: Instant, now: Instant, seed: Key, token: Token)
    | FrameDecrypts(id: nat)
    | Closed(id: nat, now: Instant, left: Session, splits: Splits)

  function Start(): Pool { Pool([], map[], {}, []) }

  function Greeted(p: Pool, e: Event): Pool
    requires e.Hello?
  {
    var (session, splits, resumed) := ResumeOrStart(p.saved, e.key, e.presented, e.now, e.token, e.seed);
    p.(open := p.open[e.id := Connection(e.key, session, splits, e.openedAt, if resumed then e.presented else None, false)],
       issued := p.issued + {e.token})
  }

  /** The connection is the gateway's own: it claims the session it resumed. */
  function Proved(p: Pool, id: nat): Pool
    requires id in p.open
  {
    var c := p.open[id];
    var after := p.(open := p.open[id := c.(proven := true, resumedFrom := None)]);
    if c.proven || c.resumedFrom.None? then after
    else after.(saved := Claim(p.saved, c.key, c.resumedFrom.value),
                claimed := p.claimed + if Claims(p.saved, c.key, c.resumedFrom.value) then [c.resumedFrom.value] else [])
  }

  /** A proven connection saves what is left of its session, under its token. */
  function Ended(p: Pool, e: Event): Pool
    requires e.Closed? && e.id in p.open
  {
    var c := p.open[e.id];
    var after := p.(open := p.open - {e.id});
    if !c.proven then after
    else after.(saved := Save(p.saved, c.key, SavedSession(e.left.(token := c.session.token), e.splits, e.now, c.openedAt)))
  }

  function Step(p: Pool, e: Event): Pool {
    match e
    case Hello(id, _, _, _, _, _, _) => if id in p.open then p else Greeted(p, e)
    case FrameDecrypts(id) => if id in p.open then Proved(p, id) else p
    case Closed(id, _, _, _) => if id in p.open then Ended(p, e) else p
  }

  function After(events: seq<Event>, n: nat): Pool
    requires n <= |events|
  {
    if n == 0 then Start() else Step(After(events, n - 1), events[n - 1])
  }

  // ---- Tokens ----

  function TokenOf(e: Entry<GatewayKey, SavedSession>): Token { e.value.session.token }

  ghost predicate DistinctTokens(saved: Saved) {
    forall i, j :: 0 <= i < j < |saved| ==> TokenOf(saved[i]) != TokenOf(saved[j])
  }

  ghost predicate Stored(saved: Saved, token: Token) { exists i :: 0 <= i < |saved| && TokenOf(saved[i]) == token }

  /** Every token stored was stored before. */
  ghost predicate NoneNew(after: Saved, before: Saved) { forall t: Token :: Stored(after, t) ==> Stored(before, t) }

  ghost predicate Distinct(claimed: seq<Token>) { forall i, j :: 0 <= i < j < |claimed| ==> claimed[i] != claimed[j] }

  /** A token is at one place at most: an open connection's, a saved session's, or claimed. */
  ghost predicate Inv(p: Pool) {
    && DistinctTokens(p.saved) && Distinct(p.claimed)
    && (forall t: Token :: Stored(p.saved, t) ==> t in p.issued && t !in p.claimed)
    && (forall t: Token :: t in p.claimed ==> t in p.issued)
    && (forall id :: id in p.open ==> IsOwn(p, p.open[id].session.token))
    && (forall a, b :: a in p.open && b in p.open && a != b ==> p.open[a].session.token != p.open[b].session.token)
  }

  ghost predicate IsOwn(p: Pool, token: Token) {
    token in p.issued && token !in p.claimed && !Stored(p.saved, token)
  }

  lemma WithoutTokens(saved: Saved, at: nat)
    requires at < |saved| && DistinctTokens(saved)
    ensures DistinctTokens(Without(saved, at)) && NoneNew(Without(saved, at), saved)
    ensures !Stored(Without(saved, at), TokenOf(saved[at]))
  {
    var left := Without(saved, at);
    assert forall i :: 0 <= i < |left| ==> left[i] == saved[if i < at then i else i + 1];
  }

  lemma RemovedTokens(saved: Saved, key: GatewayKey)
    requires DistinctTokens(saved)
    ensures DistinctTokens(Removed(saved, key)) && NoneNew(Removed(saved, key), saved)
    ensures Lookup(saved, key).Some? ==>
              Stored(saved, Lookup(saved, key).value.session.token)
              && !Stored(Removed(saved, key), Lookup(saved, key).value.session.token)
  {
    hide IndexIn, KeysOf, Without;
    var at := IndexIn(KeysOf(saved), key);
    if at.Some? {
      WithoutTokens(saved, at.value);
      assert TokenOf(saved[at.value]) == Lookup(saved, key).value.session.token;
    }
  }

  lemma PushedTokens(saved: Saved, e: Entry<GatewayKey, SavedSession>)
    requires DistinctTokens(saved) && !Stored(saved, TokenOf(e))
    ensures DistinctTokens(saved + [e])
    ensures forall t: Token :: Stored(saved + [e], t) ==> Stored(saved, t) || t == TokenOf(e)
  {
    forall t: Token | Stored(saved + [e], t)
      ensures Stored(saved, t) || t == TokenOf(e)
    {
      var i :| 0 <= i < |saved + [e]| && TokenOf((saved + [e])[i]) == t;
      if i < |saved| {
        assert TokenOf(saved[i]) == t;
      }
    }
  }

  lemma NewestTokens(saved: Saved, n: nat)
    requires DistinctTokens(saved)
    ensures DistinctTokens(Newest(saved, n)) && NoneNew(Newest(saved, n), saved)
  {
    var newest := Newest(saved, n);
    forall t: Token | Stored(newest, t)
      ensures Stored(saved, t)
    {
      var i :| 0 <= i < |newest| && TokenOf(newest[i]) == t;
      assert TokenOf(saved[|saved| - |newest| + i]) == t;
    }
  }

  lemma {:induction false} RetainedTokens(saved: Saved, keep: (GatewayKey, SavedSession) -> bool)
    requires DistinctTokens(saved)
    ensures DistinctTokens(Retained(saved, keep)) && NoneNew(Retained(saved, keep), saved)
  {
    if saved != [] {
      var front, last := saved[..|saved| - 1], saved[|saved| - 1];
      assert saved == front + [last];
      RetainedTokens(front, keep);
      var kept := Retained(front, keep);
      assert !Stored(front, TokenOf(last));
      PushedTokens(kept, last);
      forall t: Token | Stored(Retained(saved, keep), t)
        ensures Stored(saved, t)
      {
        if Stored(kept, t) {
          StoredInLonger(front, last, t);
        } else {
          assert TokenOf(saved[|saved| - 1]) == t;
        }
      }
    }
  }

  lemma StoredInLonger(saved: Saved, e: Entry<GatewayKey, SavedSession>, t: Token)
    requires Stored(saved, t)
    ensures Stored(saved + [e], t)
  {
    var i :| 0 <= i < |saved| && TokenOf(saved[i]) == t;
    assert TokenOf((saved + [e])[i]) == t;
  }

  /** Saving stores no token but the session's own. */
  lemma SavedTokens(saved: Saved, key: GatewayKey, session: SavedSession)
    requires DistinctTokens(saved) && !Stored(saved, session.session.token)
    ensures DistinctTokens(Save(saved, key, session))
    ensures forall t: Token :: Stored(Save(saved, key, session), t) ==> Stored(saved, t) || t == session.session.token
  {
    hide Retained, Removed, Lookup, Newest, DistinctTokens, Stored;
    var live := Retained(saved, StillKept(session.savedAt));
    RetainedTokens(saved, StillKept(session.savedAt));
    RemovedTokens(live, key);
    PushedTokens(Removed(live, key), Entry(key, session));
    NewestTokens(Removed(live, key) + [Entry(key, session)], MAX_SAVED_SESSIONS);
  }

  lemma ProvedKeeps(p: Pool, id: nat)
    requires Inv(p) && id in p.open
    ensures Inv(Proved(p, id))
  {
    hide Removed, Lookup, DistinctTokens, Stored;
    var c := p.open[id];
    if !c.proven && c.resumedFrom.Some? {
      RemovedTokens(p.saved, c.key);
    }
  }

  lemma EndedKeeps(p: Pool, e: Event)
    requires Inv(p) && e.Closed? && e.id in p.open
    ensures Inv(Ended(p, e))
  {
    hide Save, DistinctTokens, Stored;
    var c := p.open[e.id];
    assert IsOwn(p, c.session.token);
    if c.proven {
      SavedTokens(p.saved, c.key, SavedSession(e.left.(token := c.session.token), e.splits, e.now, c.openedAt));
    }
  }

  lemma GreetedKeeps(p: Pool, e: Event)
    requires Inv(p) && e.Hello? && e.id !in p.open && e.token !in p.issued
    ensures Inv(Greeted(p, e))
  {
    hide Resumable, DistinctTokens, Stored, ResumedSlots;
  }

  /** No token is given out twice, as random ones are not. */
  ghost predicate FreshTokens(events: seq<Event>) {
    forall i, j :: 0 <= i < j < |events| && events[i].Hello? && events[j].Hello? ==> events[i].token != events[j].token
  }

  lemma {:induction false} IssuedByHellos(events: seq<Event>, n: nat)
    requires n <= |events|
    ensures forall t: Token :: t in After(events, n).issued ==> exists i :: 0 <= i < n && events[i].Hello? && events[i].token == t
  {
    hide ResumeOrStart, Save, Claim;
    if n > 0 {
      IssuedByHellos(events, n - 1);
      forall t: Token | t in After(events, n).issued
        ensures exists i :: 0 <= i < n && events[i].Hello? && events[i].token == t
      {
        if t in After(events, n - 1).issued {
          var i :| 0 <= i < n - 1 && events[i].Hello? && events[i].token == t;
        } else {
          assert events[n - 1].Hello? && events[n - 1].token == t;
        }
      }
    }
  }

  lemma {:induction false} RunKeeps(events: seq<Event>, n: nat)
    requires n <= |events| && FreshTokens(events)
    ensures Inv(After(events, n))
  {
    hide Inv, Greeted, Proved, Ended;
    if n > 0 {
      RunKeeps(events, n - 1);
      IssuedByHellos(events, n - 1);
      var p, e := After(events, n - 1), events[n - 1];
      match e
      case Hello(id, _, _, _, _, _, _) => if id !in p.open { GreetedKeeps(p, e); }
      case FrameDecrypts(id) => if id in p.open { ProvedKeeps(p, id); }
      case Closed(id, _, _, _) => if id in p.open { EndedKeeps(p, e); }
    } else {
      NothingYet();
    }
  }

  lemma NothingYet()
    ensures Inv(Start())
  {
  }

  // ---- What is promised ----

  /** On every run each saved session is claimed at most once, and a session that was claimed is no
      longer stored. */
  lemma SessionsAreClaimedOnce(events: seq<Event>, n: nat)
    requires n <= |events| && FreshTokens(events)
    ensures Distinct(After(events, n).claimed)
    ensures forall t: Token :: t in After(events, n).claimed ==> !Stored(After(events, n).saved, t)
  {
    hide After, Stored, DistinctTokens;
    RunKeeps(events, n);
  }

  /** The first `n` events, but for those of connection `id`. */
  function Others(events: seq<Event>, n: nat, id: nat): (others: seq<Event>)
    requires n <= |events|
  {
    if n == 0 then []
    else Others(events, n - 1, id) + if events[n - 1].id == id then [] else [events[n - 1]]
  }

  lemma {:induction false} AfterPrefix(a: seq<Event>, e: Event, n: nat)
    requires n <= |a|
    ensures After(a + [e], n) == After(a, n)
  {
    hide Step;
    if n > 0 {
      AfterPrefix(a, e, n - 1);
    }
  }

  /** The pool without connection `id`. */
  predicate AlikeButFor(p: Pool, q: Pool, id: nat) {
    && p.saved == q.saved && p.claimed == q.claimed
    && id !in q.open && p.open - {id} == q.open
    && (id in p.open ==> !p.open[id].proven)
  }

  lemma UnprovenLeavesTheRest(p: Pool, q: Pool, e: Event, id: nat)
    requires AlikeButFor(p, q, id) && (e.FrameDecrypts? ==> e.id != id)
    ensures AlikeButFor(Step(p, e), if e.id == id then q else Step(q, e), id)
  {
    hide ResumeOrStart, Save, Claim, Claims;
    assert e.id != id ==> (e.id in p.open <==> e.id in q.open);
    if e.id != id && e.id in q.open {
      assert p.open[e.id] == q.open[e.id];
    }
  }

  /** A copied hello takes nothing from its gateway. On every run a connection that no frame ever proves,
      whatever token it presents and whenever it closes, leaves what is stored, what is claimed and every
      other connection exactly as they are without it. */
  lemma {:induction false} CopiedHellosLeaveTheRest(events: seq<Event>, n: nat, id: nat)
    requires n <= |events| && forall e <- events :: e.FrameDecrypts? ==> e.id != id
    ensures var others := Others(events, n, id);
            AlikeButFor(After(events, n), After(others, |others|), id)
  {
    hide Step, AlikeButFor;
    if n == 0 {
      StartsAlike(id);
    } else {
      var e, before := events[n - 1], Others(events, n - 1, id);
      CopiedHellosLeaveTheRest(events, n - 1, id);
      UnprovenLeavesTheRest(After(events, n - 1), After(before, |before|), e, id);
      if e.id == id {
        assert Others(events, n, id) == before;
      } else {
        AfterPrefix(before, e, |before|);
      }
    }
  }

  lemma StartsAlike(id: nat)
    ensures AlikeButFor(Start(), Start(), id)
  {
  }

  lemma LookupRetained(saved: Saved, key: GatewayKey, now: Instant)
    requires DistinctKeys(saved)
    ensures DistinctKeys(Retained(saved, StillKept(now))) && |Retained(saved, StillKept(now))| <= |saved|
    ensures Lookup(Retained(saved, StillKept(now)), key) ==
              if Lookup(saved, key).Some? && !IsExpired(Lookup(saved, key).value, now) then Lookup(saved, key) else None
  {
    hide Lookup, Retained, PartOf, IsExpired;
    var live := Retained(saved, StillKept(now));
    RetainedTakes(saved, StillKept(now));
    PartIsDistinct(live, saved);
    LookupSame(live, saved, key, now);
  }

  /** Lists that hold the same entry of a key look it up alike. */
  lemma LookupSame(live: Saved, saved: Saved, key: GatewayKey, now: Instant)
    requires DistinctKeys(saved) && DistinctKeys(live)
    requires forall e: Entry<GatewayKey, SavedSession> :: e in live <==> e in saved && !IsExpired(e.value, now)
    ensures Lookup(live, key) ==
              if Lookup(saved, key).Some? && !IsExpired(Lookup(saved, key).value, now) then Lookup(saved, key) else None
  {
    hide Lookup, IsExpired, DistinctKeys;
    if Lookup(live, key).Some? {
      LookupFinds(live, key, Lookup(live, key).value);
      LookupFinds(saved, key, Lookup(live, key).value);
    }
    if Lookup(saved, key).Some? {
      LookupFinds(saved, key, Lookup(saved, key).value);
      LookupFinds(live, key, Lookup(saved, key).value);
    }
  }

  /** What an insertion leaves to be looked up: the new entry, and every other that still fits. */
  lemma LookupInserted(list: Saved, key: GatewayKey, session: SavedSession)
    requires DistinctKeys(list)
    ensures var after := Inserted(list, key, session, MAX_SAVED_SESSIONS);
      && DistinctKeys(after) && |after| <= MAX_SAVED_SESSIONS
      && Lookup(after, key) == Some(session)
      && (|list| < MAX_SAVED_SESSIONS ==> forall other :: other != key ==> Lookup(after, other) == Lookup(list, other))
  {
    hide Lookup, Removed, Inserted, PartOf;
    var after, others := Inserted(list, key, session, MAX_SAVED_SESSIONS), Removed(list, key);
    RemovedTakesOne(list, key);
    PartIsDistinct(others, list);
    InsertedHolds(list, key, session, MAX_SAVED_SESSIONS);
    assert after[|after| - 1] in after;
    LookupFinds(after, key, session);
    if |list| < MAX_SAVED_SESSIONS {
      AllOthersStay(list, others, after, key, session);
      forall other | other != key ensures Lookup(after, other) == Lookup(list, other) {
        OtherLookup(list, after, key, other);
      }
    }
  }

  lemma AllOthersStay(list: Saved, others: Saved, after: Saved, key: GatewayKey, session: SavedSession)
    requires others == Removed(list, key) && |others| < MAX_SAVED_SESSIONS
    requires after == Inserted(list, key, session, MAX_SAVED_SESSIONS)
    requires forall e: Entry<GatewayKey, SavedSession> :: e in others <==> e in list && e.key != key
    ensures forall e: Entry<GatewayKey, SavedSession> :: e.key != key ==> (e in after <==> e in list)
  {
    hide Removed;
    assert after == others + [Entry(key, session)];
  }

  lemma OtherLookup(list: Saved, after: Saved, key: GatewayKey, other: GatewayKey)
    requires DistinctKeys(list) && DistinctKeys(after) && other != key
    requires forall e: Entry<GatewayKey, SavedSession> :: e.key != key ==> (e in after <==> e in list)
    ensures Lookup(after, other) == Lookup(list, other)
  {
    hide Lookup, DistinctKeys;
    if Lookup(after, other).Some? {
      LookupFinds(after, other, Lookup(after, other).value);
      LookupFinds(list, other, Lookup(after, other).value);
    }
    if Lookup(list, other).Some? {
      LookupFinds(list, other, Lookup(list, other).value);
      LookupFinds(after, other, Lookup(list, other).value);
    }
  }

  /** A newer connection of the same gateway saved a session that has not expired. */
  predicate NewerIsKept(saved: Saved, key: GatewayKey, session: SavedSession) {
    var kept := Lookup(saved, key);
    kept.Some? && kept.value.openedAt > session.openedAt && !IsExpired(kept.value, session.savedAt)
  }

  /** A save stores the session, unless a newer connection's is kept in its place; and every other gateway's
      session that has not expired stays, as long as they fit. */
  lemma SavedIsStored(saved: Saved, key: GatewayKey, session: SavedSession)
    requires DistinctKeys(saved)
    ensures var after := Save(saved, key, session);
      && DistinctKeys(after)
      && Lookup(after, key) == (if NewerIsKept(saved, key, session) then Lookup(saved, key) else Some(session))
      && (|saved| < MAX_SAVED_SESSIONS ==>
            forall other :: other != key && Lookup(saved, other).Some? ==>
              Lookup(after, other) ==
                if IsExpired(Lookup(saved, other).value, session.savedAt) then None else Lookup(saved, other))
  {
    hide Lookup, Retained, Inserted, IsExpired, DistinctKeys;
    LookupRetained(saved, key, session.savedAt);
    var live := Retained(saved, StillKept(session.savedAt));
    LookupInserted(live, key, session);
    forall other | other != key && Lookup(saved, other).Some?
      ensures Lookup(live, other) ==
        if IsExpired(Lookup(saved, other).value, session.savedAt) then None else Lookup(saved, other)
    {
      LookupRetained(saved, other, session.savedAt);
    }
  }

  /** So an older connection's close never takes the place of the session a newer one saved for the same
      gateway, until that session expires. */
  lemma NewerSessionsStay(saved: Saved, key: GatewayKey, session: SavedSession)
    requires DistinctKeys(saved) && Lookup(saved, key).Some?
    requires Lookup(saved, key).value.openedAt > session.openedAt && !IsExpired(Lookup(saved, key).value, session.savedAt)
    ensures Lookup(Save(saved, key, session), key) == Lookup(saved, key)
  {
    hide Lookup, Save;
    SavedIsStored(saved, key, session);
  }

  /** What a gateway finds again of the session it left at `savedAt`: every slot's key, as secret as it was,
      and the slot in use with its counts. A reveal still pending is put off to its delay from then, once,
      and one already sent is owed again. */
  ghost predicate Continues(resumed: Abw, left: Abw, savedAt: Instant) {
    && resumed.(slots := left.slots) == left && |resumed.slots| == |left.slots|
    && (|left.slots| == |left.published| == SLOTS ==> forall slot: nat :: KeyFor(resumed, slot) == KeyFor(left, slot))
    && (forall i :: 0 <= i < |left.slots| ==>
          resumed.slots[i].DueAt() ==
            match left.slots[i]
            case Retired(_, at, onOpenConnection) => Some(if onOpenConnection then savedAt + 300 * SECOND else at)
            case Revealed(_, resendAt) => if resendAt.Some? then resendAt else Some(savedAt)
            case _ => None)
  }

  lemma ResumedContinues(left: Abw, savedAt: Instant)
    ensures Continues(left.(slots := ResumedSlots(left.slots, savedAt)), left, savedAt)
  {
  }

  /** A gateway that presents the token of its saved session within the hour goes on with that session's
      keys and splits, under the new token; whatever else a hello presents starts a session with no splits
      and one key. */
  lemma TokenResumesWhatWasSaved(
    saved: Saved, key: GatewayKey, presented: Option<Token>, now: Instant, token: Token, seed: Key)
    ensures var (session, splits, resumed) := ResumeOrStart(saved, key, presented, now, token, seed);
      var kept := Lookup(saved, key);
      && session.token == token
      && (resumed <==> kept.Some? && presented == Some(kept.value.session.token)
                       && now - kept.value.savedAt <= 3600 * SECOND)
      && (resumed ==> splits == kept.value.splits && Continues(session.abw, kept.value.session.abw, kept.value.savedAt))
      && (!resumed ==> splits == [] && KeyFor(session.abw, 0) == Some((seed, Secret)))
      && (!resumed ==> forall slot: nat :: slot != 0 ==> KeyFor(session.abw, slot).None?)
  {
    hide Lookup, Continues;
    var kept := Lookup(saved, key);
    if kept.Some? {
      ResumedContinues(kept.value.session.abw, kept.value.savedAt);
    }
  }

  // ---- Over runs ----

  /** A step that leaves the gateway's stored session in place: no other connection claims it, none the
      gateway opened since saves its own, and a save finds room and the session not expired. */
  ghost predicate LeavesStored(p: Pool, e: Event, key: GatewayKey, s: SavedSession) {
    match e
    case Hello(_, _, _, _, _, _, _) => true
    case FrameDecrypts(id) =>
      id in p.open && !p.open[id].proven && p.open[id].key == key ==> p.open[id].resumedFrom != Some(s.session.token)
    case Closed(id, now, _, _) =>
      id in p.open && p.open[id].proven ==>
        now - s.savedAt <= 3600 * SECOND
        && (if p.open[id].key == key then p.open[id].openedAt < s.openedAt else |p.saved| < MAX_SAVED_SESSIONS)
  }

  lemma ClaimKeepsDistinct(saved: Saved, key: GatewayKey, presented: Token)
    requires DistinctKeys(saved)
    ensures DistinctKeys(Claim(saved, key, presented))
    ensures forall other :: other != key || !Claims(saved, key, presented) ==>
              Lookup(Claim(saved, key, presented), other) == Lookup(saved, other)
  {
    hide Lookup, Removed, PartOf;
    RemovedTakesOne(saved, key);
    PartIsDistinct(Removed(saved, key), saved);
    if Claims(saved, key, presented) {
      forall other | other != key ensures Lookup(Removed(saved, key), other) == Lookup(saved, other) {
        OtherLookup(saved, Removed(saved, key), key, other);
      }
    }
  }

  lemma StepKeepsKeysDistinct(p: Pool, e: Event)
    requires DistinctKeys(p.saved)
    ensures DistinctKeys(Step(p, e).saved)
  {
    hide Save, Claim, Claims, ResumeOrStart, DistinctKeys;
    match e
    case Hello(_, _, _, _, _, _, _) =>
    case FrameDecrypts(id) =>
      if id in p.open && p.open[id].resumedFrom.Some? {
        ClaimKeepsDistinct(p.saved, p.open[id].key, p.open[id].resumedFrom.value);
      }
    case Closed(id, now, left, splits) =>
      if id in p.open {
        var c := p.open[id];
        SavedIsStored(p.saved, c.key, SavedSession(left.(token := c.session.token), splits, now, c.openedAt));
      }
  }

  lemma StepLeavesStored(p: Pool, e: Event, key: GatewayKey, s: SavedSession)
    requires DistinctKeys(p.saved) && Lookup(p.saved, key) == Some(s) && LeavesStored(p, e, key, s)
    ensures Lookup(Step(p, e).saved, key) == Some(s)
  {
    hide Save, Claim, ResumeOrStart, DistinctKeys, Lookup;
    match e
    case Hello(_, _, _, _, _, _, _) =>
    case FrameDecrypts(id) =>
      if id in p.open && p.open[id].resumedFrom.Some? {
        ClaimKeepsDistinct(p.saved, p.open[id].key, p.open[id].resumedFrom.value);
      }
    case Closed(id, now, left, splits) =>
      if id in p.open {
        var c := p.open[id];
        SavedIsStored(p.saved, c.key, SavedSession(left.(token := c.session.token), splits, now, c.openedAt));
      }
  }

  /** The session a proven connection's close leaves. */
  function LeftBy(p: Pool, e: Event): SavedSession
    requires e.Closed? && e.id in p.open
  {
    var c := p.open[e.id];
    SavedSession(Session(c.session.token, e.left.abw), e.splits, e.now, c.openedAt)
  }

  lemma {:induction false} KeysStayDistinct(events: seq<Event>, n: nat)
    requires n <= |events|
    ensures DistinctKeys(After(events, n).saved)
  {
    hide Step, DistinctKeys;
    if n > 0 {
      KeysStayDistinct(events, n - 1);
      StepKeepsKeysDistinct(After(events, n - 1), events[n - 1]);
    } else {
      NoneSaved();
    }
  }

  lemma NoneSaved()
    ensures DistinctKeys(Start().saved)
  {
  }

  lemma {:induction false} StaysStored(events: seq<Event>, n: nat, m: nat, key: GatewayKey, s: SavedSession)
    requires n <= m <= |events| && Lookup(After(events, n).saved, key) == Some(s)
    requires forall i :: n <= i < m ==> LeavesStored(After(events, i), events[i], key, s)
    ensures Lookup(After(events, m).saved, key) == Some(s)
  {
    hide Step, DistinctKeys, Lookup, LeavesStored;
    if n < m {
      StaysStored(events, n, m - 1, key, s);
      KeysStayDistinct(events, m - 1);
      StepLeavesStored(After(events, m - 1), events[m - 1], key, s);
    }
  }

  /** What the store is for. On every run, a gateway whose proven connection closed, and that comes back
      within the hour with that connection's token, finds its splits and its slots' keys again, whatever
      other gateways did meanwhile, as long as nothing took the session's place or claimed it. */
  lemma ClosedIsResumed(events: seq<Event>, n: nat, m: nat)
    requires n < m < |events| && events[n].Closed? && events[n].id in After(events, n).open
    requires var p := After(events, n);
      p.open[events[n].id].proven && !NewerIsKept(p.saved, p.open[events[n].id].key, LeftBy(p, events[n]))
    requires forall i :: n < i < m ==>
      LeavesStored(After(events, i), events[i], After(events, n).open[events[n].id].key, LeftBy(After(events, n), events[n]))
    requires var left, e := LeftBy(After(events, n), events[n]), events[m];
      && e.Hello? && e.key == After(events, n).open[events[n].id].key && e.id !in After(events, m).open
      && e.presented == Some(left.session.token) && e.now - left.savedAt <= 3600 * SECOND
    ensures events[m].id in After(events, m + 1).open
    ensures var left, c := LeftBy(After(events, n), events[n]), After(events, m + 1).open[events[m].id];
      && c.resumedFrom == Some(left.session.token) && c.splits == left.splits
      && c.session.token == events[m].token && Continues(c.session.abw, left.session.abw, left.savedAt)
  {
    hide DistinctKeys, Lookup, LeavesStored, Continues, ResumeOrStart, Save, NewerIsKept;
    var p, e := After(events, n), events[m];
    var left, key := LeftBy(p, events[n]), p.open[events[n].id].key;
    KeysStayDistinct(events, n);
    SavedIsStored(p.saved, key, left);
    assert Step(p, events[n]).saved == Save(p.saved, key, left);
    StaysStored(events, n + 1, m, key, left);
    TokenResumesWhatWasSaved(After(events, m).saved, key, e.presented, e.now, e.token, e.seed);
  }

  /** A hello takes nothing: what is stored and claimed, and every other connection, stay. Its own connection is not
      proven, and remembers the token presented exactly when that resumed a session. */
  lemma HelloTakesNothing(p: Pool, e: Event)
    requires e.Hello? && e.id !in p.open
    ensures var after, kept := Step(p, e), Lookup(p.saved, e.key);
      && after.saved == p.saved && after.claimed == p.claimed && after.issued == p.issued + {e.token}
      && e.id in after.open && after.open - {e.id} == p.open
      && var c := after.open[e.id];
         && c.key == e.key && c.openedAt == e.openedAt && !c.proven && c.session.token == e.token
         && c.resumedFrom ==
              if kept.Some? && e.presented == Some(kept.value.session.token) && e.now - kept.value.savedAt <= 3600 * SECOND
              then e.presented else None
  {
    hide Lookup, Started, ResumedSlots;
  }

  /** A frame that decrypts proves its connection once: only then, and only if the session it resumed is still
      stored for its key, that session is claimed and stored no more; nothing else changes. */
  lemma ProofClaims(p: Pool, id: nat)
    requires DistinctKeys(p.saved) && id in p.open
    ensures var c, after := p.open[id], Proved(p, id);
      var kept := Lookup(p.saved, c.key);
      && after.issued == p.issued && after.open.Keys == p.open.Keys
      && (forall other :: other in p.open && other != id ==> after.open[other] == p.open[other])
      && after.open[id] == Connection(c.key, c.session, c.splits, c.openedAt, None, true)
      && if !c.proven && kept.Some? && c.resumedFrom == Some(kept.value.session.token) then
           && after.claimed == p.claimed + [kept.value.session.token] && Lookup(after.saved, c.key).None?
           && forall other :: other != c.key ==> Lookup(after.saved, other) == Lookup(p.saved, other)
         else after.claimed == p.claimed && after.saved == p.saved
  {
    hide Lookup, Removed, DistinctKeys;
    var c := p.open[id];
    if c.resumedFrom.Some? {
      ClaimKeepsDistinct(p.saved, c.key, c.resumedFrom.value);
      RemovedIsGone(p.saved, c.key);
    }
  }

  lemma RemovedIsGone(saved: Saved, key: GatewayKey)
    requires DistinctKeys(saved)
    ensures Lookup(Removed(saved, key), key).None?
  {
    hide Lookup, Removed, PartOf;
    RemovedTakesOne(saved, key);
    var left := Removed(saved, key);
    LookupFindsNone(left, key);
    forall i | 0 <= i < |left| ensures left[i].key != key {
      assert left[i] in left;
    }
  }

  function Reconnecting(
    key: GatewayKey, token: Token, seed: Key, openedAt: Instant, left: Session, splits: Splits, closedAt: Instant,
    again: Event): (events: seq<Event>)
    ensures |events| == 5
  {
    [Hello(0, key, None, openedAt, openedAt, seed, token), FrameDecrypts(0), Closed(0, closedAt, left, splits), again,
     FrameDecrypts(1)]
  }

  /** The whole of it from an empty store: a gateway connects, proves its connection, loses it, comes back with its
      token within the hour and proves that one. It goes on with its session, which is claimed and stored no
      more. */
  lemma ReconnectingGoesOn(
    key: GatewayKey, token: Token, seed: Key, openedAt: Instant, left: Session, splits: Splits, closedAt: Instant,
    again: Event)
    requires again.Hello? && again.id == 1 && again.key == key && again.presented == Some(token)
    requires again.now - closedAt <= 3600 * SECOND
    ensures var p := After(Reconnecting(key, token, seed, openedAt, left, splits, closedAt, again), 5);
      && p.saved == [] && p.claimed == [token] && p.open.Keys == {1}
      && p.open[1].proven && p.open[1].session.token == again.token && p.open[1].splits == splits
      && Continues(p.open[1].session.abw, left.abw, closedAt)
  {
    hide Continues, Started, ResumedSlots;
    var events := Reconnecting(key, token, seed, openedAt, left, splits, closedAt, again);
    var first := Connection(key, Session(token, Started(openedAt, seed)), [], openedAt, None, false);
    assert After(events, 1) == Pool([], map[0 := first], {token}, []);
    assert After(events, 2) == Pool([], map[0 := first.(proven := true)], {token}, []);
    var kept := SavedSession(Session(token, left.abw), splits, closedAt, openedAt);
    SavedAlone(key, kept);
    assert After(events, 3).saved == [Entry(key, kept)] && After(events, 3).open == map[] && After(events, 3).claimed == [];
    ResumedContinues(left.abw, closedAt);
    assert After(events, 4).saved == [Entry(key, kept)] && After(events, 4).claimed == [];
    assert After(events, 4).open.Keys == {1} && After(events, 4).open[1].resumedFrom == Some(token);
  }

  lemma SavedAlone(key: GatewayKey, session: SavedSession)
    ensures Save([], key, session) == [Entry(key, session)]
    ensures Lookup([Entry(key, session)], key) == Some(session)
    ensures Removed([Entry(key, session)], key) == []
  {
    assert KeysOf([Entry(key, session)]) == [key];
  }
}
