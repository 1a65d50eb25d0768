/**
 * The in-memory table of running practice sessions: a map from session id to
 * record, with an owner check and an idle timeout on every read, and a
 * periodic sweep of idle records. The clock (`Date.now()`) and the id
 * generator (`randomUUID()`) are parameters.
 */
module SessionStore {
  import opened Wrappers
  import opened Text
  import Engine

  /** A card of the deck as the store keeps it for display. */
  datatype CardMeta = CardMeta(
    id: int,
    question: string,
    answer: string,
    questionImageUrl: Option<string>,
    answerImageUrl: Option<string>)

  datatype PracticeSession = PracticeSession(
    id: string,
    userId: int,
    deckId: int,
    state: Engine.SessionState,
    cards: map<string, CardMeta>,
    startedAt: int,
    lastActivity: int,
    ttlMs: int)

  /** Two hours, in milliseconds. */
  const DefaultTtl: int := 2 * 60 * 60 * 1000

  /** A record idle for strictly longer than its time to live; one exactly `ttlMs` old is still alive. */
  predicate Expired(s: PracticeSession, now: int) {
    now - s.lastActivity > s.ttlMs
  }

  /**
   * The card table `createSession` builds: every card under `String(c.id)`,
   * a later card replacing an earlier one with the same id.
   */
  function CardIndex(cards: seq<CardMeta>): (m: map<string, CardMeta>)
    ensures forall k :: k in m ==> IntToString(m[k].id) == k
    ensures cards != [] ==>
      IntToString(cards[|cards| - 1].id) in m && m[IntToString(cards[|cards| - 1].id)] == cards[|cards| - 1]
    decreases |cards|
  {
    if cards == [] then map[]
    else
      var c := cards[|cards| - 1];
      CardIndex(cards[..|cards| - 1])[IntToString(c.id) := c]
  }

  /** Nothing but the cards is in the card table: each entry is one of them, filed under its own id. */
  lemma {:induction false} CardIndexKeys(cards: seq<CardMeta>, k: string)
    requires k in CardIndex(cards)
    ensures CardIndex(cards)[k] in cards
    ensures IntToString(CardIndex(cards)[k].id) == k
    decreases |cards|
  {
    var front := cards[..|cards| - 1];
    var c := cards[|cards| - 1];
    if k != IntToString(c.id) {
      CardIndexKeys(front, k);
      assert CardIndex(cards)[k] == CardIndex(front)[k];
      assert CardIndex(front)[k] in front;
    }
  }

  /** Every card can be found under its own id, and the card found there carries that id. */
  lemma {:induction false} CardIndexFindsEveryCard(cards: seq<CardMeta>, i: int)
    requires 0 <= i < |cards|
    ensures IntToString(cards[i].id) in CardIndex(cards)
    ensures CardIndex(cards)[IntToString(cards[i].id)].id == cards[i].id
    decreases |cards|
  {
    var last := cards[|cards| - 1];
    if i < |cards| - 1 {
      var front := cards[..|cards| - 1];
      assert front[i] == cards[i];
      CardIndexFindsEveryCard(front, i);
      if IntToString(last.id) == IntToString(cards[i].id) {
        IntToStringInjective(last.id, cards[i].id);
      }
    }
  }

  /** With distinct ids the card found under an id is exactly the card with that id. */
  lemma {:induction false} CardIndexOfDistinctIds(cards: seq<CardMeta>, i: int)
    requires forall a, b :: 0 <= a < b < |cards| ==> cards[a].id != cards[b].id
    requires 0 <= i < |cards|
    ensures IntToString(cards[i].id) in CardIndex(cards)
    ensures CardIndex(cards)[IntToString(cards[i].id)] == cards[i]
    decreases |cards|
  {
    var last := cards[|cards| - 1];
    if i < |cards| - 1 {
      var front := cards[..|cards| - 1];
      assert front[i] == cards[i];
      CardIndexOfDistinctIds(front, i);
      if IntToString(last.id) == IntToString(cards[i].id) {
        IntToStringInjective(last.id, cards[i].id);
        assert false;
      }
    }
  }

  /** What `getSession` returns: the owner's record, unless absent or idle too long. */
  function Lookup(m: map<string, PracticeSession>, sessionId: string, userId: int, now: int): (r: Option<PracticeSession>)
    ensures r.Some? <==> sessionId in m && m[sessionId].userId == userId && !Expired(m[sessionId], now)
    ensures r.Some? ==> r.value == m[sessionId].(lastActivity := now)
  {
    if sessionId !in m then None
    else if m[sessionId].userId != userId then None
    else if Expired(m[sessionId], now) then None
    else Some(m[sessionId].(lastActivity := now))
  }

  /**
   * The table after `getSession`: the owner's idle record is deleted, the
   * owner's live record has its activity refreshed, anything else stays.
   */
  function AfterLookup(m: map<string, PracticeSession>, sessionId: string, userId: int, now: int): (r: map<string, PracticeSession>)
    ensures forall id :: id != sessionId ==> (id in r <==> id in m) && (id in r ==> r[id] == m[id])
    ensures sessionId in r <==> Lookup(m, sessionId, userId, now).Some? || (sessionId in m && m[sessionId].userId != userId)
    ensures Lookup(m, sessionId, userId, now).Some? ==> r[sessionId] == Lookup(m, sessionId, userId, now).value
    ensures sessionId in m && m[sessionId].userId != userId ==> r[sessionId] == m[sessionId]
  {
    if sessionId !in m || m[sessionId].userId != userId then m
    else if Expired(m[sessionId], now) then m - {sessionId}
    else m[sessionId := m[sessionId].(lastActivity := now)]
  }

  /** The table the sweep leaves: exactly the records that are not idle too long. */
  function Unexpired(m: map<string, PracticeSession>, now: int): (r: map<string, PracticeSession>)
    ensures forall id :: id in r <==> id in m && !Expired(m[id], now)
    ensures forall id :: id in r ==> r[id] == m[id]
  {
    map id | id in m && !Expired(m[id], now) :: m[id]
  }

  /**
   * The sweep is invisible to readers: after a sweep at `now`, a read at any
   * later time finds what it would have found without the sweep, and leaves
   * the same table behind (up to what the sweep removed).
   */
  lemma SweepInvisibleToLookup(m: map<string, PracticeSession>, now: int, later: int, sessionId: string, userId: int)
    requires now <= later
    ensures Lookup(Unexpired(m, now), sessionId, userId, later) == Lookup(m, sessionId, userId, later)
  {
    if sessionId in m && sessionId !in Unexpired(m, now) {
      assert Expired(m[sessionId], now);
      assert Expired(m[sessionId], later);
    }
  }

  /** Sweeping twice at the same time removes nothing more. */
  lemma SweepIdempotent(m: map<string, PracticeSession>, now: int)
    ensures Unexpired(Unexpired(m, now), now) == Unexpired(m, now)
  {
  }

  /** A record read successfully is not idle at that moment, for any non-negative time to live. */
  lemma LookupRefreshes(m: map<string, PracticeSession>, sessionId: string, userId: int, now: int)
    requires Lookup(m, sessionId, userId, now).Some?
    requires m[sessionId].ttlMs >= 0
    ensures !Expired(Lookup(m, sessionId, userId, now).value, now)
    ensures !Expired(AfterLookup(m, sessionId, userId, now)[sessionId], now)
  {
  }

  /** The shared session table. */
  class Store {
    var sessions: map<string, PracticeSession>

    /** Every record sits under its own id and has the default time to live. */
    ghost predicate Valid()
      reads this
    {
      forall id :: id in sessions ==> sessions[id].id == id && sessions[id].ttlMs == DefaultTtl
    }

    constructor()
      ensures sessions == map[]
      ensures Valid()
    {
      sessions := map[];
    }

    /**
     * `createSession` with `id` the fresh UUID and `now` the clock: builds the
     * card table in one pass and stores a record whose start and last
     * activity are both `now`. A record already under `id` is replaced, as
     * `Map.set` does.
     */
    method CreateSession(id: string, userId: int, deckId: int, state: Engine.SessionState, cards: seq<CardMeta>, now: int)
      returns (session: PracticeSession)
      requires Valid()
      modifies this
      ensures session == PracticeSession(id, userId, deckId, state, CardIndex(cards), now, now, DefaultTtl)
      ensures sessions == old(sessions)[id := session]
      ensures Valid()
    {
      var index: map<string, CardMeta> := map[];
      for i := 0 to |cards|
        invariant index == CardIndex(cards[..i])
      {
        assert cards[..i + 1][..i] == cards[..i];
        index := index[IntToString(cards[i].id) := cards[i]];
      }
      assert cards[..|cards|] == cards;
      session := PracticeSession(id, userId, deckId, state, index, now, now, DefaultTtl);
      sessions := sessions[id := session];
    }

    /** `getSession`: `Lookup`'s answer, leaving `AfterLookup`'s table. */
    method GetSession(sessionId: string, userId: int, now: int) returns (r: Option<PracticeSession>)
      requires Valid()
      modifies this
      ensures r == Lookup(old(sessions), sessionId, userId, now)
      ensures sessions == AfterLookup(old(sessions), sessionId, userId, now)
      ensures Valid()
    {
      if sessionId !in sessions {
        return None;
      }
      var s := sessions[sessionId];
      if s.userId != userId {
        return None;
      }
      if now - s.lastActivity > s.ttlMs {
        sessions := sessions - {sessionId};
        return None;
      }
      s := s.(lastActivity := now);
      sessions := sessions[sessionId := s];
      r := Some(s);
    }

    /** `updateState`: replaces the state and refreshes the activity of a present record, with no owner check. */
    method UpdateState(sessionId: string, newState: Engine.SessionState, now: int)
      requires Valid()
      modifies this
      ensures sessionId in old(sessions) ==>
        sessions == old(sessions)[sessionId := old(sessions)[sessionId].(state := newState, lastActivity := now)]
      ensures sessionId !in old(sessions) ==> sessions == old(sessions)
      ensures Valid()
    {
      if sessionId in sessions {
        sessions := sessions[sessionId := sessions[sessionId].(state := newState, lastActivity := now)];
      }
    }

    /** `removeSession`: deletes the id whether or not it is present. */
    method RemoveSession(sessionId: string)
      requires Valid()
      modifies this
      ensures sessions == old(sessions) - {sessionId}
      ensures Valid()
    {
      sessions := sessions - {sessionId};
    }

    /** The ten-minute interval: one pass over the entries deleting every idle record. */
    method Sweep(now: int)
      requires Valid()
      modifies this
      ensures sessions == Unexpired(old(sessions), now)
      ensures Valid()
    {
      var pending := sessions.Keys;
      while pending != {}
        invariant pending <= old(sessions).Keys
        invariant forall id :: id in sessions <==> id in old(sessions) && (id in pending || !Expired(old(sessions)[id], now))
        invariant forall id :: id in sessions ==> sessions[id] == old(sessions)[id]
        decreases |pending|
      {
        var id :| id in pending;
        if now - sessions[id].lastActivity > sessions[id].ttlMs {
          sessions := sessions - {id};
        }
        pending := pending - {id};
      }
      assert sessions == Unexpired(old(sessions), now);
    }
  }
}
