/**
 * The practice HTTP handlers as compositions of the session store and the
 * engine: start, answer, status, finish and cancel. Each handler answers
 * either a reply or an HTTP status code; every error the engine throws
 * becomes status 500, as the shared error handler turns an error without a
 * status into 500. The authenticated user, the deck the database finds, the
 * fresh session id, the clock and whether the database write succeeds are
 * parameters.
 */
module PracticeController {
  import opened Wrappers
  import opened Text
  import Engine
  import opened SessionStore

  const Unauthorized: int := 401
  const Forbidden: int := 403
  const BadRequest: int := 400
  const NotFound: int := 404
  const ServerError: int := 500

  /** A deck of the requesting user with its cards, as the database returns it. */
  datatype Deck = Deck(id: int, cards: seq<CardMeta>)

  /** The card fields sent to the client; an empty image url is sent as null. */
  datatype CardView = CardView(id: int, question: string, questionImageUrl: Option<string>)

  datatype StartReply = StartReply(sessionId: string, totalCards: nat, roundIndex: int, firstCard: Option<CardView>)

  datatype AnswerReply = Finished | NextCard(nextCard: CardView, roundIndex: int, remaining: nat)

  datatype StatusReply = StatusReply(roundIndex: int, remaining: nat, currentCard: Option<CardView>)

  datatype Summary = Summary(cards: nat, rounds: int, correctCount: nat, wrongCount: nat)

  datatype Interaction = Interaction(cardId: string, round: int, isCorrect: bool)

  /** What `finishPractice` hands to the database. */
  datatype LearningRecord = LearningRecord(userId: int, deckId: int, durationMs: int, interactions: seq<Interaction>)

  function View(c: CardMeta): (v: CardView)
    ensures v.id == c.id && v.question == c.question
    ensures v.questionImageUrl.Some? <==> c.questionImageUrl.Some? && c.questionImageUrl.value != ""
    ensures v.questionImageUrl.Some? ==> v.questionImageUrl == c.questionImageUrl
  {
    CardView(c.id, c.question, if c.questionImageUrl == Some("") then None else c.questionImageUrl)
  }

  /** The cards `startSession` gives the engine: each deck card under `String(c.id)`. */
  function CardsForAlgo(cards: seq<CardMeta>): (r: seq<Engine.Card>)
    ensures |r| == |cards|
    ensures forall i :: 0 <= i < |cards| ==> r[i].id == IntToString(cards[i].id)
  {
    seq(|cards|, i requires 0 <= i < |cards| => Engine.Card(IntToString(cards[i].id), Some(cards[i].question), Some(cards[i].answer)))
  }

  /** The database gives every card of a deck its own id. */
  predicate DistinctIds(cards: seq<CardMeta>) {
    forall a, b :: 0 <= a < b < |cards| ==> cards[a].id != cards[b].id
  }

  /** A deck whose cards have distinct ids starts a session in the engine's invariant. */
  lemma StartStateValid(cards: seq<CardMeta>)
    requires DistinctIds(cards)
    ensures Engine.Valid(Engine.InitialState(CardsForAlgo(cards)))
  {
    var algo := CardsForAlgo(cards);
    forall a, b | 0 <= a < b < |algo|
      ensures algo[a].id != algo[b].id
    {
      if algo[a].id == algo[b].id {
        IntToStringInjective(cards[a].id, cards[b].id);
      }
    }
    Engine.InitialStateValid(algo);
  }

  /** The card shown for a queued id: absent when the id is empty (falsy) or not in the card table. */
  function CardFor(cards: map<string, CardMeta>, nextId: Option<string>): Option<CardView> {
    if nextId.Some? && nextId.value != "" && nextId.value in cards then Some(View(cards[nextId.value])) else None
  }

  /**
   * The first card a new session offers is the first deck card's id, and the
   * card table shows a card with that id (that very card when ids are distinct).
   */
  lemma FirstCardShown(cards: seq<CardMeta>)
    requires cards != []
    ensures var next := Engine.GetNextCardId(Engine.InitialState(CardsForAlgo(cards)));
      && next == Some(IntToString(cards[0].id))
      && CardFor(CardIndex(cards), next).Some?
      && CardFor(CardIndex(cards), next).value.id == cards[0].id
      && (DistinctIds(cards) ==> CardFor(CardIndex(cards), next) == Some(View(cards[0])))
  {
    var algo := CardsForAlgo(cards);
    var k := IntToString(cards[0].id);
    assert algo[0].id == k;
    var s := Engine.InitialState(algo);
    assert s.queue[0] == k;
    assert Engine.GetNextCardId(s) == Some(k);
    var index := CardIndex(cards);
    CardIndexFindsEveryCard(cards, 0);
    assert k != "" && k in index;
    assert CardFor(index, Some(k)) == Some(View(index[k]));
    if DistinctIds(cards) {
      CardIndexOfDistinctIds(cards, 0);
    }
  }

  // ---------------------------------------------------------------------------
  // The finish summary
  // ---------------------------------------------------------------------------

  function Interactions(history: seq<Engine.HistoryEntry>): (r: seq<Interaction>)
    ensures |r| == |history|
    ensures forall i :: 0 <= i < |history| ==>
      r[i] == Interaction(history[i].cardId, history[i].round, history[i].isCorrect)
  {
    seq(|history|, i requires 0 <= i < |history| => Interaction(history[i].cardId, history[i].round, history[i].isCorrect))
  }

  /** The positions of the interactions answered correctly. */
  function CorrectPositions(xs: seq<Interaction>): set<int> {
    set i | 0 <= i < |xs| && xs[i].isCorrect
  }

  /** Appending an interaction adds its position exactly when it was answered correctly. */
  lemma CorrectPositionsSnoc(xs: seq<Interaction>)
    requires xs != []
    ensures |CorrectPositions(xs)| == |CorrectPositions(xs[..|xs| - 1])| + (if xs[|xs| - 1].isCorrect then 1 else 0)
  {
    var k := |xs| - 1;
    var front := CorrectPositions(xs[..k]);
    assert front == set i | 0 <= i < k && xs[i].isCorrect;
    assert k !in front;
    if xs[k].isCorrect {
      assert CorrectPositions(xs) == front + {k};
    } else {
      assert CorrectPositions(xs) == front;
    }
  }

  /** `filter(i => i.isCorrect).length`: the number of interactions answered correctly. */
  function CorrectCount(xs: seq<Interaction>): (n: nat)
    ensures n == |CorrectPositions(xs)|
    ensures n <= |xs|
    decreases |xs|
  {
    if xs == [] then 0
    else
      CorrectPositionsSnoc(xs);
      CorrectCount(xs[..|xs| - 1]) + (if xs[|xs| - 1].isCorrect then 1 else 0)
  }

  /** The cards that were answered at least once. */
  function CardIds(xs: seq<Interaction>): set<string> {
    set x | x in xs :: x.cardId
  }

  /** There are never more distinct cards than interactions. */
  lemma {:induction false} CardIdsBound(xs: seq<Interaction>)
    ensures |CardIds(xs)| <= |xs|
    decreases |xs|
  {
    if xs != [] {
      var front := xs[..|xs| - 1];
      CardIdsBound(front);
      assert xs == front + [xs[|xs| - 1]];
      assert CardIds(xs) == CardIds(front) + {xs[|xs| - 1].cardId};
    }
  }

  /** `Math.max(1, ...rounds)`: the largest recorded round, and 1 when there is none below it. */
  function MaxRound(xs: seq<Interaction>): (m: int)
    ensures m >= 1
    ensures forall i :: 0 <= i < |xs| ==> xs[i].round <= m
    ensures m == 1 || exists i :: 0 <= i < |xs| && xs[i].round == m
    decreases |xs|
  {
    if xs == [] then 1
    else
      var front := MaxRound(xs[..|xs| - 1]);
      var last := xs[|xs| - 1].round;
      if last > front then last else front
  }

  /** The summary `finishPractice` replies with. */
  function Summarize(xs: seq<Interaction>): (s: Summary)
    ensures s.correctCount == CorrectCount(xs) && s.cards == |CardIds(xs)|
    ensures s.correctCount + s.wrongCount == |xs|
    ensures s.cards <= |xs|
    ensures s.cards == 0 <==> xs == []
    ensures s.rounds >= 1 && forall i :: 0 <= i < |xs| ==> xs[i].round <= s.rounds
    ensures s.rounds == 1 || exists i :: 0 <= i < |xs| && xs[i].round == s.rounds
  {
    CardIdsBound(xs);
    assert xs != [] ==> xs[0].cardId in CardIds(xs);
    var correct := CorrectCount(xs);
    Summary(|CardIds(xs)|, MaxRound(xs), correct, |xs| - correct)
  }

  /** `Math.max(1, Math.floor(durationMs || 0))` on a whole number of milliseconds. */
  function StoredDuration(durationMs: Option<int>): (d: int)
    ensures d >= 1
    ensures durationMs.Some? && durationMs.value >= 1 ==> d == durationMs.value
    ensures durationMs.None? || durationMs.value < 1 ==> d == 1
  {
    if durationMs.Some? && durationMs.value > 1 then durationMs.value else 1
  }

  // ---------------------------------------------------------------------------
  // The handlers
  // ---------------------------------------------------------------------------

  /**
   * `startSession`. `deck` is the user's deck with that id, if any; `newId` is
   * the UUID the store draws; `now` the clock.
   */
  method StartSession(store: Store, authUser: Option<int>, deck: Option<Deck>, newId: string, now: int)
    returns (r: Result<StartReply, int>)
    requires store.Valid()
    modifies store
    ensures store.Valid()
    ensures authUser.None? ==> r == Err(Unauthorized) && store.sessions == old(store.sessions)
    ensures authUser.Some? && deck.None? ==> r == Err(Forbidden) && store.sessions == old(store.sessions)
    ensures authUser.Some? && deck.Some? && deck.value.cards == [] ==>
      r == Err(BadRequest) && store.sessions == old(store.sessions)
    ensures authUser.Some? && deck.Some? && deck.value.cards != [] ==>
      var cards := deck.value.cards;
      var session := PracticeSession(newId, authUser.value, deck.value.id, Engine.InitialState(CardsForAlgo(cards)),
                                     CardIndex(cards), now, now, DefaultTtl);
      && store.sessions == old(store.sessions)[newId := session]
      && r.Ok?
      && r.value.sessionId == newId && r.value.totalCards == |cards| && r.value.roundIndex == 1
      && r.value.firstCard.Some? && r.value.firstCard.value.id == cards[0].id
      && (DistinctIds(cards) ==> r.value.firstCard == Some(View(cards[0])))
  {
    if authUser.None? {
      return Err(Unauthorized);
    }
    if deck.None? {
      return Err(Forbidden);
    }
    var cards := deck.value.cards;
    if |cards| == 0 {
      return Err(BadRequest);
    }
    var state := Engine.InitSession(CardsForAlgo(cards));
    var sess := store.CreateSession(newId, authUser.value, deck.value.id, state, cards, now);
    var nextId := Engine.GetNextCardId(sess.state);
    FirstCardShown(cards);
    var nextCard := CardFor(sess.cards, nextId);
    r := Ok(StartReply(sess.id, |cards|, sess.state.round, nextCard));
  }

  /**
   * `answerPractice`. The read of the session refreshes its activity even when
   * the engine then rejects the answer; the new state is stored only after the
   * engine accepted it.
   */
  method AnswerPractice(store: Store, authUser: Option<int>, sessionId: string, cardId: int, isCorrect: bool, now: int)
    returns (r: Result<AnswerReply, int>)
    requires store.Valid()
    modifies store
    ensures store.Valid()
    ensures authUser.None? ==> r == Err(Unauthorized) && store.sessions == old(store.sessions)
    ensures authUser.Some? ==>
      var found := Lookup(old(store.sessions), sessionId, authUser.value, now);
      var read := AfterLookup(old(store.sessions), sessionId, authUser.value, now);
      && (found.None? ==> r == Err(NotFound) && store.sessions == read)
      && (found.Some? ==>
            var result := Engine.AnswerCard(found.value.state, IntToString(cardId), isCorrect, now);
            && (result.Err? ==> r == Err(ServerError) && store.sessions == read)
            && (result.Ok? ==>
                  var next := result.value.session;
                  && store.sessions == read[sessionId := found.value.(state := next)]
                  && (next.queue == [] || next.queue[0] == "" ==> r == Ok(Finished))
                  && (next.queue != [] && next.queue[0] != "" ==>
                        if next.queue[0] in found.value.cards
                        then r == Ok(NextCard(View(found.value.cards[next.queue[0]]), next.round, |next.queue|))
                        else r == Err(ServerError))))
  {
    if authUser.None? {
      return Err(Unauthorized);
    }
    var sess := store.GetSession(sessionId, authUser.value, now);
    if sess.None? {
      return Err(NotFound);
    }
    var result := Engine.AnswerCard(sess.value.state, IntToString(cardId), isCorrect, now);
    if result.Err? {
      return Err(ServerError);
    }
    store.UpdateState(sessionId, result.value.session, now);
    var nextId := Engine.GetNextCardId(result.value.session);
    if nextId.None? || nextId.value == "" {
      return Ok(Finished);
    }
    if nextId.value !in sess.value.cards {
      // reading a field of the missing card throws
      return Err(ServerError);
    }
    var nextCard := sess.value.cards[nextId.value];
    r := Ok(NextCard(View(nextCard), result.value.session.round, |result.value.session.queue|));
  }

  /** `getSessionStatus`: the round, the cards left in it and the card to show. */
  method SessionStatus(store: Store, authUser: Option<int>, sessionId: string, now: int)
    returns (r: Result<StatusReply, int>)
    requires store.Valid()
    modifies store
    ensures store.Valid()
    ensures authUser.None? ==> r == Err(Unauthorized) && store.sessions == old(store.sessions)
    ensures authUser.Some? ==>
      var found := Lookup(old(store.sessions), sessionId, authUser.value, now);
      && store.sessions == AfterLookup(old(store.sessions), sessionId, authUser.value, now)
      && (found.None? ==> r == Err(NotFound))
      && (found.Some? ==>
            var s := found.value.state;
            r == Ok(StatusReply(s.round, |s.queue|, CardFor(found.value.cards, Engine.GetNextCardId(s)))))
  {
    if authUser.None? {
      return Err(Unauthorized);
    }
    var sess := store.GetSession(sessionId, authUser.value, now);
    if sess.None? {
      return Err(NotFound);
    }
    var nextId := Engine.GetNextCardId(sess.value.state);
    var nextCard := CardFor(sess.value.cards, nextId);
    r := Ok(StatusReply(sess.value.state.round, |sess.value.state.queue|, nextCard));
  }

  /**
   * `finishPractice`. `saved` is the record handed to the database and
   * `created` whether that write succeeds; only then is the session removed
   * and the summary sent.
   */
  method FinishPractice(store: Store, authUser: Option<int>, sessionId: string, durationMs: Option<int>, created: bool, now: int)
    returns (r: Result<Summary, int>, saved: Option<LearningRecord>)
    requires store.Valid()
    modifies store
    ensures store.Valid()
    ensures authUser.None? ==> r == Err(Unauthorized) && saved == None && store.sessions == old(store.sessions)
    ensures authUser.Some? ==>
      var found := Lookup(old(store.sessions), sessionId, authUser.value, now);
      var read := AfterLookup(old(store.sessions), sessionId, authUser.value, now);
      && (found.None? ==> r == Err(NotFound) && saved == None && store.sessions == read)
      && (found.Some? ==>
            var xs := Interactions(found.value.state.history);
            && saved == Some(LearningRecord(authUser.value, found.value.deckId, StoredDuration(durationMs), xs))
            && (!created ==> r == Err(ServerError) && store.sessions == read)
            && (created ==> r == Ok(Summarize(xs)) && store.sessions == read - {sessionId}))
  {
    saved := None;
    if authUser.None? {
      return Err(Unauthorized), saved;
    }
    var sess := store.GetSession(sessionId, authUser.value, now);
    if sess.None? {
      return Err(NotFound), saved;
    }
    var xs := Interactions(sess.value.state.history);
    saved := Some(LearningRecord(authUser.value, sess.value.deckId, StoredDuration(durationMs), xs));
    if !created {
      return Err(ServerError), saved;
    }
    var summary := Summarize(xs);
    store.RemoveSession(sessionId);
    r := Ok(summary);
  }

  /** `endSession`: cancels without saving; only the owner's live session is removed. */
  method EndSession(store: Store, authUser: Option<int>, sessionId: string, now: int) returns (r: Result<bool, int>)
    requires store.Valid()
    modifies store
    ensures store.Valid()
    ensures authUser.None? ==> r == Err(Unauthorized) && store.sessions == old(store.sessions)
    ensures authUser.Some? ==>
      && r == Ok(true)
      && var found := Lookup(old(store.sessions), sessionId, authUser.value, now);
      && var read := AfterLookup(old(store.sessions), sessionId, authUser.value, now);
      && store.sessions == (if found.Some? then read - {sessionId} else read)
      && (sessionId in old(store.sessions) && old(store.sessions)[sessionId].userId != authUser.value ==>
            store.sessions == old(store.sessions))
      && (sessionId in store.sessions <==>
            sessionId in old(store.sessions) && old(store.sessions)[sessionId].userId != authUser.value)
  {
    if authUser.None? {
      return Err(Unauthorized);
    }
    var sess := store.GetSession(sessionId, authUser.value, now);
    if sess.Some? {
      store.RemoveSession(sessionId);
    }
    r := Ok(true);
  }
}
