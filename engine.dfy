/**
 * The AREMOS learning algorithm: a practice session walks through rounds of a
 * card queue; a card is mastered ("done") after two correct answers, and when
 * a round's queue runs empty the next round's queue is rebuilt, cards judged
 * wrong ahead of cards judged right.
 *
 * Every operation is a value-level function on `SessionState`; the two that the
 * source builds with a loop (`initSession`, `buildNextRoundLists`) are also
 * given as loop methods proved equal to their functions.
 */
module Engine {
  import opened Wrappers

  type CardId = string

  /** A card handed to `initSession`; the scheduler only looks at its id. */
  datatype Card = Card(id: CardId, question: Option<string>, answer: Option<string>)

  datatype CardState = CardState(id: CardId, correctCount: int, done: bool)

  /** One answer in the session's history; `timestamp` is the caller's clock reading. */
  datatype HistoryEntry = HistoryEntry(cardId: CardId, round: int, isCorrect: bool, timestamp: int)

  datatype SessionState = SessionState(
    round: int,
    queue: seq<CardId>,
    cardStates: map<CardId, CardState>,
    history: seq<HistoryEntry>)

  datatype AnswerResult = AnswerResult(session: SessionState, nextQueue: seq<CardId>, completed: bool)

  /** The three errors `answerCard` throws, in the order it checks for them. */
  datatype AnswerError =
    | UnknownCard(cardId: CardId)
    | CardAlreadyDone(cardId: CardId)
    | CardNotInRound(cardId: CardId)

  datatype RoundLists = RoundLists(wrongList: seq<CardId>, rightList: seq<CardId>)

  /** Correct answers after which a card is done. */
  const MasteryThreshold: int := 2

  // ---------------------------------------------------------------------------
  // Sequence vocabulary
  // ---------------------------------------------------------------------------

  ghost predicate Distinct<T>(s: seq<T>) {
    forall i, j :: 0 <= i < j < |s| ==> s[i] != s[j]
  }

  /** `a` can be obtained from `b` by deleting elements, keeping the order of the rest. */
  ghost predicate SubsequenceOf<T>(a: seq<T>, b: seq<T>)
    decreases |b|
  {
    || a == []
    || (b != [] &&
        ((a[|a| - 1] == b[|b| - 1] && SubsequenceOf(a[..|a| - 1], b[..|b| - 1]))
         || SubsequenceOf(a, b[..|b| - 1])))
  }

  lemma SubsequenceSnoc<T>(a: seq<T>, b: seq<T>, x: T)
    requires SubsequenceOf(a, b)
    ensures SubsequenceOf(a + [x], b + [x])
    ensures SubsequenceOf(a, b + [x])
  {
    assert (a + [x])[..|a|] == a;
    assert (b + [x])[..|b|] == b;
  }

  // ---------------------------------------------------------------------------
  // initSession
  // ---------------------------------------------------------------------------

  /** The state `initSession` builds. */
  function InitialState(cards: seq<Card>): (s: SessionState)
    ensures s.round == 1 && s.history == []
    ensures |s.queue| == |cards| && forall i :: 0 <= i < |cards| ==> s.queue[i] == cards[i].id
    ensures forall id :: id in s.cardStates <==> id in s.queue
    ensures forall id :: id in s.cardStates ==> s.cardStates[id] == CardState(id, 0, false)
    decreases |cards|
  {
    if cards == [] then SessionState(1, [], map[], [])
    else
      var s := InitialState(cards[..|cards| - 1]);
      var c := cards[|cards| - 1];
      s.(queue := s.queue + [c.id], cardStates := s.cardStates[c.id := CardState(c.id, 0, false)])
  }

  /** `initSession`: one pass over the cards, filling `cardStates` and pushing onto `queue`. */
  method InitSession(cards: seq<Card>) returns (s: SessionState)
    ensures s == InitialState(cards)
  {
    var cardStates: map<CardId, CardState> := map[];
    var queue: seq<CardId> := [];
    for i := 0 to |cards|
      invariant SessionState(1, queue, cardStates, []) == InitialState(cards[..i])
    {
      assert cards[..i + 1][..i] == cards[..i];
      cardStates := cardStates[cards[i].id := CardState(cards[i].id, 0, false)];
      queue := queue + [cards[i].id];
    }
    assert cards[..|cards|] == cards;
    s := SessionState(1, queue, cardStates, []);
  }

  // ---------------------------------------------------------------------------
  // buildNextRoundLists
  // ---------------------------------------------------------------------------

  /** How the rebuild judges a card: the card just answered by that answer, any other by `correctCount > 0`. */
  predicate WasCorrect(cardStates: map<CardId, CardState>, id: CardId, lastAnswered: CardId, lastAnswerCorrect: bool)
    requires id in cardStates
  {
    if id == lastAnswered then lastAnswerCorrect else cardStates[id].correctCount > 0
  }

  /** The lists `buildNextRoundLists` returns, built up one queue entry at a time. */
  function NextRoundLists(
    cardStates: map<CardId, CardState>,
    currentQueue: seq<CardId>,
    lastAnswered: CardId,
    lastAnswerCorrect: bool): (r: RoundLists)
    requires forall i :: 0 <= i < |currentQueue| ==> currentQueue[i] in cardStates
    ensures |r.wrongList| + |r.rightList| <= |currentQueue|
    decreases |currentQueue|
  {
    if currentQueue == [] then RoundLists([], [])
    else
      var prev := NextRoundLists(cardStates, currentQueue[..|currentQueue| - 1], lastAnswered, lastAnswerCorrect);
      var id := currentQueue[|currentQueue| - 1];
      if cardStates[id].done then prev
      else if WasCorrect(cardStates, id, lastAnswered, lastAnswerCorrect) then
        prev.(rightList := prev.rightList + [id])
      else
        prev.(wrongList := prev.wrongList + [id])
  }

  /** The rebuild puts no done card in either list, and every card in the list its judgement picks. */
  lemma {:induction false} NextRoundListsClassify(
    cardStates: map<CardId, CardState>,
    currentQueue: seq<CardId>,
    lastAnswered: CardId,
    lastAnswerCorrect: bool)
    requires forall i :: 0 <= i < |currentQueue| ==> currentQueue[i] in cardStates
    ensures var r := NextRoundLists(cardStates, currentQueue, lastAnswered, lastAnswerCorrect);
      && (forall id :: id in r.wrongList ==>
            id in cardStates && !cardStates[id].done && !WasCorrect(cardStates, id, lastAnswered, lastAnswerCorrect))
      && (forall id :: id in r.rightList ==>
            id in cardStates && !cardStates[id].done && WasCorrect(cardStates, id, lastAnswered, lastAnswerCorrect))
    decreases |currentQueue|
  {
    if currentQueue != [] {
      NextRoundListsClassify(cardStates, currentQueue[..|currentQueue| - 1], lastAnswered, lastAnswerCorrect);
    }
  }

  /** Every entry of the queue whose card is not done lands in exactly one of the two lists. */
  lemma {:induction false} NextRoundListsCounts(
    cardStates: map<CardId, CardState>,
    currentQueue: seq<CardId>,
    lastAnswered: CardId,
    lastAnswerCorrect: bool,
    id: CardId)
    requires forall i :: 0 <= i < |currentQueue| ==> currentQueue[i] in cardStates
    ensures var r := NextRoundLists(cardStates, currentQueue, lastAnswered, lastAnswerCorrect);
      multiset(r.wrongList)[id] + multiset(r.rightList)[id] ==
      (if id in cardStates && !cardStates[id].done then multiset(currentQueue)[id] else 0)
    decreases |currentQueue|
  {
    if currentQueue != [] {
      var front := currentQueue[..|currentQueue| - 1];
      var last := currentQueue[|currentQueue| - 1];
      assert currentQueue == front + [last];
      assert multiset(currentQueue) == multiset(front) + multiset{last};
      NextRoundListsCounts(cardStates, front, lastAnswered, lastAnswerCorrect, id);
      var prev := NextRoundLists(cardStates, front, lastAnswered, lastAnswerCorrect);
      var r := NextRoundLists(cardStates, currentQueue, lastAnswered, lastAnswerCorrect);
      if cardStates[last].done {
        assert r == prev;
      } else if WasCorrect(cardStates, last, lastAnswered, lastAnswerCorrect) {
        assert r == prev.(rightList := prev.rightList + [last]);
      } else {
        assert r == prev.(wrongList := prev.wrongList + [last]);
      }
    }
  }

  /** Each list keeps the order the cards had in the queue. */
  lemma {:induction false} NextRoundListsKeepOrder(
    cardStates: map<CardId, CardState>,
    currentQueue: seq<CardId>,
    lastAnswered: CardId,
    lastAnswerCorrect: bool)
    requires forall i :: 0 <= i < |currentQueue| ==> currentQueue[i] in cardStates
    ensures var r := NextRoundLists(cardStates, currentQueue, lastAnswered, lastAnswerCorrect);
      SubsequenceOf(r.wrongList, currentQueue) && SubsequenceOf(r.rightList, currentQueue)
    decreases |currentQueue|
  {
    if currentQueue != [] {
      var front := currentQueue[..|currentQueue| - 1];
      var id := currentQueue[|currentQueue| - 1];
      assert currentQueue == front + [id];
      NextRoundListsKeepOrder(cardStates, front, lastAnswered, lastAnswerCorrect);
      var prev := NextRoundLists(cardStates, front, lastAnswered, lastAnswerCorrect);
      SubsequenceSnoc(prev.wrongList, front, id);
      SubsequenceSnoc(prev.rightList, front, id);
    }
  }

  /** `buildNextRoundLists`: one pass over the queue, pushing each card onto one of the lists. */
  method BuildNextRoundLists(
    cardStates: map<CardId, CardState>,
    currentQueue: seq<CardId>,
    lastAnsweredCard: CardId,
    lastAnswerCorrect: bool) returns (r: RoundLists)
    requires forall i :: 0 <= i < |currentQueue| ==> currentQueue[i] in cardStates
    ensures r == NextRoundLists(cardStates, currentQueue, lastAnsweredCard, lastAnswerCorrect)
  {
    var wrongList: seq<CardId> := [];
    var rightList: seq<CardId> := [];
    for i := 0 to |currentQueue|
      invariant RoundLists(wrongList, rightList) ==
        NextRoundLists(cardStates, currentQueue[..i], lastAnsweredCard, lastAnswerCorrect)
    {
      assert currentQueue[..i + 1][..i] == currentQueue[..i];
      var cardId := currentQueue[i];
      var cardState := cardStates[cardId];
      if cardState.done {
        continue;
      }
      var wasCorrect: bool;
      if cardId == lastAnsweredCard {
        wasCorrect := lastAnswerCorrect;
      } else {
        wasCorrect := cardState.correctCount > 0;
      }
      if wasCorrect {
        rightList := rightList + [cardId];
      } else {
        wrongList := wrongList + [cardId];
      }
    }
    assert currentQueue[..|currentQueue|] == currentQueue;
    r := RoundLists(wrongList, rightList);
  }

  /** A queue holding only copies of the card just answered is rebuilt to itself, unless that card is done. */
  lemma {:induction false} NextRoundListsOfRepeated(
    cardStates: map<CardId, CardState>, queue: seq<CardId>, x: CardId, lastAnswerCorrect: bool)
    requires x in cardStates
    requires forall i :: 0 <= i < |queue| ==> queue[i] == x
    ensures NextRoundLists(cardStates, queue, x, lastAnswerCorrect) ==
      if cardStates[x].done then RoundLists([], [])
      else if lastAnswerCorrect then RoundLists([], queue)
      else RoundLists(queue, [])
    decreases |queue|
  {
    if queue != [] {
      var front := queue[..|queue| - 1];
      NextRoundListsOfRepeated(cardStates, front, x, lastAnswerCorrect);
      var prev := NextRoundLists(cardStates, front, x, lastAnswerCorrect);
      assert queue[|queue| - 1] == x;
      assert queue == front + [x];
      assert WasCorrect(cardStates, x, x, lastAnswerCorrect) == lastAnswerCorrect;
      if cardStates[x].done {
        assert NextRoundLists(cardStates, queue, x, lastAnswerCorrect) == prev;
      } else if lastAnswerCorrect {
        assert NextRoundLists(cardStates, queue, x, lastAnswerCorrect) == prev.(rightList := prev.rightList + [x]);
      } else {
        assert NextRoundLists(cardStates, queue, x, lastAnswerCorrect) == prev.(wrongList := prev.wrongList + [x]);
      }
    }
  }

  // ---------------------------------------------------------------------------
  // answerCard
  // ---------------------------------------------------------------------------

  /** `queue.filter(id => id !== cardId)`. */
  function RemoveAll(queue: seq<CardId>, cardId: CardId): (r: seq<CardId>)
    ensures cardId !in r
    ensures forall id :: id != cardId ==> multiset(r)[id] == multiset(queue)[id]
    ensures SubsequenceOf(r, queue)
    decreases |queue|
  {
    if queue == [] then []
    else
      var front := queue[..|queue| - 1];
      var last := queue[|queue| - 1];
      assert queue == front + [last];
      var rest := RemoveAll(front, cardId);
      SubsequenceSnoc(rest, front, last);
      if last == cardId then rest else rest + [last]
  }

  /** The filter leaves nothing exactly when every entry of the queue is the answered card. */
  lemma RemoveAllEmpty(queue: seq<CardId>, cardId: CardId)
    ensures RemoveAll(queue, cardId) == [] <==> forall i :: 0 <= i < |queue| ==> queue[i] == cardId
  {
    var r := RemoveAll(queue, cardId);
    if r == [] {
      forall i | 0 <= i < |queue|
        ensures queue[i] == cardId
      {
        assert queue[i] in multiset(queue);
      }
    } else {
      assert r[0] in multiset(r);
      assert r[0] != cardId;
      assert r[0] in multiset(queue);
      var i :| 0 <= i < |queue| && queue[i] == r[0];
    }
  }

  /** The answered card's state after the answer. */
  function Scored(cs: CardState, isCorrect: bool): CardState {
    if isCorrect then
      var bumped := cs.(correctCount := cs.correctCount + 1);
      if bumped.correctCount >= MasteryThreshold then bumped.(done := true) else bumped
    else cs
  }

  /**
   * Only the answered card's state changes: its count rises by one on a correct
   * answer (and it becomes done on reaching the threshold), and stays as it was
   * on a wrong one.
   */
  ghost predicate ScoredOnly(
    before: map<CardId, CardState>, after: map<CardId, CardState>, cardId: CardId, isCorrect: bool)
  {
    && cardId in before
    && after.Keys == before.Keys
    && (forall id :: id in before && id != cardId ==> after[id] == before[id])
    && after[cardId].id == before[cardId].id
    && after[cardId].correctCount == before[cardId].correctCount + (if isCorrect then 1 else 0)
    && (after[cardId].done <==>
          before[cardId].done || (isCorrect && after[cardId].correctCount >= MasteryThreshold))
  }

  /**
   * The round end of `answerCard`: the next queue is rebuilt from `queue`,
   * which here holds only copies of the card just answered.
   */
  function CloseRound(
    round: int, queue: seq<CardId>, cardStates: map<CardId, CardState>, history: seq<HistoryEntry>,
    cardId: CardId, isCorrect: bool): (r: AnswerResult)
    requires cardId in cardStates
    requires forall i :: 0 <= i < |queue| ==> queue[i] == cardId
    ensures r.session.round == round + 1
    ensures r.session.cardStates == cardStates && r.session.history == history
    ensures r.session.queue == (if cardStates[cardId].done then [] else queue)
    ensures r.nextQueue == r.session.queue
    ensures r.completed <==> r.session.queue == []
  {
    NextRoundListsOfRepeated(cardStates, queue, cardId, isCorrect);
    var lists := NextRoundLists(cardStates, queue, cardId, isCorrect);
    var nextQueue := lists.wrongList + lists.rightList;
    AnswerResult(SessionState(round + 1, nextQueue, cardStates, history), nextQueue, |nextQueue| == 0)
  }

  /**
   * `answerCard`. `now` stands for `Date.now()`. The checks come first, in the
   * source's order; on success the card is scored, the answer is appended to
   * the history and the card leaves the queue. If that empties the queue, the
   * next round is rebuilt from `session.queue` -- the queue BEFORE the removal,
   * which at that point holds nothing but the card just answered.
   */
  function AnswerCard(session: SessionState, cardId: CardId, isCorrect: bool, now: int): (r: Result<AnswerResult, AnswerError>)
    ensures cardId !in session.cardStates ==> r == Err(UnknownCard(cardId))
    ensures cardId in session.cardStates && session.cardStates[cardId].done ==> r == Err(CardAlreadyDone(cardId))
    ensures cardId in session.cardStates && !session.cardStates[cardId].done && cardId !in session.queue ==>
      r == Err(CardNotInRound(cardId))
    ensures r.Ok? <==>
      cardId in session.cardStates && !session.cardStates[cardId].done && cardId in session.queue
    ensures r.Ok? ==> ScoredOnly(session.cardStates, r.value.session.cardStates, cardId, isCorrect)
    ensures r.Ok? ==>
      r.value.session.history == session.history + [HistoryEntry(cardId, session.round, isCorrect, now)]
    ensures r.Ok? ==> r.value.nextQueue == r.value.session.queue
    // the round goes on while other cards are left in it
    ensures r.Ok? && RemoveAll(session.queue, cardId) != [] ==>
      && r.value.session.round == session.round
      && r.value.session.queue == RemoveAll(session.queue, cardId)
      && !r.value.completed
    // the round ends: the rebuilt queue is the old one (copies of cardId) unless the card is now done
    ensures r.Ok? && RemoveAll(session.queue, cardId) == [] ==>
      && r.value.session.round == session.round + 1
      && (forall i :: 0 <= i < |session.queue| ==> session.queue[i] == cardId)
      && r.value.session.queue == (if r.value.session.cardStates[cardId].done then [] else session.queue)
      && (r.value.completed <==> r.value.session.queue == [])
  {
    if cardId !in session.cardStates then Err(UnknownCard(cardId))
    else if session.cardStates[cardId].done then Err(CardAlreadyDone(cardId))
    else if cardId !in session.queue then Err(CardNotInRound(cardId))
    else
      var newCardStates := session.cardStates[cardId := Scored(session.cardStates[cardId], isCorrect)];
      var newHistory := session.history + [HistoryEntry(cardId, session.round, isCorrect, now)];
      var remainingQueue := RemoveAll(session.queue, cardId);
      RemoveAllEmpty(session.queue, cardId);
      if remainingQueue == [] then
        Ok(CloseRound(session.round, session.queue, newCardStates, newHistory, cardId, isCorrect))
      else
        Ok(AnswerResult(SessionState(session.round, remainingQueue, newCardStates, newHistory), remainingQueue, false))
  }

  /** `getNextCardId`: the head of the queue, or null once it is empty. */
  function GetNextCardId(session: SessionState): (r: Option<CardId>)
    ensures r == None <==> session.queue == []
    ensures r.Some? ==> |session.queue| > 0 && r.value == session.queue[0]
  {
    if |session.queue| == 0 then None else Some(session.queue[0])
  }

  // ---------------------------------------------------------------------------
  // Reachable states
  // ---------------------------------------------------------------------------

  /** Correct answers recorded for `id`. */
  function CorrectAnswers(history: seq<HistoryEntry>, id: CardId): nat {
    if history == [] then 0
    else
      var last := history[|history| - 1];
      CorrectAnswers(history[..|history| - 1], id) + (if last.cardId == id && last.isCorrect then 1 else 0)
  }

  ghost predicate CardConsistent(s: SessionState, id: CardId)
    requires id in s.cardStates
  {
    var cs := s.cardStates[id];
    && cs.id == id
    && cs.correctCount == CorrectAnswers(s.history, id)
    && (cs.done <==> cs.correctCount >= MasteryThreshold)
  }

  /** The queue has no repeats and holds only known cards that are not done. */
  ghost predicate QueueValid(s: SessionState) {
    && Distinct(s.queue)
    && (forall i :: 0 <= i < |s.queue| ==> s.queue[i] in s.cardStates && !s.cardStates[s.queue[i]].done)
  }

  /** Every card's count is its number of correct answers in the history; done means two of them. */
  ghost predicate CountsValid(s: SessionState) {
    forall id :: id in s.cardStates ==> CardConsistent(s, id)
  }

  /** The round is positive and every answer was given in a round up to the current one. */
  ghost predicate RoundsValid(s: SessionState) {
    && s.round >= 1
    && (forall i :: 0 <= i < |s.history| ==> 1 <= s.history[i].round <= s.round)
  }

  /**
   * The invariant of every state a session reaches. With it, a card is done
   * exactly when the history holds two correct answers for it, and a done card
   * is never queued again.
   */
  ghost predicate Valid(s: SessionState) {
    QueueValid(s) && CountsValid(s) && RoundsValid(s)
  }

  /** A deck with distinct card ids starts in a valid state. */
  lemma InitialStateValid(cards: seq<Card>)
    requires forall i, j :: 0 <= i < j < |cards| ==> cards[i].id != cards[j].id
    ensures Valid(InitialState(cards))
  {
    var s := InitialState(cards);
    assert QueueValid(s) by {
      forall i | 0 <= i < |s.queue|
        ensures s.queue[i] in s.cardStates && !s.cardStates[s.queue[i]].done
      {
        assert s.queue[i] in s.queue;
      }
    }
    assert CountsValid(s) by {
      forall id | id in s.cardStates
        ensures CardConsistent(s, id)
      {
        assert s.cardStates[id] == CardState(id, 0, false);
      }
    }
  }

  lemma CorrectAnswersSnoc(history: seq<HistoryEntry>, e: HistoryEntry, id: CardId)
    ensures CorrectAnswers(history + [e], id) ==
      CorrectAnswers(history, id) + (if e.cardId == id && e.isCorrect then 1 else 0)
  {
    assert (history + [e])[..|history|] == history;
  }

  lemma {:induction false} RemoveAllKeepsDistinct(queue: seq<CardId>, cardId: CardId)
    requires Distinct(queue)
    ensures Distinct(RemoveAll(queue, cardId))
    decreases |queue|
  {
    if queue != [] {
      var front := queue[..|queue| - 1];
      var last := queue[|queue| - 1];
      assert queue == front + [last];
      RemoveAllKeepsDistinct(front, cardId);
      var rest := RemoveAll(front, cardId);
      if last != cardId {
        assert last !in front;
        assert multiset(front)[last] == 0;
        assert last !in rest;
      }
    }
  }

  /** What the filter keeps was in the queue and is not the answered card. */
  lemma RemoveAllMember(queue: seq<CardId>, cardId: CardId, id: CardId)
    requires id in RemoveAll(queue, cardId)
    ensures id in queue && id != cardId
  {
    assert id in multiset(RemoveAll(queue, cardId));
    assert id in multiset(queue);
  }

  lemma AnswerKeepsQueueValid(s: SessionState, cardId: CardId, isCorrect: bool, now: int)
    requires QueueValid(s)
    requires AnswerCard(s, cardId, isCorrect, now).Ok?
    ensures QueueValid(AnswerCard(s, cardId, isCorrect, now).value.session)
  {
    var s' := AnswerCard(s, cardId, isCorrect, now).value.session;
    var remaining := RemoveAll(s.queue, cardId);
    if remaining != [] {
      assert s'.queue == remaining;
      RemoveAllKeepsDistinct(s.queue, cardId);
      forall i | 0 <= i < |remaining|
        ensures remaining[i] in s'.cardStates && !s'.cardStates[remaining[i]].done
      {
        RemoveAllMember(s.queue, cardId, remaining[i]);
        var j :| 0 <= j < |s.queue| && s.queue[j] == remaining[i];
      }
    }
  }

  lemma AnswerKeepsCountsValid(s: SessionState, cardId: CardId, isCorrect: bool, now: int)
    requires CountsValid(s)
    requires AnswerCard(s, cardId, isCorrect, now).Ok?
    ensures CountsValid(AnswerCard(s, cardId, isCorrect, now).value.session)
  {
    var s' := AnswerCard(s, cardId, isCorrect, now).value.session;
    var e := HistoryEntry(cardId, s.round, isCorrect, now);
    forall id | id in s'.cardStates
      ensures CardConsistent(s', id)
    {
      CorrectAnswersSnoc(s.history, e, id);
      assert CardConsistent(s, id);
    }
  }

  /** Answering keeps a session in the invariant. */
  lemma AnswerPreservesValid(s: SessionState, cardId: CardId, isCorrect: bool, now: int)
    requires Valid(s)
    requires AnswerCard(s, cardId, isCorrect, now).Ok?
    ensures Valid(AnswerCard(s, cardId, isCorrect, now).value.session)
  {
    AnswerKeepsQueueValid(s, cardId, isCorrect, now);
    AnswerKeepsCountsValid(s, cardId, isCorrect, now);
  }

  /** The head of a valid session's queue is always accepted. */
  lemma NextCardIsAnswerable(s: SessionState, isCorrect: bool, now: int)
    requires Valid(s) && GetNextCardId(s).Some?
    ensures AnswerCard(s, GetNextCardId(s).value, isCorrect, now).Ok?
  {
    assert s.queue[0] in s.queue;
  }

  /**
   * At the end of a round of a valid session the queue was just the answered
   * card, so the next round holds that card again or nothing: every other card
   * of the round is dropped, contrary to the doc comment of
   * `buildNextRoundLists` ("process all cards that were in the current round").
   */
  lemma RoundEndKeepsOnlyAnsweredCard(s: SessionState, cardId: CardId, isCorrect: bool, now: int)
    requires Valid(s)
    requires AnswerCard(s, cardId, isCorrect, now).Ok?
    requires RemoveAll(s.queue, cardId) == []
    ensures s.queue == [cardId]
    ensures var r := AnswerCard(s, cardId, isCorrect, now).value;
      r.session.queue == (if r.session.cardStates[cardId].done then [] else [cardId])
  {
    assert cardId in s.queue;
  }

  /**
   * Answers rejected after a valid answer in a round that goes on: the same card
   * can be answered again only in a later round.
   */
  lemma AnsweredCardRejectedInSameRound(s: SessionState, cardId: CardId, isCorrect: bool, now: int, again: bool, later: int)
    requires Valid(s)
    requires AnswerCard(s, cardId, isCorrect, now).Ok?
    requires RemoveAll(s.queue, cardId) != []
    ensures var s' := AnswerCard(s, cardId, isCorrect, now).value.session;
      AnswerCard(s', cardId, again, later) ==
        if s'.cardStates[cardId].done then Err(CardAlreadyDone(cardId)) else Err(CardNotInRound(cardId))
  {
  }

  /**
   * A card answered wrongly at the end of a round comes straight back as the
   * whole next round, so a learner who keeps answering wrongly never finishes:
   * the session has no bound on its length.
   */
  lemma WrongAnswerRepeatsLastCard(s: SessionState, cardId: CardId, now: int)
    requires Valid(s) && s.queue == [cardId]
    ensures var r := AnswerCard(s, cardId, false, now);
      && r.Ok?
      && r.value.session.queue == [cardId]
      && r.value.session.round == s.round + 1
      && !r.value.completed
      && Valid(r.value.session)
  {
    assert cardId in s.queue;
    AnswerPreservesValid(s, cardId, false, now);
  }

  // ---------------------------------------------------------------------------
  // Worked sessions
  // ---------------------------------------------------------------------------

  /** Removing a card from the front of a queue it occurs in only once. */
  lemma {:induction false} RemoveAllHead(x: CardId, rest: seq<CardId>)
    requires x !in rest
    ensures RemoveAll([x] + rest, x) == rest
    decreases |rest|
  {
    var q := [x] + rest;
    if rest == [] {
      assert q[..|q| - 1] == [];
    } else {
      var front := rest[..|rest| - 1];
      var last := rest[|rest| - 1];
      assert q[..|q| - 1] == [x] + front;
      assert q[|q| - 1] == last;
      assert last != x;
      RemoveAllHead(x, front);
      assert RemoveAll(q, x) == RemoveAll([x] + front, x) + [last];
      assert front + [last] == rest;
    }
  }

  /** Answering the head of a queue with more cards behind it, in the shape the worked sessions use. */
  lemma AnswerHeadMidRound(s: SessionState, cardId: CardId, isCorrect: bool, now: int, rest: seq<CardId>)
    requires s.queue == [cardId] + rest && rest != [] && cardId !in rest
    requires cardId in s.cardStates && !s.cardStates[cardId].done
    ensures AnswerCard(s, cardId, isCorrect, now).Ok?
    ensures var s' := AnswerCard(s, cardId, isCorrect, now).value.session;
      && s'.queue == rest && s'.round == s.round
      && s'.cardStates == s.cardStates[cardId := Scored(s.cardStates[cardId], isCorrect)]
  {
    assert cardId in s.queue;
    RemoveAllHead(cardId, rest);
  }

  /**
   * Three cards a, b, c, none answered yet, make up the round. They are
   * answered right, wrong, right. The round ends on c and the next round is
   * rebuilt from c alone: b, answered wrongly and not done, is no longer in the
   * queue and can no longer be answered.
   */
  lemma ThreeCardRound(s0: SessionState, a: CardId, b: CardId, c: CardId)
    requires a != b && a != c && b != c
    requires s0.queue == [a, b, c]
    requires a in s0.cardStates && s0.cardStates[a] == CardState(a, 0, false)
    requires b in s0.cardStates && s0.cardStates[b] == CardState(b, 0, false)
    requires c in s0.cardStates && s0.cardStates[c] == CardState(c, 0, false)
    ensures AnswerCard(s0, a, true, 1).Ok?
    ensures var s1 := AnswerCard(s0, a, true, 1).value.session;
      && AnswerCard(s1, b, false, 2).Ok?
      && var s2 := AnswerCard(s1, b, false, 2).value.session;
      && AnswerCard(s2, c, true, 3).Ok?
      && var r3 := AnswerCard(s2, c, true, 3).value;
      && r3.session.round == s0.round + 1
      && r3.session.queue == [c]
      && !r3.completed
      && !r3.session.cardStates[b].done
      && AnswerCard(r3.session, b, true, 4) == Err(CardNotInRound(b))
  {
    AnswerHeadMidRound(s0, a, true, 1, [b, c]);
    var s1 := AnswerCard(s0, a, true, 1).value.session;
    AnswerHeadMidRound(s1, b, false, 2, [c]);
    var s2 := AnswerCard(s1, b, false, 2).value.session;
    assert s2.queue == [c];
    assert s2.cardStates[b] == CardState(b, 0, false);
    assert s2.cardStates[c] == CardState(c, 0, false);
    assert RemoveAll([c], c) == [] by {
      assert [c][..0] == [];
    }
    assert c in s2.queue;
    var r3 := AnswerCard(s2, c, true, 3).value;
    assert r3.session.queue == [c];
    assert b !in r3.session.queue;
  }

  /** A new session over three cards with distinct ids starts with the round `ThreeCardRound` plays. */
  lemma ThreeCardStart(a: Card, b: Card, c: Card)
    requires a.id != b.id && a.id != c.id && b.id != c.id
    ensures var s0 := InitialState([a, b, c]);
      && s0.round == 1
      && s0.queue == [a.id, b.id, c.id]
      && a.id in s0.cardStates && s0.cardStates[a.id] == CardState(a.id, 0, false)
      && b.id in s0.cardStates && s0.cardStates[b.id] == CardState(b.id, 0, false)
      && c.id in s0.cardStates && s0.cardStates[c.id] == CardState(c.id, 0, false)
  {
    var s0 := InitialState([a, b, c]);
    assert s0.queue[0] == a.id && s0.queue[1] == b.id && s0.queue[2] == c.id;
    assert s0.queue == [a.id, b.id, c.id];
  }

  /** A single card answered right twice: done after the second answer, and the session completes. */
  lemma SingleCardMastered()
    ensures var s0 := InitialState([Card("a", None, None)]);
      && AnswerCard(s0, "a", true, 1).Ok?
      && var r1 := AnswerCard(s0, "a", true, 1).value;
      && r1.session.queue == ["a"] && r1.session.round == 2 && !r1.completed
      && AnswerCard(r1.session, "a", true, 2).Ok?
      && var r2 := AnswerCard(r1.session, "a", true, 2).value;
      && r2.session.cardStates["a"].done
      && r2.session.queue == [] && r2.session.round == 3 && r2.completed
      && GetNextCardId(r2.session) == None
  {
    var s0 := InitialState([Card("a", None, None)]);
    assert s0.queue == ["a"];
    assert "a" in s0.queue;
    assert RemoveAll(["a"], "a") == [] by {
      assert ["a"][..0] == [];
    }
    var r1 := AnswerCard(s0, "a", true, 1).value;
    assert "a" in r1.session.queue;
  }

  // ---------------------------------------------------------------------------
  // serializeSession / deserializeSession
  // ---------------------------------------------------------------------------

  /** A parsed JSON value. */
  datatype Json =
    | JNull
    | JBool(b: bool)
    | JNumber(n: int)
    | JString(str: string)
    | JArray(items: seq<Json>)
    | JObject(fields: map<string, Json>)

  datatype DecodeError = MalformedState

  /** `parsed.name`: the property of an object, undefined for anything else. */
  function Field(v: Json, name: string): Option<Json> {
    if v.JObject? && name in v.fields then Some(v.fields[name]) else None
  }

  /** JavaScript truthiness of a property value (undefined is falsy). */
  predicate Truthy(v: Option<Json>) {
    match v
    case None => false
    case Some(JNull) => false
    case Some(JBool(b)) => b
    case Some(JNumber(n)) => n != 0
    case Some(JString(s)) => s != ""
    case Some(_) => true
  }

  predicate IsArray(v: Option<Json>) {
    v.Some? && v.value.JArray?
  }

  function EncodeCardState(cs: CardState): Json {
    JObject(map["id" := JString(cs.id), "correctCount" := JNumber(cs.correctCount), "done" := JBool(cs.done)])
  }

  function EncodeEntry(e: HistoryEntry): Json {
    JObject(map["cardId" := JString(e.cardId), "round" := JNumber(e.round),
                "isCorrect" := JBool(e.isCorrect), "timestamp" := JNumber(e.timestamp)])
  }

  function EncodeQueue(q: seq<CardId>): Json {
    JArray(seq(|q|, i requires 0 <= i < |q| => JString(q[i])))
  }

  function EncodeCardStates(m: map<CardId, CardState>): Json {
    JObject(map id | id in m :: EncodeCardState(m[id]))
  }

  function EncodeHistory(h: seq<HistoryEntry>): Json {
    JArray(seq(|h|, i requires 0 <= i < |h| => EncodeEntry(h[i])))
  }

  /** `serializeSession`, as the JSON value the string it produces parses back to. */
  function SerializeSession(s: SessionState): (v: Json)
    ensures v.JObject? && v.fields.Keys == {"round", "queue", "cardStates", "history"}
    ensures Field(v, "round") == Some(JNumber(s.round))
    ensures IsArray(Field(v, "queue")) && IsArray(Field(v, "history"))
  {
    JObject(map[
      "round" := JNumber(s.round),
      "queue" := EncodeQueue(s.queue),
      "cardStates" := EncodeCardStates(s.cardStates),
      "history" := EncodeHistory(s.history)])
  }

  /**
   * The shape check of `deserializeSession` on the parsed value: `round` must be
   * truthy, `queue` and `history` arrays and `cardStates` truthy; the value is
   * then returned as it is.
   */
  function DeserializeSession(parsed: Json): (r: Result<Json, DecodeError>)
    ensures Field(parsed, "round") == None || Field(parsed, "round") == Some(JNumber(0)) ==> r.Err?
    ensures !IsArray(Field(parsed, "queue")) || !IsArray(Field(parsed, "history")) ==> r.Err?
    ensures Field(parsed, "cardStates") == None ==> r.Err?
    ensures r.Ok? <==>
      && Truthy(Field(parsed, "round")) && IsArray(Field(parsed, "queue"))
      && Truthy(Field(parsed, "cardStates")) && IsArray(Field(parsed, "history"))
    ensures r.Ok? ==> parsed.JObject? && r.value == parsed
    ensures r.Err? ==> r.error == MalformedState
  {
    if !Truthy(Field(parsed, "round")) || !IsArray(Field(parsed, "queue"))
       || !Truthy(Field(parsed, "cardStates")) || !IsArray(Field(parsed, "history"))
    then Err(MalformedState)
    else Ok(parsed)
  }

  // The typed reading of a JSON value that `parsed as SessionState` stands for.

  function AsCardState(v: Json): Option<CardState> {
    if && v.JObject?
       && "id" in v.fields && v.fields["id"].JString?
       && "correctCount" in v.fields && v.fields["correctCount"].JNumber?
       && "done" in v.fields && v.fields["done"].JBool?
    then Some(CardState(v.fields["id"].str, v.fields["correctCount"].n, v.fields["done"].b))
    else None
  }

  function AsEntry(v: Json): Option<HistoryEntry> {
    if && v.JObject?
       && "cardId" in v.fields && v.fields["cardId"].JString?
       && "round" in v.fields && v.fields["round"].JNumber?
       && "isCorrect" in v.fields && v.fields["isCorrect"].JBool?
       && "timestamp" in v.fields && v.fields["timestamp"].JNumber?
    then Some(HistoryEntry(v.fields["cardId"].str, v.fields["round"].n, v.fields["isCorrect"].b, v.fields["timestamp"].n))
    else None
  }

  function AsQueue(q: seq<Json>): Option<seq<CardId>> {
    if forall i :: 0 <= i < |q| ==> q[i].JString?
    then Some(seq(|q|, i requires 0 <= i < |q| && q[i].JString? => q[i].str))
    else None
  }

  function AsCardStates(cs: map<string, Json>): Option<map<CardId, CardState>> {
    if forall k :: k in cs ==> AsCardState(cs[k]).Some?
    then Some(map k | k in cs && AsCardState(cs[k]).Some? :: AsCardState(cs[k]).value)
    else None
  }

  function AsHistory(h: seq<Json>): Option<seq<HistoryEntry>> {
    if forall i :: 0 <= i < |h| ==> AsEntry(h[i]).Some?
    then Some(seq(|h|, i requires 0 <= i < |h| && AsEntry(h[i]).Some? => AsEntry(h[i]).value))
    else None
  }

  function AsSessionState(v: Json): Option<SessionState> {
    if && v.JObject?
       && "round" in v.fields && v.fields["round"].JNumber?
       && "queue" in v.fields && v.fields["queue"].JArray?
       && "cardStates" in v.fields && v.fields["cardStates"].JObject?
       && "history" in v.fields && v.fields["history"].JArray?
    then
      var q := AsQueue(v.fields["queue"].items);
      var cs := AsCardStates(v.fields["cardStates"].fields);
      var h := AsHistory(v.fields["history"].items);
      if q.Some? && cs.Some? && h.Some?
      then Some(SessionState(v.fields["round"].n, q.value, cs.value, h.value))
      else None
    else None
  }

  lemma QueueRoundTrip(q: seq<CardId>)
    ensures AsQueue(EncodeQueue(q).items) == Some(q)
  {
    var r := AsQueue(EncodeQueue(q).items);
    assert r.Some?;
    assert r.value == q;
  }

  lemma CardStateRoundTrip(c: CardState)
    ensures AsCardState(EncodeCardState(c)) == Some(c)
  {
  }

  lemma EntryRoundTrip(e: HistoryEntry)
    ensures AsEntry(EncodeEntry(e)) == Some(e)
  {
  }

  lemma CardStatesRoundTrip(m: map<CardId, CardState>)
    ensures AsCardStates(EncodeCardStates(m).fields) == Some(m)
  {
    var cs := EncodeCardStates(m).fields;
    forall k | k in cs
      ensures AsCardState(cs[k]) == Some(m[k])
    {
      CardStateRoundTrip(m[k]);
    }
    var r := AsCardStates(cs);
    assert r.Some?;
    assert r.value == m;
  }

  lemma HistoryRoundTrip(h: seq<HistoryEntry>)
    ensures AsHistory(EncodeHistory(h).items) == Some(h)
  {
    var items := EncodeHistory(h).items;
    forall i | 0 <= i < |h|
      ensures AsEntry(items[i]) == Some(h[i])
    {
      EntryRoundTrip(h[i]);
    }
    var r := AsHistory(items);
    assert r.Some?;
    assert r.value == h;
  }

  /**
   * A serialized state passes the shape check of `deserializeSession` exactly
   * when its round is not 0 (every reachable state's round is at least 1), and
   * the check hands back the serialized value unchanged.
   */
  lemma SerializeThenDeserialize(s: SessionState)
    ensures DeserializeSession(SerializeSession(s)) ==
      if s.round != 0 then Ok(SerializeSession(s)) else Err(MalformedState)
  {
    var v := SerializeSession(s);
    assert Field(v, "round") == Some(JNumber(s.round));
    assert Field(v, "queue") == Some(EncodeQueue(s.queue));
    assert Field(v, "cardStates") == Some(EncodeCardStates(s.cardStates));
    assert Field(v, "history") == Some(EncodeHistory(s.history));
  }

  /** Reading a serialized state back gives the original state. */
  lemma SerializeRoundTrip(s: SessionState)
    ensures AsSessionState(SerializeSession(s)) == Some(s)
  {
    var v := SerializeSession(s);
    assert v.fields["queue"] == EncodeQueue(s.queue);
    assert v.fields["cardStates"] == EncodeCardStates(s.cardStates);
    assert v.fields["history"] == EncodeHistory(s.history);
    QueueRoundTrip(s.queue);
    CardStatesRoundTrip(s.cardStates);
    HistoryRoundTrip(s.history);
  }
}
