/**
 * Two computations of the decks page: the per-card performance grid of a
 * practice session (7 rounds by 15 cards) and the filter of the deck list by
 * search term or ownership.
 */
module DecksPage {
  import opened Wrappers
  import opened Text

  const MaxRounds: int := 7
  const MaxCards: int := 15

  /** One recorded answer: the 1-based round and card position, and whether it was right. */
  datatype Answer = Answer(round: int, card: int, isCorrect: bool)

  /** A grid cell: nothing recorded, the last recorded answer, or the card already learned. */
  datatype Cell = Empty | Mark(correct: bool) | Done

  /** Answers past round 7 or card 15 are skipped entirely. */
  predicate InRange(a: Answer) {
    a.round <= MaxRounds && a.card <= MaxCards
  }

  /** An answer the range check lets through with a round below 1 indexes a missing row and throws. */
  predicate Crashes(a: Answer) {
    InRange(a) && a.round < 1
  }

  /** The last answer written to cell (`round`, `card`), if any. */
  function Recorded(answers: seq<Answer>, round: int, card: int): Option<bool>
    decreases |answers|
  {
    if answers == [] then None
    else
      var a := answers[|answers| - 1];
      if InRange(a) && a.round == round && a.card == card then Some(a.isCorrect)
      else Recorded(answers[..|answers| - 1], round, card)
  }

  /** How many counted answers for `card` were right. */
  function CorrectCount(answers: seq<Answer>, card: int): nat
    decreases |answers|
  {
    if answers == [] then 0
    else
      var a := answers[|answers| - 1];
      CorrectCount(answers[..|answers| - 1], card) + (if InRange(a) && a.card == card && a.isCorrect then 1 else 0)
  }

  /** The round of the answer at which the card's right answers first reach two. */
  function CompletionRound(answers: seq<Answer>, card: int): Option<int>
    decreases |answers|
  {
    if answers == [] then None
    else
      var front := answers[..|answers| - 1];
      var a := answers[|answers| - 1];
      if CompletionRound(front, card).Some? then CompletionRound(front, card)
      else if InRange(a) && a.card == card && a.isCorrect && CorrectCount(front, card) + 1 >= 2 then Some(a.round)
      else None
  }

  function RecordedCell(answers: seq<Answer>, round: int, card: int): Cell {
    match Recorded(answers, round, card)
    case None => Empty
    case Some(b) => Mark(b)
  }

  /** What the grid shows: 'done' in every round after the card was learned, the last answer otherwise. */
  function GridCell(answers: seq<Answer>, round: int, card: int): Cell {
    var k := CompletionRound(answers, card);
    if k.Some? && round > k.value then Done else RecordedCell(answers, round, card)
  }

  function Lookup(m: map<int, int>, key: int): Option<int> {
    if key in m then Some(m[key]) else None
  }

  function CountOf(m: map<int, int>, key: int): int {
    if key in m then m[key] else 0
  }

  /**
   * `generatePerformanceGrid`: one pass over the answers writing cells and
   * counting right answers per card, then one pass over the grid marking the
   * rounds after each card's completion. `None` stands for the exception an
   * answer with a round below 1 raises.
   */
  method GeneratePerformanceGrid(answers: seq<Answer>) returns (r: Option<array2<Cell>>)
    ensures r.None? <==> exists i :: 0 <= i < |answers| && Crashes(answers[i])
    ensures r.Some? ==>
      && fresh(r.value)
      && r.value.Length0 == MaxRounds && r.value.Length1 == MaxCards
      && forall i, j :: 0 <= i < MaxRounds && 0 <= j < MaxCards ==> r.value[i, j] == GridCell(answers, i + 1, j + 1)
  {
    var grid := new Cell[MaxRounds, MaxCards]((i, j) => Empty);
    var counts: map<int, int> := map[];
    var completed: map<int, int> := map[];
    for n := 0 to |answers|
      invariant forall k :: 0 <= k < n ==> !Crashes(answers[k])
      invariant forall i, j :: 0 <= i < MaxRounds && 0 <= j < MaxCards ==> grid[i, j] == RecordedCell(answers[..n], i + 1, j + 1)
      invariant forall c :: CountOf(counts, c) == CorrectCount(answers[..n], c)
      invariant forall c :: Lookup(completed, c) == CompletionRound(answers[..n], c)
    {
      var a := answers[n];
      assert answers[..n + 1][..n] == answers[..n];
      if a.round <= MaxRounds && a.card <= MaxCards {
        if a.round < 1 {
          return None;
        }
        if a.card >= 1 {
          grid[a.round - 1, a.card - 1] := Mark(a.isCorrect);
        }
        if a.isCorrect {
          var current := if a.card in counts then counts[a.card] else 0;
          counts := counts[a.card := current + 1];
          if current + 1 >= 2 && a.card !in completed {
            completed := completed[a.card := a.round];
          }
        }
      }
    }
    assert answers[..|answers|] == answers;
    MarkCompleted(grid, completed, answers);
    r := Some(grid);
  }

  /** The second pass of `generatePerformanceGrid`: 'done' in every round after a card's completion round. */
  method MarkCompleted(grid: array2<Cell>, completed: map<int, int>, ghost answers: seq<Answer>)
    requires grid.Length0 == MaxRounds && grid.Length1 == MaxCards
    requires forall c :: Lookup(completed, c) == CompletionRound(answers, c)
    requires forall i, j :: 0 <= i < MaxRounds && 0 <= j < MaxCards ==> grid[i, j] == RecordedCell(answers, i + 1, j + 1)
    modifies grid
    ensures forall i, j :: 0 <= i < MaxRounds && 0 <= j < MaxCards ==> grid[i, j] == GridCell(answers, i + 1, j + 1)
  {
    for round := 1 to MaxRounds + 1
      invariant forall i, j :: 0 <= i < MaxRounds && 0 <= j < MaxCards ==>
        grid[i, j] == (if i + 1 < round then GridCell(answers, i + 1, j + 1) else RecordedCell(answers, i + 1, j + 1))
    {
      for card := 1 to MaxCards + 1
        invariant forall i, j :: 0 <= i < MaxRounds && 0 <= j < MaxCards ==>
          grid[i, j] == (if i + 1 < round || (i + 1 == round && j + 1 < card) then GridCell(answers, i + 1, j + 1)
                         else RecordedCell(answers, i + 1, j + 1))
      {
        if card in completed && round > completed[card] {
          grid[round - 1, card - 1] := Done;
        }
      }
    }
  }

  /** A card has a completion round exactly when two of its counted answers were right. */
  lemma {:induction false} CompletedIffTwoRight(answers: seq<Answer>, card: int)
    ensures CompletionRound(answers, card).Some? <==> CorrectCount(answers, card) >= 2
    decreases |answers|
  {
    if answers != [] {
      CompletedIffTwoRight(answers[..|answers| - 1], card);
    }
  }

  /** Once set, a card's completion round never changes, whatever answers follow. */
  lemma {:induction false} CompletionRoundStable(answers: seq<Answer>, more: seq<Answer>, card: int)
    requires CompletionRound(answers, card).Some?
    ensures CompletionRound(answers + more, card) == CompletionRound(answers, card)
    decreases |more|
  {
    if more != [] {
      var front := more[..|more| - 1];
      CompletionRoundStable(answers, front, card);
      assert (answers + more)[..|answers + more| - 1] == answers + front;
    } else {
      assert answers + more == answers;
    }
  }

  /** The completion round is the round of the answer that brought the card's right answers to two. */
  lemma {:induction false} CompletionRoundIsSecondRight(answers: seq<Answer>, card: int)
    requires CompletionRound(answers, card).Some?
    ensures exists i ::
              && 0 <= i < |answers| && InRange(answers[i]) && answers[i].card == card && answers[i].isCorrect
              && answers[i].round == CompletionRound(answers, card).value && CorrectCount(answers[..i], card) == 1
    decreases |answers|
  {
    var front := answers[..|answers| - 1];
    var i := |answers| - 1;
    if CompletionRound(front, card).Some? {
      CompletionRoundIsSecondRight(front, card);
      var j :| 0 <= j < |front| && InRange(front[j]) && front[j].card == card && front[j].isCorrect
        && front[j].round == CompletionRound(front, card).value && CorrectCount(front[..j], card) == 1;
      assert front[..j] == answers[..j];
    } else {
      CompletedIffTwoRight(front, card);
      assert answers[..i] == front;
    }
  }

  /** An answer past the grid changes no cell. */
  lemma OutOfRangeIgnored(answers: seq<Answer>, a: Answer, round: int, card: int)
    requires !InRange(a)
    ensures GridCell(answers + [a], round, card) == GridCell(answers, round, card)
  {
    assert (answers + [a])[..|answers|] == answers;
  }

  // ---------------------------------------------------------------------------
  // The deck filter
  // ---------------------------------------------------------------------------

  datatype DeckRow = DeckRow(name: string, isCopy: bool)

  /** A non-empty search term matches names case-insensitively; otherwise "eigene" keeps own decks only. */
  predicate KeepDeck(deck: DeckRow, searchTerm: string, sortBy: string)
    ensures searchTerm == "" ==> (KeepDeck(deck, searchTerm, sortBy) <==> sortBy != "eigene" || !deck.isCopy)
    ensures searchTerm != "" && KeepDeck(deck, searchTerm, sortBy) ==> |searchTerm| <= |deck.name|
  {
    if searchTerm != "" then Contains(Lower(deck.name), Lower(searchTerm))
    else if sortBy == "eigene" then !deck.isCopy
    else true
  }

  function FilterDecks(decks: seq<DeckRow>, searchTerm: string, sortBy: string): (r: seq<DeckRow>)
    ensures |r| <= |decks|
    ensures forall d :: d in r <==> d in decks && KeepDeck(d, searchTerm, sortBy)
    decreases |decks|
  {
    if decks == [] then []
    else
      var front := FilterDecks(decks[..|decks| - 1], searchTerm, sortBy);
      var d := decks[|decks| - 1];
      assert forall x :: x in decks <==> x in decks[..|decks| - 1] || x == d;
      if KeepDeck(d, searchTerm, sortBy) then front + [d] else front
  }

  /** Filtering keeps the list's order: it distributes over concatenation. */
  lemma {:induction false} FilterDistributes(a: seq<DeckRow>, b: seq<DeckRow>, searchTerm: string, sortBy: string)
    ensures FilterDecks(a + b, searchTerm, sortBy) == FilterDecks(a, searchTerm, sortBy) + FilterDecks(b, searchTerm, sortBy)
    decreases |b|
  {
    if b != [] {
      var front := b[..|b| - 1];
      FilterDistributes(a, front, searchTerm, sortBy);
      assert (a + b)[..|a + b| - 1] == a + front;
    } else {
      assert a + b == a;
    }
  }

  /** Without a search term and outside "eigene" every deck is listed. */
  lemma {:induction false} NoFilterKeepsAll(decks: seq<DeckRow>, sortBy: string)
    requires sortBy != "eigene"
    ensures FilterDecks(decks, "", sortBy) == decks
    decreases |decks|
  {
    if decks != [] {
      NoFilterKeepsAll(decks[..|decks| - 1], sortBy);
    }
  }

  lemma LowerIdempotent(s: string)
    ensures Lower(Lower(s)) == Lower(s)
  {
  }

  /** The search ignores the case of the term: a term and its lower-cased form select the same decks. */
  lemma SearchIgnoresCase(deck: DeckRow, searchTerm: string, sortBy: string)
    requires searchTerm != ""
    ensures KeepDeck(deck, Lower(searchTerm), sortBy) == KeepDeck(deck, searchTerm, sortBy)
  {
    LowerIdempotent(searchTerm);
  }
}
