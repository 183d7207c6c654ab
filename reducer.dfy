/** The game-state reducer: a pure transition function from a state and an
    action to the next state, and what it guarantees over any run of actions. */
module Reducer {
  import opened Cards

  /** The whole game state. `flippedCards` holds the face-up cards of the
      current turn; `matchedPairs` counts the pairs found so far. */
  datatype State = State(
    cards: seq<Card>,
    flippedCards: seq<Card>,
    matchedPairs: nat,
    isLoading: bool,
    canClick: bool)

  /** The actions the game dispatches. `Unrecognized` stands for an action
      object whose type tag is none of the five the reducer knows. */
  datatype Action =
    | SetCards(deck: seq<Card>)
    | FlipCard(card: Card)
    | CheckMatch
    | ResetGame
    | EnableClicks
    | Unrecognized

  /** The state before any deck has been loaded. */
  const Initial := State([], [], 0, true, false)

  /** The card-by-card update of CHECK_MATCH: on a match, every card whose id
      is one of the two flipped ids becomes matched; nothing else changes. */
  function MarkMatched(cards: seq<Card>, isMatch: bool, firstId: string, secondId: string): (r: seq<Card>)
    ensures |r| == |cards|
    ensures forall i :: 0 <= i < |cards| ==>
      r[i].id == cards[i].id && r[i].name == cards[i].name && r[i].image == cards[i].image
    ensures forall i :: 0 <= i < |cards| ==>
      (r[i].matched <==> cards[i].matched || (isMatch && (cards[i].id == firstId || cards[i].id == secondId)))
  {
    if cards == [] then []
    else
      var card := cards[0];
      [if isMatch && (card.id == firstId || card.id == secondId) then card.(matched := true) else card]
        + MarkMatched(cards[1..], isMatch, firstId, secondId)
  }

  /** On a match, the number of matched cards grows by the unmatched cards
      carrying either flipped id, each such card counted once even when the
      two flipped ids coincide. */
  lemma {:induction false} MarkMatchedCount(cards: seq<Card>, firstId: string, secondId: string)
    ensures CountMatched(MarkMatched(cards, true, firstId, secondId))
      == CountMatched(cards) + CountUnmatchedWithId(cards, firstId)
         + (if secondId == firstId then 0 else CountUnmatchedWithId(cards, secondId))
  {
    if cards != [] {
      MarkMatchedCount(cards[1..], firstId, secondId);
      var r := MarkMatched(cards, true, firstId, secondId);
      assert r[1..] == MarkMatched(cards[1..], true, firstId, secondId);
    }
  }

  /** One step of the game. */
  function Reduce(s: State, a: Action): State {
    match a
    case SetCards(deck) => s.(cards := deck, isLoading := false, canClick := false)
    case FlipCard(card) =>
      if !s.canClick || |s.flippedCards| >= 2 || card in s.flippedCards then s
      else s.(flippedCards := s.flippedCards + [card])
    case CheckMatch =>
      if |s.flippedCards| != 2 then s
      else
        var first, second := s.flippedCards[0], s.flippedCards[1];
        var isMatch := first.name == second.name;
        s.(cards := MarkMatched(s.cards, isMatch, first.id, second.id),
           matchedPairs := if isMatch then s.matchedPairs + 1 else s.matchedPairs,
           flippedCards := [])
    case ResetGame => Initial
    case EnableClicks => s.(canClick := true)
    case Unrecognized => s
  }

  /** The state reached by dispatching the actions in order. */
  function Run(s: State, actions: seq<Action>): State
    decreases |actions|
  {
    if actions == [] then s else Run(Reduce(s, actions[0]), actions[1..])
  }

  // ---------------------------------------------------------------------------
  // Each action on its own

  /** SET_CARDS installs the deck, ends loading and blocks clicks; the
      selection and the pair counter are carried over untouched. */
  lemma SetCardsInstallsDeck(s: State, deck: seq<Card>)
    ensures var r := Reduce(s, SetCards(deck));
      && r.cards == deck && !r.isLoading && !r.canClick
      && r.flippedCards == s.flippedCards && r.matchedPairs == s.matchedPairs
  {
  }

  /** FLIP_CARD changes the state exactly when clicks are enabled, fewer than
      two cards are face up and the card is not already face up; when it does,
      it appends that card to the selection and changes nothing else. */
  lemma FlipCardAppends(s: State, card: Card)
    ensures var r := Reduce(s, FlipCard(card));
      && (r != s <==> s.canClick && |s.flippedCards| < 2 && card !in s.flippedCards)
      && (r != s ==> r.flippedCards == s.flippedCards + [card] && r.cards == s.cards
                     && r.matchedPairs == s.matchedPairs && r.isLoading == s.isLoading && r.canClick)
  {
    var r := Reduce(s, FlipCard(card));
    if s.canClick && |s.flippedCards| < 2 && card !in s.flippedCards {
      assert |r.flippedCards| == |s.flippedCards| + 1;
    }
  }

  /** CHECK_MATCH does nothing unless exactly two cards are face up. Otherwise
      it empties the selection, keeps the deck's length and every card's id,
      name and image, sets the matched flag exactly on the cards carrying one
      of the two flipped ids when the two names agree, and counts one more pair
      exactly on a match. */
  lemma CheckMatchResolves(s: State)
    ensures |s.flippedCards| != 2 ==> Reduce(s, CheckMatch) == s
    ensures |s.flippedCards| == 2 ==>
      var r := Reduce(s, CheckMatch);
      var first, second := s.flippedCards[0], s.flippedCards[1];
      var isMatch := first.name == second.name;
      && r.flippedCards == []
      && |r.cards| == |s.cards|
      && (forall i :: 0 <= i < |s.cards| ==>
            && r.cards[i].id == s.cards[i].id
            && r.cards[i].name == s.cards[i].name
            && r.cards[i].image == s.cards[i].image
            && (r.cards[i].matched <==>
                  s.cards[i].matched || (isMatch && (s.cards[i].id == first.id || s.cards[i].id == second.id))))
      && r.matchedPairs == (if isMatch then s.matchedPairs + 1 else s.matchedPairs)
      && r.isLoading == s.isLoading && r.canClick == s.canClick
  {
  }

  /** On a mismatch CHECK_MATCH leaves every card exactly as it was. */
  lemma MismatchKeepsCards(s: State)
    requires |s.flippedCards| == 2 && s.flippedCards[0].name != s.flippedCards[1].name
    ensures Reduce(s, CheckMatch).cards == s.cards
    ensures Reduce(s, CheckMatch).matchedPairs == s.matchedPairs
  {
    var r := Reduce(s, CheckMatch);
    assert forall i :: 0 <= i < |s.cards| ==> r.cards[i] == s.cards[i];
  }

  /** RESET_GAME forgets the prior state entirely, so doing it twice is doing it once. */
  lemma ResetForgets(s: State, t: State)
    ensures Reduce(s, ResetGame) == Reduce(t, ResetGame)
    ensures Reduce(Reduce(s, ResetGame), ResetGame) == Reduce(s, ResetGame)
    ensures var r := Reduce(s, ResetGame);
      r.cards == [] && r.flippedCards == [] && r.matchedPairs == 0 && r.isLoading && !r.canClick
  {
  }

  /** ENABLE_CLICKS turns clicks on and touches nothing else; an unrecognized action is ignored. */
  lemma EnableClicksOnlyEnables(s: State)
    ensures var r := Reduce(s, EnableClicks);
      && r.canClick && r.cards == s.cards && r.flippedCards == s.flippedCards
      && r.matchedPairs == s.matchedPairs && r.isLoading == s.isLoading
    ensures Reduce(s, Unrecognized) == s
  {
  }

  // ---------------------------------------------------------------------------
  // The selection: at most two cards, never the same card twice

  predicate SelectionBounded(s: State) {
    && |s.flippedCards| <= 2
    && forall i, j :: 0 <= i < j < |s.flippedCards| ==> s.flippedCards[i] != s.flippedCards[j]
  }

  /** Every action keeps the selection bounded and free of duplicates. */
  lemma StepKeepsSelectionBounded(s: State, a: Action)
    requires SelectionBounded(s)
    ensures SelectionBounded(Reduce(s, a))
  {
    if a.FlipCard? && Reduce(s, a) != s {
      var f := s.flippedCards + [a.card];
      assert forall i :: 0 <= i < |s.flippedCards| ==> f[i] == s.flippedCards[i];
    }
  }

  /** Whatever actions are dispatched, in whatever order, the selection stays
      bounded by two and free of duplicates. */
  lemma {:induction false} RunKeepsSelectionBounded(s: State, actions: seq<Action>)
    requires SelectionBounded(s)
    ensures SelectionBounded(Run(s, actions))
    decreases |actions|
  {
    if actions != [] {
      StepKeepsSelectionBounded(s, actions[0]);
      RunKeepsSelectionBounded(Reduce(s, actions[0]), actions[1..]);
    }
  }

  // ---------------------------------------------------------------------------
  // Progress within one game: nothing is ever unmatched

  /** Only SET_CARDS and RESET_GAME replace the deck and the pair counter. */
  predicate InGame(a: Action) {
    !a.SetCards? && !a.ResetGame?
  }

  /** `t` is a later state of the same game as `s`: the same cards in the same
      places, every matched card still matched, and no fewer pairs counted. */
  predicate Advances(s: State, t: State) {
    && |t.cards| == |s.cards|
    && (forall i :: 0 <= i < |s.cards| ==>
          && t.cards[i].id == s.cards[i].id
          && t.cards[i].name == s.cards[i].name
          && t.cards[i].image == s.cards[i].image
          && (s.cards[i].matched ==> t.cards[i].matched))
    && s.matchedPairs <= t.matchedPairs
  }

  /** A single in-game action never unmatches a card, moves a card or lowers the counter. */
  lemma StepAdvances(s: State, a: Action)
    requires InGame(a)
    ensures Advances(s, Reduce(s, a))
  {
  }

  /** Over any run of in-game actions the deck keeps its length and its cards,
      matched flags only go from false to true and the pair counter never decreases. */
  lemma {:induction false} RunAdvances(s: State, actions: seq<Action>)
    requires forall k :: 0 <= k < |actions| ==> InGame(actions[k])
    ensures Advances(s, Run(s, actions))
    decreases |actions|
  {
    if actions != [] {
      var next := Reduce(s, actions[0]);
      StepAdvances(s, actions[0]);
      RunAdvances(next, actions[1..]);
    }
  }

  /** SET_CARDS and RESET_GAME are the actions that can undo progress: from a
      state with a matched card, either of them can leave no card matched and
      the counter lower. */
  lemma ReplacingActionsUndoProgress(s: State)
    requires |s.cards| > 0 && s.cards[0].matched
    ensures !Advances(s, Reduce(s, ResetGame))
    ensures !Advances(s, Reduce(s, SetCards([s.cards[0].(matched := false)] + s.cards[1..])))
  {
  }
}
