/** The game screen's side of the reducer: the click handler's guard, the
    actions it and the timers dispatch, and the bookkeeping invariant that the
    game keeps as long as actions arrive in the order the screen sends them. */
module Turn {
  import opened Cards
  import opened Reducer
  import opened Deck

  /** What one click dispatches: `now` at once, and `afterDelay` when the
      one-second timer the click arms goes off. */
  datatype ClickEffects = ClickEffects(now: seq<Action>, afterDelay: seq<Action>)

  /** The click handler. It ignores the click while clicks are blocked, while
      two cards are already face up, and on a matched card; otherwise it
      dispatches FLIP_CARD, and when the card is the second of the turn (one
      card was face up when the click arrived) it arms CHECK_MATCH. */
  function HandleCardClick(s: State, card: Card): ClickEffects {
    if !s.canClick || |s.flippedCards| >= 2 || card.matched then ClickEffects([], [])
    else ClickEffects([FlipCard(card)], if |s.flippedCards| == 1 then [CheckMatch] else [])
  }

  /** A click dispatches nothing, now or later, exactly when clicks are
      blocked, two cards are face up or the card is matched; in particular a
      click on a matched card never changes the state. */
  lemma ClickIgnoredIff(s: State, card: Card)
    ensures var e := HandleCardClick(s, card);
      && (e.now == [] <==> !s.canClick || |s.flippedCards| >= 2 || card.matched)
      && (e.now == [] ==> e.afterDelay == [] && Run(s, e.now + e.afterDelay) == s)
  {
  }

  /** A click the handler lets through flips the card exactly when it is not
      already face up, and arms CHECK_MATCH exactly when it is the second click
      of the turn. */
  lemma ClickFlips(s: State, card: Card)
    requires HandleCardClick(s, card).now != []
    ensures var e := HandleCardClick(s, card);
      && e.now == [FlipCard(card)]
      && (Run(s, e.now) != s <==> card !in s.flippedCards)
      && (e.afterDelay == [CheckMatch] <==> |s.flippedCards| == 1)
      && (e.afterDelay == [] <==> |s.flippedCards| == 0)
  {
    FlipCardAppends(s, card);
  }

  /** The matched-card test is the handler's own: the reducer alone would
      flip a matched card that the handler ignores. */
  lemma ReducerAloneFlipsMatchedCard(card: Card)
    requires card.matched
    ensures var s := State([card], [], 1, false, true);
      && HandleCardClick(s, card).now == []
      && Reduce(s, FlipCard(card)).flippedCards == [card]
  {
  }

  // ---------------------------------------------------------------------------
  // The bookkeeping invariant

  /** The state is consistent: the selection is bounded and free of
      duplicates, every face-up card is an unmatched card of the deck, and at
      least two cards are matched per counted pair. A creature drawn twice
      puts four cards with the same two ids on the board, and a match of one
      of its A cards with one of its B cards marks all four, so more than two
      cards per pair can be matched. */
  predicate Consistent(s: State) {
    && SelectionBounded(s)
    && (forall k :: 0 <= k < |s.flippedCards| ==> s.flippedCards[k] in s.cards && !s.flippedCards[k].matched)
    && 2 * s.matchedPairs <= CountMatched(s.cards)
  }

  /** The actions the screen sends, in the state it sends them in: a deck is
      loaded only into a fresh game (at mount, or right after RESET_GAME) and
      only with no card matched yet; a card is flipped only by a click on a
      card of the board that the handler lets through. Timers and the
      new-game button may fire at any time. */
  predicate Permitted(s: State, a: Action) {
    match a
    case SetCards(deck) => s.flippedCards == [] && s.matchedPairs == 0 && NoneMatched(deck)
    case FlipCard(card) => card in s.cards && HandleCardClick(s, card).now == [a]
    case _ => true
  }

  /** Every action of the run is permitted in the state it is dispatched in. */
  predicate PermittedRun(s: State, actions: seq<Action>)
    decreases |actions|
  {
    actions == [] || (Permitted(s, actions[0]) && PermittedRun(Reduce(s, actions[0]), actions[1..]))
  }

  /** The state before any load is consistent. */
  lemma InitialConsistent()
    ensures Consistent(Initial)
  {
  }

  /** On a match of two distinct unmatched cards of the deck, at least those
      two cards become matched, and no matched card is unmatched. */
  lemma MatchMarksBoth(cards: seq<Card>, first: Card, second: Card)
    requires first in cards && second in cards && first != second
    requires !first.matched && !second.matched
    ensures MatchedGrows(cards, MarkMatched(cards, true, first.id, second.id))
    ensures CountMatched(cards) + 2 <= CountMatched(MarkMatched(cards, true, first.id, second.id))
  {
    var r := MarkMatched(cards, true, first.id, second.id);
    var i :| 0 <= i < |cards| && cards[i] == first;
    var j :| 0 <= j < |cards| && cards[j] == second;
    if i < j {
      CountMatchedGainsTwo(cards, r, i, j);
    } else {
      CountMatchedGainsTwo(cards, r, j, i);
    }
  }

  /** On a match of two distinct unmatched cards of a deck with unique ids,
      exactly two more cards are matched. */
  lemma MatchAddsTwoCards(cards: seq<Card>, first: Card, second: Card)
    requires IdsUnique(cards) && first in cards && second in cards && first != second
    requires !first.matched && !second.matched
    ensures first.id != second.id
    ensures CountMatched(MarkMatched(cards, true, first.id, second.id)) == CountMatched(cards) + 2
  {
    var i :| 0 <= i < |cards| && cards[i] == first;
    var j :| 0 <= j < |cards| && cards[j] == second;
    assert i != j;
    MarkMatchedCount(cards, first.id, second.id);
    UnmatchedIdCountedOnce(cards, first);
    UnmatchedIdCountedOnce(cards, second);
  }

  /** CHECK_MATCH keeps the state consistent. */
  lemma CheckMatchKeepsConsistent(s: State)
    requires Consistent(s)
    ensures Consistent(Reduce(s, CheckMatch))
  {
    if |s.flippedCards| == 2 {
      var first, second := s.flippedCards[0], s.flippedCards[1];
      if first.name == second.name {
        MatchMarksBoth(s.cards, first, second);
      } else {
        MismatchKeepsCards(s);
      }
    }
  }

  /** Every permitted action keeps the state consistent. */
  lemma StepKeepsConsistent(s: State, a: Action)
    requires Consistent(s) && Permitted(s, a)
    ensures Consistent(Reduce(s, a))
  {
    StepKeepsSelectionBounded(s, a);
    match a
    case SetCards(deck) =>
    case FlipCard(card) =>
      FlipCardAppends(s, card);
    case CheckMatch =>
      CheckMatchKeepsConsistent(s);
    case _ =>
  }

  /** Along any run the screen can produce, the state stays consistent; in
      particular the pair counter never exceeds half the deck. */
  lemma {:induction false} RunKeepsConsistent(s: State, actions: seq<Action>)
    requires Consistent(s) && PermittedRun(s, actions)
    ensures Consistent(Run(s, actions))
    ensures 2 * Run(s, actions).matchedPairs <= |Run(s, actions).cards|
    decreases |actions|
  {
    if actions != [] {
      StepKeepsConsistent(s, actions[0]);
      RunKeepsConsistent(Reduce(s, actions[0]), actions[1..]);
    }
  }

  // ---------------------------------------------------------------------------
  // Exact counting when no creature is drawn twice

  /** Card ids are unique and the matched cards are exactly two per counted pair. */
  predicate CountedExactly(s: State) {
    IdsUnique(s.cards) && CountMatched(s.cards) == 2 * s.matchedPairs
  }

  /** Every deck the run loads has unique ids. */
  predicate LoadsUniqueIds(actions: seq<Action>) {
    forall k :: 0 <= k < |actions| ==> actions[k].SetCards? ==> IdsUnique(actions[k].deck)
  }

  /** A permitted action keeps the count exact, provided a deck it loads has unique ids. */
  lemma StepKeepsCountedExactly(s: State, a: Action)
    requires Consistent(s) && CountedExactly(s) && Permitted(s, a)
    requires a.SetCards? ==> IdsUnique(a.deck)
    ensures CountedExactly(Reduce(s, a))
  {
    match a
    case SetCards(deck) =>
      CountMatchedZero(deck);
    case CheckMatch =>
      if |s.flippedCards| == 2 {
        var first, second := s.flippedCards[0], s.flippedCards[1];
        var r := Reduce(s, CheckMatch);
        assert IdsUnique(r.cards);
        if first.name == second.name {
          MatchAddsTwoCards(s.cards, first, second);
        } else {
          MismatchKeepsCards(s);
        }
      }
    case _ =>
  }

  /** Along a permitted run that only loads decks with unique ids, the matched
      cards stay exactly two per counted pair. */
  lemma {:induction false} RunKeepsCountedExactly(s: State, actions: seq<Action>)
    requires Consistent(s) && CountedExactly(s) && PermittedRun(s, actions) && LoadsUniqueIds(actions)
    ensures CountedExactly(Run(s, actions))
    decreases |actions|
  {
    if actions != [] {
      StepKeepsCountedExactly(s, actions[0]);
      StepKeepsConsistent(s, actions[0]);
      assert LoadsUniqueIds(actions[1..]) by {
        forall k | 0 <= k < |actions[1..]| && actions[1..][k].SetCards?
          ensures IdsUnique(actions[1..][k].deck)
        {
          assert actions[1..][k] == actions[k + 1];
        }
      }
      RunKeepsCountedExactly(Reduce(s, actions[0]), actions[1..]);
    }
  }

  // ---------------------------------------------------------------------------
  // Whole turns and whole games

  /** The clicks of one turn. From a state with clicks enabled and no card
      face up, clicking two distinct unmatched cards flips both, and only the
      second click arms CHECK_MATCH. */
  lemma TwoClicksFlipBoth(s: State, first: Card, second: Card)
    requires s.canClick && s.flippedCards == []
    requires first != second && !first.matched && !second.matched
    ensures
      var e1 := HandleCardClick(s, first);
      var s1 := Run(s, e1.now);
      var e2 := HandleCardClick(s1, second);
      && e1 == ClickEffects([FlipCard(first)], [])
      && s1 == s.(flippedCards := [first])
      && e2 == ClickEffects([FlipCard(second)], [CheckMatch])
      && Run(s1, e2.now) == s.(flippedCards := [first, second])
  {
    var s1 := s.(flippedCards := [first]);
    assert Reduce(s, FlipCard(first)) == s1;
    assert Run(s, [FlipCard(first)]) == Run(s1, []);
    assert second !in s1.flippedCards;
    assert Reduce(s1, FlipCard(second)) == s.(flippedCards := [first, second]);
    assert Run(s1, [FlipCard(second)]) == Run(Reduce(s1, FlipCard(second)), []);
  }

  /** One turn of play. From a consistent state with clicks enabled and no card
      face up, clicking two distinct unmatched cards of the board and letting
      the armed CHECK_MATCH fire empties the selection again, matches exactly
      the cards carrying one of the two clicked ids if their names agree (and
      changes no card otherwise), counts one more pair exactly on a match, and
      keeps the state consistent. When the ids are unique, the cards it
      matches are exactly the two clicked cards. */
  lemma TurnResolves(s: State, first: Card, second: Card)
    requires Consistent(s) && s.canClick && s.flippedCards == []
    requires first in s.cards && second in s.cards && first != second
    requires !first.matched && !second.matched
    ensures
      var e1 := HandleCardClick(s, first);
      var s1 := Run(s, e1.now);
      var e2 := HandleCardClick(s1, second);
      var s3 := Run(Run(s1, e2.now), e2.afterDelay);
      var isMatch := first.name == second.name;
      && s3.flippedCards == [] && s3.canClick
      && |s3.cards| == |s.cards|
      && (forall i :: 0 <= i < |s.cards| ==>
            (s3.cards[i].matched <==>
               s.cards[i].matched || (isMatch && (s.cards[i].id == first.id || s.cards[i].id == second.id))))
      && (IdsUnique(s.cards) ==> forall i :: 0 <= i < |s.cards| ==>
            (s3.cards[i].matched <==> s.cards[i].matched || (isMatch && (s.cards[i] == first || s.cards[i] == second))))
      && s3.matchedPairs == (if isMatch then s.matchedPairs + 1 else s.matchedPairs)
      && Consistent(s3)
  {
    TwoClicksFlipBoth(s, first, second);
    var s2 := s.(flippedCards := [first, second]);
    var s3 := Reduce(s2, CheckMatch);
    assert Run(s2, [CheckMatch]) == Run(s3, []);
    assert Consistent(s2);
    CheckMatchKeepsConsistent(s2);
    CheckMatchResolves(s2);
    if IdsUnique(s.cards) {
      forall i | 0 <= i < |s.cards|
        ensures s.cards[i].id == first.id ==> s.cards[i] == first
        ensures s.cards[i].id == second.id ==> s.cards[i] == second
      {
        if s.cards[i].id == first.id {
          UniqueIdPicksCard(s.cards, first, i);
        }
        if s.cards[i].id == second.id {
          UniqueIdPicksCard(s.cards, second, i);
        }
      }
    }
  }

  /** A creature drawn twice breaks the one-pair-two-cards count: with the
      deck built from two records of the same creature, the screen can match
      its first two cards, and CHECK_MATCH then marks all four cards as
      matched while counting one pair. */
  lemma RepeatedDrawMatchesFour()
    ensures
      var p := Pokemon(25, "pikachu", "front.png");
      var deck := BuildDeck([p, p]);
      var actions := [SetCards(deck), EnableClicks, FlipCard(deck[0]), FlipCard(deck[1]), CheckMatch];
      var t := Run(Initial, actions);
      && PermittedRun(Initial, actions)
      && |t.cards| == 4 && CountMatched(t.cards) == 4 && t.matchedPairs == 1
  {
    var p := Pokemon(25, "pikachu", "front.png");
    var a, b := CardOf(p, 'A'), CardOf(p, 'B');
    var deck := BuildDeck([p, p]);
    assert deck == [a, b, a, b];
    assert a != b by {
      if a == b {
        CardIdInjective(25, 'A', 25, 'B');
      }
    }
    var actions := [SetCards(deck), EnableClicks, FlipCard(a), FlipCard(b), CheckMatch];
    var s1 := State(deck, [], 0, false, false);
    var s2 := s1.(canClick := true);
    var s3 := s2.(flippedCards := [a]);
    var s4 := s2.(flippedCards := [a, b]);
    var m := MarkMatched(deck, true, a.id, b.id);
    assert m == [a.(matched := true), b.(matched := true), a.(matched := true), b.(matched := true)];
    assert CountMatched(m) == 4 by {
      var am, bm := a.(matched := true), b.(matched := true);
      assert m[1..] == [bm, am, bm] && m[1..][1..] == [am, bm] && m[1..][1..][1..] == [bm];
      assert CountMatched([bm]) == 1 by {
        assert [bm][1..] == [];
      }
      assert CountMatched([am, bm]) == 2;
      assert CountMatched([bm, am, bm]) == 3;
    }
    var s5 := s2.(cards := m, matchedPairs := 1);
    assert Reduce(s4, CheckMatch) == s5;
    assert Run(s4, [CheckMatch]) == s5 by {
      assert Run(s5, []) == s5;
    }
    assert Run(s3, [FlipCard(b), CheckMatch]) == s5 by {
      assert Reduce(s3, FlipCard(b)) == s4;
      assert [FlipCard(b), CheckMatch][1..] == [CheckMatch];
    }
    assert Run(s2, [FlipCard(a), FlipCard(b), CheckMatch]) == s5 by {
      assert Reduce(s2, FlipCard(a)) == s3;
      assert [FlipCard(a), FlipCard(b), CheckMatch][1..] == [FlipCard(b), CheckMatch];
    }
    assert actions[1..] == [EnableClicks, FlipCard(a), FlipCard(b), CheckMatch];
    assert actions[2..] == [FlipCard(a), FlipCard(b), CheckMatch];
    assert Run(Initial, actions) == s5;
    assert PermittedRun(s4, [CheckMatch]);
    assert PermittedRun(s3, [FlipCard(b), CheckMatch]);
    assert PermittedRun(s2, [FlipCard(a), FlipCard(b), CheckMatch]);
    assert PermittedRun(s1, actions[1..]);
  }

  /** What the new-game button sets off: RESET_GAME at once, SET_CARDS when
      the fetch settles, ENABLE_CLICKS when the three-second preview ends. */
  function NewGameActions(deck: seq<Card>): seq<Action> {
    [ResetGame, SetCards(deck), EnableClicks]
  }

  /** What mounting the screen sets off, from the initial state. */
  function MountActions(deck: seq<Card>): seq<Action> {
    [SetCards(deck), EnableClicks]
  }

  /** A new game started from any state deals the fetched deck with nothing
      face up, no pair counted and clicks enabled, along a permitted run, so
      the bookkeeping invariant holds from there on; the count is exact
      precisely when the fetch failed or no creature was drawn twice. A failed
      fetch deals an empty board that is no longer loading. Mounting is the
      same run without the reset. */
  lemma NewGameDeals(s: State, f: Fetch, deck: seq<Card>)
    requires IsFetchedDeck(f, deck)
    ensures Run(s, NewGameActions(deck)) == State(deck, [], 0, false, true)
    ensures Run(Initial, MountActions(deck)) == State(deck, [], 0, false, true)
    ensures PermittedRun(s, NewGameActions(deck)) && PermittedRun(Initial, MountActions(deck))
    ensures Consistent(State(deck, [], 0, false, true))
    ensures CountedExactly(State(deck, [], 0, false, true)) <==> (f.Failed? || DistinctIds(f.records))
    ensures |Run(s, NewGameActions(deck)).cards| == (if f.Fetched? then 2 * |f.records| else 0)
  {
    FetchedDeckIsPaired(f, deck);
    var loaded := Reduce(Initial, SetCards(deck));
    assert Run(loaded, [EnableClicks]) == State(deck, [], 0, false, true);
    assert Run(Initial, MountActions(deck)) == Run(loaded, [EnableClicks]);
    assert Run(s, NewGameActions(deck)) == Run(Initial, MountActions(deck));
    assert PermittedRun(loaded, [EnableClicks]);
    assert PermittedRun(Initial, MountActions(deck));
    CountMatchedZero(deck);
  }
}
