# Pokémon memory game: the game-state reducer and the deck builder

This project models the core of a browser memory-matching game in Dafny.
The game shows a grid of face-down cards, two per creature fetched from the
PokeAPI. The player turns up two cards per turn: a matching pair stays
matched and is counted, and a mismatch is turned back. All game state lives
in one record (`cards`, `flippedCards`, `matchedPairs`, `isLoading`,
`canClick`). A pure `reducer` changes that record in answer to five actions:
SET_CARDS, FLIP_CARD, CHECK_MATCH, RESET_GAME and ENABLE_CLICKS. The deck is
built by turning every fetched creature into two twin cards whose ids end in
"A" and "B".

The modelled code is pure: the reducer builds new records and never mutates, and the
deck is one `flatMap`. The model is therefore made of datatypes, functions
and lemmas, in four modules:

- `Cards` (`cards.dfy`) holds the card record and facts about decks: unique
  ids, counting matched cards, and what a reordering of a deck keeps.
- `Reducer` (`reducer.dfy`) holds `State`, `Action`, `Initial`, the step
  function `Reduce` and `Run`, which folds `Reduce` over a sequence of
  actions. Its lemmas describe each action, and two invariants that hold
  over any run: the selection never holds more than two cards or the same
  card twice, and within one game no card is ever unmatched and the pair
  counter never goes down.
- `Deck` (`deck.dfy`) holds the creature record, the decimal spelling of a
  creature id, `BuildDeck` (the `flatMap`) and what any shuffle of the
  result keeps. A failed fetch yields the empty deck.
- `Turn` (`turn.dfy`) holds the click handler's guard as `HandleCardClick`.
  It returns the actions a click dispatches at once and the ones its timer
  dispatches later. The module also holds the bookkeeping invariant
  `Consistent`: every face-up card is an unmatched card of the board, and at
  least two cards are matched per counted pair. `Consistent` is proved to
  hold along every run in the order the screen dispatches actions, whatever
  creatures were drawn (apart from a late load; see "## Left out"). When
  every loaded deck has unique ids, the matched cards are moreover exactly
  two per counted pair (`CountedExactly`). The module ends with one whole
  turn and the start of a new game.

A few things the code does that a reader may not expect:

- The six creature ids are drawn independently (src/Tela.tsx:66), so the
  same creature can be drawn twice. Its four cards then share two ids, and
  a match of one of its A cards with one of its B cards marks all four
  while counting one pair. In the code a match of its two A cards marks
  only those two, since `includes` compares object references; the model's
  record equality never reaches that case (see `FlipCardAppends` under
  "## Left out").
- A failed fetch does not leave the game loading. `fetchPokemon` catches the
  error and returns `[]`, and SET_CARDS then installs an empty board with
  `isLoading = false`.
- The state has no phase for a finished game and no per-card "revealed"
  flag: a card shows its face during the opening preview, while it is in
  `flippedCards`, or once it is matched.
  CHECK_MATCH does not turn clicks off.
- The `default` branch of the reducer is reachable only by an action whose
  type tag is none of the five. The model names it `Unrecognized`.

## Model

| member | source | states |
|---|---|---|
| `Reducer.MarkMatched` | src/Tela.tsx:48-50 | the card list keeps its length and every card's id, name and image; a card ends matched exactly when it was matched already or it is a match and the card carries one of the two flipped ids |
| `Reducer.MarkMatchedCount` | src/Tela.tsx:48-50 | on a match, the number of matched cards grows by the number of unmatched cards carrying either flipped id, counted once when the two ids coincide |
| `Reducer.Reduce` | src/Tela.tsx:35-61 | no contract of its own; each case is stated by `SetCardsInstallsDeck`, `FlipCardAppends`, `CheckMatchResolves`, `MismatchKeepsCards`, `ResetForgets` and `EnableClicksOnlyEnables`, and its runs by `RunKeepsSelectionBounded` and `RunAdvances` |
| `Reducer.SetCardsInstallsDeck` | src/Tela.tsx:37-38 | SET_CARDS installs the payload as the deck, ends loading and blocks clicks, and keeps the selection and the pair counter |
| `Reducer.FlipCardAppends` | src/Tela.tsx:39-41 | FLIP_CARD changes the state if and only if clicks are on, fewer than two cards are face up and the card is not already face up; when it does, it appends exactly that card and changes nothing else |
| `Reducer.CheckMatchResolves` | src/Tela.tsx:42-53 | CHECK_MATCH is a no-op unless exactly two cards are face up; otherwise it empties the selection, keeps the deck's length and the cards' ids, names and images, matches exactly the cards carrying a flipped id when the two names agree, and counts one more pair exactly on a match |
| `Reducer.MismatchKeepsCards` | src/Tela.tsx:45-51 | on a mismatch the cards and the pair counter are left as they were |
| `Reducer.ResetForgets` | src/Tela.tsx:54-55 | RESET_GAME returns the same state from any prior state (empty deck and selection, no pairs, loading, clicks off), so it is idempotent |
| `Reducer.EnableClicksOnlyEnables` | src/Tela.tsx:56-59 | ENABLE_CLICKS sets only `canClick`; an unrecognized action leaves the state unchanged |
| `Reducer.StepKeepsSelectionBounded` | src/Tela.tsx:39-53 | every action keeps the selection at two cards or fewer, with no card twice |
| `Reducer.RunKeepsSelectionBounded` | src/Tela.tsx:35-61 | over any sequence of actions the selection stays at two cards or fewer, with no card twice |
| `Reducer.StepAdvances` | src/Tela.tsx:39-59 | FLIP_CARD, CHECK_MATCH, ENABLE_CLICKS and unrecognized actions keep every card in its place with its id, name and image, never unmatch a card and never lower the pair counter |
| `Reducer.RunAdvances` | src/Tela.tsx:35-61 | over any run without SET_CARDS and RESET_GAME, matched flags only go from false to true, the deck keeps its length and cards, and the pair counter never decreases |
| `Reducer.ReplacingActionsUndoProgress` | src/Tela.tsx:37-55 | SET_CARDS and RESET_GAME are the actions that can undo progress: from a state with a matched card either of them can lose it |
| `Deck.DecimalString` | src/Tela.tsx:72-73 | the decimal spelling of a creature id is never empty, and has two digits or more from 10 upward |
| `Deck.DecimalStringInjective` | src/Tela.tsx:72-73 | distinct creature ids are spelled differently |
| `Deck.CardIdInjective` | src/Tela.tsx:72-73 | a card id determines both the creature id and the side letter it was made from |
| `Deck.CardOf` | src/Tela.tsx:72-73 | no contract of its own; its id, name, image and unmatched flag are stated through `BuildDeck`, `TwinsShareNameAndImage` and `CardIdInjective` |
| `Deck.BuildDeck` | src/Tela.tsx:71-74 | n records give 2n cards; record i gives cards 2i and 2i+1, with ids suffixed "A" and "B", the record's name and image, and not matched |
| `Deck.DeckAt` | src/Tela.tsx:71-74 | position k of a built deck holds record k/2's card, side A at even positions and side B at odd ones |
| `Deck.BuiltDeckNoneMatched` | src/Tela.tsx:71-74 | no card of a freshly built deck is matched |
| `Deck.DeckIdsUniqueIff` | src/Tela.tsx:71-74 | a built deck's card ids are unique if and only if the creature ids were distinct |
| `Deck.TwinsShareNameAndImage` | src/Tela.tsx:71-74 | the two cards of a record share its name and image and have different ids |
| `Deck.DeckDoublesNames` | src/Tela.tsx:71-74 | every name occurs in the deck exactly twice as often as among the records |
| `Cards.PermutationKeepsNoneMatched` | src/Tela.tsx:76 | shuffling a deck with no matched card leaves no matched card |
| `Cards.PermutationKeepsIdsUnique` | src/Tela.tsx:76 | shuffling a deck keeps its ids unique |
| `Cards.PermutationKeepsNames` | src/Tela.tsx:76 | shuffling a deck keeps how often each name occurs |
| `Deck.ShuffledNamesDoubled` | src/Tela.tsx:71-76 | in any shuffle of the built deck each name occurs twice per record carrying it |
| `Deck.ShuffledIdsUniqueIff` | src/Tela.tsx:71-76 | in any shuffle of the built deck the ids are unique if and only if the creature ids were distinct |
| `Deck.IsFetchedDeck` | src/Tela.tsx:63-81 | no contract of its own; what a fetched deck holds is stated by `FetchedDeckIsPaired`, `ShuffledNamesDoubled`, `ShuffledIdsUniqueIff` and `FullFetchHasTwelveCards` |
| `Deck.FetchedDeckIsPaired` | src/Tela.tsx:63-81 | what the fetch returns, a shuffled built deck or `[]` on failure, has two cards per record, none matched, every name twice per record carrying it, and unique ids exactly when no creature was drawn twice |
| `Deck.FullFetchHasTwelveCards` | src/Tela.tsx:65-76 | a successful fetch of the six requested creatures yields twelve cards |
| `Turn.HandleCardClick` | src/Tela.tsx:98-106 | no contract of its own; its guard and effects are stated by `ClickIgnoredIff`, `ClickFlips`, `TwoClicksFlipBoth` and `TurnResolves` |
| `Turn.ClickIgnoredIff` | src/Tela.tsx:98-99 | a click dispatches nothing, at once or later, if and only if clicks are off, two cards are face up or the card is matched, so a click on a matched card never changes the state |
| `Turn.ClickFlips` | src/Tela.tsx:98-106 | a click that passes the guard dispatches FLIP_CARD for the card, which changes the state if and only if the card is not face up yet, and arms CHECK_MATCH if and only if one card was face up |
| `Turn.ReducerAloneFlipsMatchedCard` | src/Tela.tsx:39-41 | the matched-card test belongs to the click handler: the reducer alone flips a matched card that the handler ignores |
| `Turn.InitialConsistent` | src/Tela.tsx:20-26 | the initial state satisfies the bookkeeping invariant |
| `Turn.MatchMarksBoth` | src/Tela.tsx:45-51 | on a match of two distinct unmatched cards of the board, no matched card is unmatched and at least two more cards become matched |
| `Turn.MatchAddsTwoCards` | src/Tela.tsx:45-51 | on a match of two distinct unmatched cards of a deck with unique ids, the ids differ and exactly two more cards become matched |
| `Turn.CheckMatchKeepsConsistent` | src/Tela.tsx:42-53 | CHECK_MATCH keeps the bookkeeping invariant: the selection is emptied, and on a match at least the two flipped cards become matched while one pair is counted |
| `Turn.StepKeepsConsistent` | src/Tela.tsx:35-61 | every action `Permitted` in the current state (each one the screen dispatches, apart from a late load) keeps the bookkeeping invariant, including decks with a creature drawn twice |
| `Turn.RunKeepsConsistent` | src/Tela.tsx:35-61 | along any run the screen can produce the invariant holds, so the pair counter never exceeds half the deck |
| `Turn.StepKeepsCountedExactly` | src/Tela.tsx:35-61 | a permitted action keeps ids unique and the matched cards exactly two per counted pair, provided any deck it loads has unique ids |
| `Turn.RunKeepsCountedExactly` | src/Tela.tsx:35-61 | along a permitted run that loads only decks with unique ids, the matched cards stay exactly two per counted pair |
| `Turn.TwoClicksFlipBoth` | src/Tela.tsx:98-106 | clicking two distinct unmatched cards with clicks on and nothing face up flips both, and only the second click arms CHECK_MATCH |
| `Turn.TurnResolves` | src/Tela.tsx:98-106 | after two clicks on distinct unmatched cards and the armed CHECK_MATCH, the selection is empty, exactly the cards carrying a clicked id are matched if the names agree (exactly the two clicked cards when ids are unique), one pair more is counted exactly on a match, and the invariant holds |
| `Turn.RepeatedDrawMatchesFour` | src/Tela.tsx:45-51 | a deck built from the same creature drawn twice can be dealt and played so that one match marks all four cards while counting one pair |
| `Turn.MountActions` | src/Tela.tsx:86-95 | no contract of its own; the mount run is stated by `NewGameDeals` |
| `Turn.NewGameActions` | src/Tela.tsx:108-118 | no contract of its own; the new-game run is stated by `NewGameDeals` |
| `Turn.NewGameDeals` | src/Tela.tsx:108-118 | RESET_GAME, SET_CARDS and ENABLE_CLICKS from any state, or SET_CARDS and ENABLE_CLICKS from the initial state, deal the fetched deck with nothing face up, no pairs and clicks on; the run is one the screen may dispatch, the invariant holds, the count is exact if and only if the fetch failed or no creature was drawn twice, and a failed fetch gives an empty board |

## Left out

- The random draw of creature ids (src/Tela.tsx:66) is not modelled: it is randomness. The fetched records are a parameter.
- The network requests, `Promise.all` and the JSON decoding (src/Tela.tsx:67-69) are not modelled: they are network I/O. Their outcome is the `Fetch` parameter, either all records or a failure.
- The `Math.random` comparator sort (src/Tela.tsx:76) is randomness. The model allows any permutation of the built deck (equal multisets), and whether that sort is uniform is not modelled.
- The `console.error` call in the failure branch (src/Tela.tsx:78) is logging, so it is not modelled.
- The `setTimeout` timers, the `showingCards` hook and the React effect (src/Tela.tsx:84-96, 104, 108-118) are wall-clock scheduling and framework plumbing. Only the actions they dispatch are modelled, as `ClickEffects`, `NewGameActions` and `MountActions`.
- JSX rendering (src/Tela.tsx:120-146) and src/Prompt.tsx are UI only, so they are not modelled. Prompt.tsx is a button that forwards its callback.
- `HandleCardClick` sees the state of the latest render. React can batch two clicks against one stale render, and that is not modelled.
- `FlipCardAppends`: `includes` compares object references, and the model compares card records. The two differ only for two distinct card objects with equal fields, which needs a creature drawn twice.
- `StepKeepsConsistent`, `RunKeepsConsistent`: they cover only runs in which SET_CARDS arrives in a fresh game (after mount or RESET_GAME). A late fetch from a superseded game (a second new-game click before the first fetch settles, src/Tela.tsx:108-111) installs a fresh deck but keeps the old selection and pair counter, which breaks the invariant, so it is not claimed for such runs.
- `matchedPairs` is an unbounded natural. JavaScript numbers lose precision above 2^53, and no game gets near that.
- A creature with no front sprite (`null` image) is not modelled. Images are plain strings.
