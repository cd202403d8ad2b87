# Solitaire game coordinator, modelled in Dafny

This project models the game coordinator of a Klondike Solitaire application: the
`App` object of `Solitaire/App.cpp`, which owns the seven tableau stacks, the deck,
the waste and the four foundations, and moves cards between them in response to
pointer events. It also models the face-up flag of `CompositionCard`
(`Solitaire/CompositionCard.cpp`), which the coordinator sets while dealing and after
a move, and the card's hit test.

The project has four modules:

- `Piles` (`piles.dfy`): the piles as sequences of card ids, with the top card last.
  It gives sequence-level contracts to the pile operations the coordinator calls:
  - `CardStack::Split` and `Add`;
  - `Waste::Pick`, `InsertCard`, `RemoveCard`, `AddCards` and `Flush`;
  - `Deck::Draw` and `AddCards`;
  - `Foundation::Take` and `Add`.
- `Game` (`game.dfy`): the coordinator as functions of a `Board`, which holds the piles,
  the selection fields (`m_selectedCards`, `m_lastStack`, `m_isSelectedWasteCard`,
  `m_lastWasteIndex`, `m_lastFoundation`) and every card's face-up flag. It defines:
  - the deal of `SetWindow`;
  - a deck click;
  - `Press`, which is `OnPointerPressed`;
  - `Release`, which is `OnPointerReleased`.

  The game's properties are proved about these functions. The central one is that
  every card is in exactly one place (a pile or the hand) before and after every
  handler, with the corrected release described under Findings. The release as
  written loses cards.
- `Coordinator` (`app.dfy`): the class `App`, with the coordinator's fields and the
  three handlers written as imperative methods. They follow the source's loops: the
  deal loop advancing `cardsSoFar`, and the loops over the stacks and foundations
  that stop at the first match. Each handler is proved to leave the object in
  exactly the state the `Game` function computes.
- `CompositionCards` (`composition_card.dfy`): the class `CompositionCard`, with
  `IsFaceUp`, `AnimateIsFaceUp` and the half-open `HitTest`.

A pointer event arrives with its hit tests already resolved. It carries:
- the zone that contains the point;
- per pile, the `HitTest` result;
- per pile, the answer of the pile's rule predicate (`CanSplit`, `CanAdd`, `CanTake`).

The rules themselves (rank, suit, colour) belong to the pile classes and are not
part of this model.

`Deck::Draw` is taken to hand out up to a fixed batch of cards from the end of the
stock, the top card first. `Waste::Flush` is taken to return the waste reversed, so
that the next pass draws the cards in their first order. The batch size is a
parameter (`App.drawBatch`). `Waste::Pick(i)` is taken to remove card `i` from the
waste list, so a picked card is in the hand and not in the waste until the release.

## Model

| member | source | states |
|---|---|---|
| Piles.WithoutIndex | Solitaire/App.cpp:242 | `Waste::Pick(i)` leaves a waste one card shorter that holds exactly the old cards less the picked one |
| Piles.InsertCard | Solitaire/App.cpp:395 | `InsertCard(c, i)` puts `c` at index `i` and adds exactly that card |
| Piles.PickThenInsertRestores | Solitaire/App.cpp:393-396 | re-inserting a picked card at the index it was picked from gives back the waste as it was |
| Piles.InsertThenPickRestores | Solitaire/App.cpp:239-248 | picking the card just inserted at an index gives back the waste it was inserted into |
| Piles.RemoveCard | Solitaire/App.cpp:383-386 | `Waste::RemoveCard(c)` removes one copy of `c` when the waste holds it, and changes nothing otherwise |
| Piles.ReverseCards | Solitaire/App.cpp:199-200 | the flushed waste handed to the deck holds the same cards as the waste |
| Piles.ReverseReverse | Solitaire/App.cpp:199-200 | reversing twice gives back the original order |
| Piles.Draw | Solitaire/App.cpp:190 | the stock left, followed by the drawn cards in stock order, is the old stock. The draw takes the batch size or all that is left. It hands out nothing exactly when the stock is empty or the batch is 0 |
| Piles.DrawKeepsOrder | Solitaire/App.cpp:190-195 | moving drawn cards onto the waste keeps the order of stock followed by reversed waste |
| Piles.FlattenCut | Solitaire/App.cpp:213 | cutting a pile at an index takes exactly the cut-off run out of the cards of the piles |
| Piles.FlattenGrow | Solitaire/App.cpp:364 | adding cards on top of one pile adds exactly those cards to the cards of the piles |
| Piles.FirstTrue | Solitaire/App.cpp:207-234 | the index where a loop breaking on its first match stops: no match before it, a match at it unless it is the end |
| Game.Deal | Solitaire/App.cpp:106-161 | the deal leaves a well-formed board with nothing in hand, an empty waste and four empty foundations, and the deck holds all but the 28 stack cards |
| Game.DealStacks | Solitaire/App.cpp:106-124 | the first `i` stacks of the deal are `i` stacks, and stack `k` has `k + 1` cards |
| Game.SetAllMeaning | Solitaire/App.cpp:127-131 | `IsFaceUp(v)` on every card of a list gives each of them the flag `v` and leaves every other flag as it was |
| Game.TurnStackMeaning | Solitaire/App.cpp:125-133 | after one stack of distinct cards is turned, its last card is face-up and all its other cards face-down; every other flag is kept |
| Game.DealFlagsElsewhere | Solitaire/App.cpp:125-133 | the flag loop over the stacks gives every stack card a flag and keeps the flag of every card in no stack |
| Game.DealFlagsStacks | Solitaire/App.cpp:125-133 | for a deal without repeated cards, the flag loop leaves every stack card face-down except each stack's last card |
| Game.OriginIsKnown | Solitaire/App.cpp:389-406 | with a selection in hand, the rollback chain always finds an origin, so its final `WINRT_ASSERT(false)` is unreachable; a waste or foundation origin means a one-card hand |
| Game.DealShape | Solitaire/App.cpp:106-137 | stack `k` gets exactly `k + 1` cards, the slice of the shuffled pack after the first `k` stacks (28 cards in all); the stacks followed by the deck are the shuffled pack |
| Game.DealFaceUp | Solitaire/App.cpp:125-133 | after the deal every stack card is face-down except the stack's last card, which is face-up; the deck's cards keep their flags |
| Game.DealIsValid | Solitaire/App.cpp:98-161 | a deal from a pack without repeated cards holds exactly the pack's cards, each once, each with a flag |
| Game.ClickDrawsOrRecycles | Solitaire/App.cpp:186-203 | on a non-empty stock, with a batch of at least one card, a click draws: the stock shrinks and the drawn cards go on top of the unchanged waste. Otherwise it recycles: the deck becomes the stock followed by the reversed waste, and the waste empties |
| Game.DeckClick | Solitaire/App.cpp:186-203 | a deck click changes only the deck and the waste, and keeps their cards taken together |
| Game.ClickKeepsCycle | Solitaire/App.cpp:186-203 | a deck click keeps the cards of deck and waste together and the order in which they come round (deck, then reversed waste) |
| Game.DrawingExhausts | Solitaire/App.cpp:188-196 | each click of a pass draws, so the stock empties after the expected number of clicks |
| Game.DeckCycle | Solitaire/App.cpp:186-203 | drawing the stock to empty and clicking once more to recycle gives back the original stock with an empty waste, so the next pass draws in the same order |
| Game.Press | Solitaire/App.cpp:170-308 | a press turns no card over and keeps the number of stacks and foundations. Outside the deck it either lifts a selection into the hand or leaves the board exactly as it was |
| Game.Split | Solitaire/App.cpp:207-213 | what is left of the stack followed by the lifted run is the stack as it was; no other stack changes, and `m_lastStack` names the stack |
| Game.Pick | Solitaire/App.cpp:239-247 | the hand holds one card and the waste is one card shorter; re-inserting the card at its index gives back the waste |
| Game.Take | Solitaire/App.cpp:271-280 | the hand holds one card, and the foundation followed by that card is the foundation as it was |
| Game.PressKeepsCards | Solitaire/App.cpp:186-294 | a press with nothing in hand only moves cards: from a stack, the waste or a foundation into the hand, or between deck and waste |
| Game.PressKeepsShape | Solitaire/App.cpp:170-308 | a press keeps the pile counts and the selection-field invariants, and the coordinator itself turns no card over |
| Game.PressConserves | Solitaire/App.cpp:170-308 | pointer-down keeps the invariant (each card in exactly one place, each with a flag) and the multiset of all cards |
| Game.SplitKeepsCards | Solitaire/App.cpp:212-213 | a split moves exactly the run from the stack into the hand |
| Game.PickKeepsCards | Solitaire/App.cpp:242-244 | a pick moves exactly the one card from the waste into the hand |
| Game.TakeKeepsCards | Solitaire/App.cpp:269-277 | a take moves exactly the top card of the foundation into the hand |
| Game.PressSelectsFirstSplittable | Solitaire/App.cpp:205-236 | only the first stack whose hit index it can split from is split. The hand then holds the lifted run, and `m_lastStack` names that stack. Nothing else changes, and with no such stack nothing changes at all |
| Game.PressPicksWasteCard | Solitaire/App.cpp:237-258 | a hit index of at least 0 selects exactly that card. It sets the waste flag, records the index and clears `m_lastStack`. Inserting the card back at the index restores the waste. Nothing else changes, and a negative index changes nothing at all |
| Game.DropTargetAsWritten | Solitaire/App.cpp:357-358 | the destination as written always names an existing pile or the origin |
| Game.DropTarget | Solitaire/App.cpp:357-369 | the corrected destination always names an existing pile or the origin |
| Game.DropPrecedence | Solitaire/App.cpp:357-369 | the first stack hit wins when it accepts the front card, and it receives the whole hand. A foundation is chosen exactly when no stack accepts, the first foundation hit accepts the front card, and the hand is one card |
| Game.CorrectionScope | Solitaire/App.cpp:358 | the correction changes the destination only for a hand of other than one card that would have gone to a foundation |
| Game.Place | Solitaire/App.cpp:362-369 | placing changes only the destination pile; the hand, the deck, the waste and the flags are untouched |
| Game.PlaceAddsHand | Solitaire/App.cpp:362-369 | the piles gain exactly the hand when a stack is the destination, and exactly its front card when a foundation is |
| Game.FlipOriginTop | Solitaire/App.cpp:371-380 | only flags change: the top card of the origin stack, if it has one, is face-up, and every other card keeps its flag |
| Game.Commit | Solitaire/App.cpp:360-388 | the destination stack ends with the whole hand, or the destination foundation with its front card. The deck, the hand and `m_lastFoundation` are kept, no card is turned face-down, and the waste is kept when the card in hand is not in it |
| Game.Rollback | Solitaire/App.cpp:389-406 | a rollback is undone by the press that lifted the hand: splitting the origin stack at its old height, picking at the recorded index, or taking from the origin foundation gives back the board. Flags and deck are kept and the board stays well-formed |
| Game.Reset | Solitaire/App.cpp:408-412 | the cards after the reset, followed by the old hand, are the cards before it; flags and `m_lastFoundation` are kept; a board with the right pile counts is well-formed after it |
| Game.Release | Solitaire/App.cpp:325-413 | the corrected release leaves a well-formed board and does not touch the deck |
| Game.ReleaseAsWritten | Solitaire/App.cpp:325-413 | the release as written also leaves a well-formed board and does not touch the deck; it is the as-written half of the Findings row |
| Game.ReleaseResets | Solitaire/App.cpp:408-412 | after every release the hand is empty, `m_lastStack` is null, the waste flag is false and `m_lastWasteIndex` is -1, while `m_lastFoundation` keeps its value |
| Game.HandIsNotInWaste | Solitaire/App.cpp:382-387 | a waste card in hand is no longer in the waste, so the commit's `RemoveCard` removes nothing |
| Game.CommitKeepsCards | Solitaire/App.cpp:360-388 | a commit moves the whole hand to the stack, or a one-card hand to the foundation |
| Game.RollbackKeepsCards | Solitaire/App.cpp:389-406 | a rollback moves the hand back into its origin pile |
| Game.ReleaseConserves | Solitaire/App.cpp:325-413 | the corrected pointer-up keeps the invariant and the multiset of all cards |
| Game.OriginTopIsHeld | Solitaire/App.cpp:372-379 | the card the commit turns face-up is one the board holds |
| Game.CommitTurnsUpOriginTop | Solitaire/App.cpp:371-380 | after a committed move out of a stack that still has cards, its top card is face-up |
| Game.PressThenRollbackRestores | Solitaire/App.cpp:389-406 | a drop that nothing accepts undoes the press exactly, except that a take from a foundation leaves `m_lastFoundation` set |
| Game.SplitThenRollbackRestores | Solitaire/App.cpp:391 | adding the split run back to its stack restores the board |
| Game.PickThenRollbackRestores | Solitaire/App.cpp:395 | inserting the picked card back at its index restores the board |
| Game.TakeThenRollbackRestores | Solitaire/App.cpp:400 | adding the taken card back to its foundation restores the board but for `m_lastFoundation` |
| Game.FoundationCommitMovesFront | Solitaire/App.cpp:366-369 | every commit to a foundation adds only the front card of the hand to it and leaves the stacks and the deck alone. The waste is left alone too, for a hand of several cards or when each card is in one place |
| Game.AsWrittenFoundationDropLosesRun | Solitaire/App.cpp:357-369 | as written, a run of two or more cards that only a foundation accepts loses every card after the front one, and these are then nowhere on the board |
| Coordinator.App.constructor | Solitaire/App.cpp:37-43 | the selection fields start at their initialisers' values: empty hand, null origins, waste flag false, index -1 |
| Coordinator.App.SetFaceUp | Solitaire/App.cpp:130 | `card->IsFaceUp(v)` changes that card's flag and no other. No card starts a flip animation, and a card whose sides showed its flag still does |
| Coordinator.App.SetWindow | Solitaire/App.cpp:98-161 | the object's state after the deal is exactly `Game.Deal` of the shuffled pack and the cards' flags before it; no flip animation starts and no card's sides stop showing its flag |
| Coordinator.App.DealTableau | Solitaire/App.cpp:106-124 | the deal loop leaves `cardsSoFar` at 28 and the stacks equal to the specified slices |
| Coordinator.App.TurnStacks | Solitaire/App.cpp:125-133 | the flag loop over all stacks yields the flags of `Game.DealFlags` |
| Coordinator.App.TurnStackFlags | Solitaire/App.cpp:127-132 | one stack's cards are turned face-down in order, then its last card face-up |
| Coordinator.App.AddStock | Solitaire/App.cpp:135-161 | the deck gets the rest of the pack, the waste is empty and there are four empty foundations |
| Coordinator.App.AddFoundations | Solitaire/App.cpp:154-161 | the foundation loop creates four empty foundations |
| Coordinator.App.OnPointerPressed | Solitaire/App.cpp:170-308 | the object's state after the press is exactly `Game.Press` of the state before, and a valid board stays valid |
| Coordinator.App.OnDeckClicked | Solitaire/App.cpp:186-203 | the deck and waste after the click are those of `Game.DeckClick` |
| Coordinator.App.DrawOrFlush | Solitaire/App.cpp:188-201 | the deck and the waste afterwards are the stock `Game.Click` gives: a draw onto the waste, or the flushed waste back into the deck |
| Coordinator.App.SelectFromStacks | Solitaire/App.cpp:205-236 | the loop over the stacks stops at the first splittable one and leaves the state of `Game.Press` for the play area |
| Coordinator.App.SelectFromWaste | Solitaire/App.cpp:239-248 | the pick leaves the state of `Game.Pick` |
| Coordinator.App.SelectFromFoundations | Solitaire/App.cpp:259-294 | the loop over the foundations stops at the first hit, takes only when `CanTake` allows it, and leaves the state of `Game.Press` for the foundations |
| Coordinator.App.TakeFromFoundation | Solitaire/App.cpp:271-280 | the state after taking from a foundation is `Game.Take`: the hand is its top card, and the foundation is the origin |
| Coordinator.App.OnPointerReleased | Solitaire/App.cpp:325-413 | the object's state after the release is exactly `Game.Release` (with the corrected destination) of the state before, which is a valid board; no flip animation starts |
| Coordinator.App.ChooseDrop | Solitaire/App.cpp:332-358 | the destination the two loops and the two tests choose is `Game.DropTargetAsWritten` |
| Coordinator.App.FindStack | Solitaire/App.cpp:332-341 | the loop stops at the first stack whose hit index is a card or the empty base |
| Coordinator.App.FindFoundation | Solitaire/App.cpp:343-355 | the loop stops at the first foundation hit |
| Coordinator.App.CommitSelection | Solitaire/App.cpp:360-388 | the commit leaves the state of `Game.Commit`: hand placed, old stack's top turned up, waste card removed |
| Coordinator.App.FlipLastStackTop | Solitaire/App.cpp:371-380 | the old stack's new top card, if any, is turned face-up: the state of `Game.FlipOriginTop` |
| Coordinator.App.ForgetWasteCard | Solitaire/App.cpp:382-386 | a card from the waste is removed from it with `RemoveCard`; otherwise the waste is unchanged |
| Coordinator.App.AddSelection | Solitaire/App.cpp:362-369 | a stack receives the whole hand, a foundation its front card |
| Coordinator.App.RollBackSelection | Solitaire/App.cpp:389-406 | the rollback leaves the state of `Game.Rollback`, testing the stack, waste and foundation origins in that order |
| Coordinator.App.ResetSelection | Solitaire/App.cpp:408-412 | the selection fields return to their reset values and `m_lastFoundation` is untouched |
| CompositionCards.RotationFor | Solitaire/CompositionCard.cpp:114 | the rotation target is 0 degrees for face-up and 180 for face-down |
| CompositionCards.CompositionCard.IsFaceUp | Solitaire/CompositionCard.cpp:109-117 | the flag becomes the argument. A change turns the card to the matching rotation. Asking for the current side changes nothing, so a second call is idempotent, and a card that showed its flag still does |
| CompositionCards.CompositionCard.AnimateIsFaceUp | Solitaire/CompositionCard.cpp:119-136 | the flag becomes the argument at once, and exactly one flip animation starts when it changes. Asking for the current side starts nothing |
| CompositionCards.CompositionCard.constructor | Solitaire/CompositionCard.cpp:67-91 | a new card's sides container is unrotated and no animation has started; its flag is the initial value given |
| CompositionCards.HitTest | Solitaire/CompositionCard.cpp:93-107 | a hit means the card has positive width and height |
| CompositionCards.HitTestEdges | Solitaire/CompositionCard.cpp:93-107 | the near corner belongs to a card of positive size, while the far edges never do |
| CompositionCards.RowHitIsUnique | Solitaire/CompositionCard.cpp:93-107 | because the test is half-open, cards laid out at a pitch of at least their width never both claim a point |

## Left out

- Window and compositor plumbing is not modelled, because it is I/O and UI. This covers `Run`, `Initialize`, `Load`, `Uninitialize`, `CreateView`, the visual tree, the selected layer and `wWinMain`.
- Screen geometry is not modelled, because it is float arithmetic on screen positions. This covers the zone rectangles, `m_offset`, the offsets of the selected visual, the foundation-point translation, `OnPointerMoved` and `OnSizeChanged`. A pointer event arrives with the zone and each pile's hit result already resolved.
- The bodies of `CardStack`, `Waste`, `Deck`, `Foundation` and `Pack` are not part of this model. Their rule predicates (`CanSplit`, `CanAdd`, `CanTake`) and hit tests are inputs to the handlers. The other operations get only the sequence-level contracts the coordinator relies on.
- The `ForceLayout` calls are not modelled, because they only lay out visuals.
- `Pack::Shuffle` is replaced by its result, which is a parameter of `SetWindow`, because it is randomness.
- The card visuals that the `CompositionCard` constructor builds (the root, the front and back shapes) and the keyframe animation are not modelled, because they are rendering calls. The animation's read-back of the current rotation plus 180 is among them. `AnimateIsFaceUp` records only that an animation was started.
- The float arithmetic of `CompositionCard::HitTest` is taken as exact arithmetic on reals. `CompositionCards.HitTest`, `HitTestEdges` and `RowHitIsUnique` therefore ignore rounding: a point within rounding distance of an edge may be judged differently by the program.
- The pile classes may change card flags themselves, for instance when `Waste::AddCards`, `Deck::AddCards` or `CardStack::Add` take cards. Their bodies are not part of this model, so the model changes only the flags that App.cpp sets itself. The flag clauses of `Game.Press`, `Game.PressKeepsShape`, `Game.Commit`, `Game.Rollback`, `Coordinator.App.OnPointerPressed` and `Coordinator.App.OnPointerReleased` hold for those flags only.
- `Waste::Pick` is taken to remove the card from the waste list. Under this reading the commit's `Waste::RemoveCard` finds nothing to remove (`Game.HandIsNotInWaste`), despite the source comment at App.cpp:382. The other reading is not modelled: `Pick` detaches only the card's visual and `RemoveCard` erases the list entry. Under it the waste would still hold the card between press and release, and each card would be in one place only after the release.
- Coordinator.App.OnPointerPressed: requires an empty hand, because the model has a single pointer whose presses and releases alternate. A press while a card is held (a second pointer) is not modelled.
- Coordinator.App.SetWindow: requires the state the constructor leaves, because `SetWindow` appends to `m_stacks` and `m_foundations` and runs once per window.
- Coordinator.App.OnPointerReleased: applies the correction of `Game.DropTarget` to the destination that `ChooseDrop` finds as written, so it runs the corrected release. The code as written is modelled by `Game.ReleaseAsWritten` (see Findings).
- `m_selectedVisual` is represented by whether the hand is non-empty. The source sets the two together and clears them together.

## Findings

| source | as written | input that shows it | evidently intended | confidence | as-written member | corrected member |
|---|---|---|---|---|---|---|
| Solitaire/App.cpp:357-369 | a foundation is chosen when it accepts the front card of the hand, and then receives only `m_selectedCards.front()` before the hand is cleared | a run of two or more cards split from a stack, released where no stack accepts it but over a foundation whose `CanAdd` accepts its front card: every card after the front one is in no pile afterwards | a foundation takes a selection only when it is a single card, and a longer run goes back to its stack | not executed; depends on `Foundation::CanAdd`, whose body is not part of this model | Game.AsWrittenFoundationDropLosesRun | Game.ReleaseConserves |
