/** The App object of Solitaire/App.cpp: the fields the coordinator keeps and the
    three handlers that update them in place. SetWindow deals, OnPointerPressed
    selects (or clicks the deck) and OnPointerReleased commits or rolls back. Each
    handler is proved to leave the coordinator in exactly the state the functions of
    module Game compute; what those functions keep (every card in exactly one place,
    the deal's layout, the deck's cycle) is proved there.

    The piles are sequences of card ids held in fields of the App; the face-up flags
    stay in the card objects, which the App reaches through the arena `cards`. */
module Coordinator {
  import opened Piles
  import opened Game
  import opened CompositionCards

  class App {
    /** The card objects of the pack; a card id is an index into this arena. */
    const cards: seq<CompositionCard>
    /** How many cards one Deck::Draw hands out. */
    const drawBatch: nat

    var stacks: seq<seq<CardId>>
    var deck: seq<CardId>
    var waste: seq<CardId>
    var foundations: seq<seq<CardId>>
    var selectedCards: seq<CardId>
    var lastStack: Option<nat>
    var isSelectedWasteCard: bool
    var lastWasteIndex: int
    var lastFoundation: Option<nat>

    /** No card object appears twice in the arena. */
    predicate Distinct()
    {
      forall i, j | 0 <= i < j < |cards| :: cards[i] != cards[j]
    }

    /** The m_isFaceUp flag of every card of the arena. */
    function Flags(): (f: map<CardId, bool>)
      reads cards
      ensures forall id: CardId :: id in f <==> id < |cards|
    {
      map id: CardId | id < |cards| :: cards[id].isFaceUp
    }

    /** The coordinator's state as a board. A selection in hand is what the source
        marks by a non-null m_selectedVisual. */
    function Model(): Board
      reads this, cards
    {
      Board(stacks, deck, waste, foundations, selectedCards, lastStack, isSelectedWasteCard,
            lastWasteIndex, lastFoundation, Flags())
    }

    /** The state before SetWindow: no piles yet and the member initialisers' values
        for the selection fields. */
    predicate Unset()
      reads this
    {
      && stacks == [] && foundations == [] && selectedCards == []
      && lastStack.None? && !isSelectedWasteCard && lastWasteIndex == -1 && lastFoundation.None?
    }

    constructor (cards: seq<CompositionCard>, drawBatch: nat)
      requires forall i, j | 0 <= i < j < |cards| :: cards[i] != cards[j]
      ensures this.cards == cards && this.drawBatch == drawBatch
      ensures Distinct() && Unset() && deck == [] && waste == []
    {
      this.cards := cards;
      this.drawBatch := drawBatch;
      stacks, deck, waste, foundations := [], [], [], [];
      selectedCards := [];
      lastStack, isSelectedWasteCard, lastWasteIndex, lastFoundation := None, false, -1, None;
    }

    /** card->IsFaceUp(v) on the card with id `id`: its flag and no other changes. */
    method SetFaceUp(id: CardId, v: bool)
      requires Distinct() && id < |cards|
      modifies cards[id]
      ensures Flags() == old(Flags())[id := v]
      ensures VisualsKept()
    {
      cards[id].IsFaceUp(v);
      forall j | 0 <= j < |cards| && j != id
        ensures cards[j].isFaceUp == old(cards[j].isFaceUp) && cards[j].rotation == old(cards[j].rotation)
      {
        assert cards[j] != cards[id];
      }
    }

    /** Since the method began, no card has started a flip animation, and a card
        whose sides showed the side its flag names still does. */
    twostate predicate VisualsKept()
      reads cards
    {
      forall id | 0 <= id < |cards| ::
        old(cards[id].flipAnimations) == cards[id].flipAnimations
        && (old(cards[id].ShowsFlag()) ==> cards[id].ShowsFlag())
    }

    /** SetWindow's deal from the shuffled pack (the shuffle is the parameter): seven
        stacks of 1..7 cards, each turned face-down but for its last card, the rest of
        the pack to the deck, an empty waste and four empty foundations. */
    method SetWindow(shuffled: seq<CardId>)
      requires Distinct() && Unset()
      requires Dealt(NumStacks) <= |shuffled|
      requires InArena(shuffled)
      requires forall id :: multiset(shuffled)[id] <= 1
      modifies this`stacks, this`deck, this`waste, this`foundations, cards
      ensures Model() == Deal(shuffled, old(Flags()))
      ensures VisualsKept()
    {
      ghost var f0 := Flags();
      var cardsSoFar := DealTableau(shuffled);
      TurnStacks();
      ghost var flags := Flags();
      assert VisualsKept();
      AddStock(shuffled[cardsSoFar..]);
      assert Flags() == flags;
      ghost var b := Deal(shuffled, f0);
      assert stacks == b.stacks && Flags() == b.faceUp && deck == b.deck;
      assert b == Board(stacks, deck, [], [[], [], [], []], [], None, false, -1, None, Flags());
    }

    /** The rest of the pack to the deck, an empty waste and SetWindow's foundation
        loop. */
    method AddStock(rest: seq<CardId>)
      requires foundations == []
      modifies this`deck, this`waste, this`foundations
      ensures deck == rest && waste == [] && foundations == [[], [], [], []]
    {
      deck := rest;
      waste := [];
      AddFoundations();
    }

    /** The deal's first loop: stack i takes the next i + 1 cards of the pack. */
    method DealTableau(shuffled: seq<CardId>) returns (cardsSoFar: nat)
      requires stacks == [] && Dealt(NumStacks) <= |shuffled| && InArena(shuffled)
      modifies this`stacks
      ensures cardsSoFar == Dealt(NumStacks) && stacks == DealStacks(shuffled, NumStacks)
      ensures forall k | 0 <= k < |stacks| :: InArena(stacks[k])
    {
      cardsSoFar := 0;
      var i := 0;
      while i < NumStacks
        invariant 0 <= i <= NumStacks
        invariant cardsSoFar == Dealt(i) && stacks == DealStacks(shuffled, i)
        invariant forall k | 0 <= k < i :: InArena(stacks[k])
      {
        DealtGrows(i + 1, NumStacks);
        var numberOfCards := i + 1;
        var tempStack := shuffled[cardsSoFar..cardsSoFar + numberOfCards];
        assert InArena(tempStack);
        cardsSoFar := cardsSoFar + numberOfCards;
        stacks := stacks + [tempStack];
        assert stacks[i] == tempStack;
        i := i + 1;
      }
    }

    /** The deal's second loop, over every stack in order. */
    method TurnStacks()
      requires Distinct()
      requires forall k | 0 <= k < |stacks| :: stacks[k] != [] && InArena(stacks[k])
      modifies cards
      ensures Flags() == DealFlags(old(Flags()), stacks)
      ensures VisualsKept()
    {
      ghost var f0 := Flags();
      var k := 0;
      while k < |stacks|
        invariant 0 <= k <= |stacks|
        invariant Flags() == DealFlags(f0, stacks[..k])
        invariant VisualsKept()
      {
        TurnStackFlags(stacks[k]);
        assert stacks[..k + 1][..k] == stacks[..k];
        k := k + 1;
      }
      assert stacks[..k] == stacks;
    }

    /** SetWindow's foundation loop: four empty foundations. */
    method AddFoundations()
      requires foundations == []
      modifies this`foundations
      ensures foundations == [[], [], [], []]
    {
      var i := 0;
      while i < NumFoundations
        invariant 0 <= i <= NumFoundations && |foundations| == i
        invariant forall j | 0 <= j < i :: foundations[j] == []
      {
        foundations := foundations + [[]];
        i := i + 1;
      }
    }

    /** Every card id of `s` names a card of the arena. */
    predicate InArena(s: seq<CardId>)
    {
      forall p | 0 <= p < |s| :: s[p] < |cards|
    }

    /** The deal's second loop on one stack: every card face-down, then the last one
        face-up. */
    method TurnStackFlags(s: seq<CardId>)
      requires Distinct() && s != [] && InArena(s)
      modifies cards
      ensures Flags() == TurnStack(old(Flags()), s)
      ensures VisualsKept()
    {
      ghost var g := Flags();
      var p := 0;
      while p < |s|
        invariant 0 <= p <= |s|
        invariant Flags() == SetAll(g, s[..p], false)
        invariant VisualsKept()
      {
        SetFaceUp(s[p], false);
        assert s[..p + 1][..p] == s[..p];
        p := p + 1;
      }
      assert s[..p] == s;
      SetFaceUp(s[|s| - 1], true);
    }

    /** OnPointerPressed, with the zone that contains the point already found; the
        press starts with nothing in hand (a single pointer). */
    method OnPointerPressed(p: PointerPress)
      requires Distinct() && selectedCards == [] && PressAgrees(Model(), p)
      modifies this
      ensures Model() == Press(old(Model()), p, drawBatch)
      ensures Game.Valid(old(Model())) ==> Game.Valid(Model())
    {
      ghost var b := Model();
      match p {
        case DeckZone(deckHit) =>
          if deckHit {
            OnDeckClicked();
          }
        case PlayAreaZone(hits, canSplit) =>
          SelectFromStacks(hits, canSplit);
        case WasteZone(hit) =>
          if hit >= 0 {
            SelectFromWaste(hit);
          }
        case FoundationsZone(hits, canTake) =>
          SelectFromFoundations(hits, canTake);
        case NoZone =>
      }
      if Game.Valid(b) {
        PressConserves(b, p, drawBatch);
      }
    }

    /** A click on the deck: Deck::Draw, and the drawn cards onto the waste with
        Waste::AddCards; when nothing could be drawn, Waste::Flush into Deck::AddCards. */
    method OnDeckClicked()
      modifies this`deck, this`waste
      ensures Model() == DeckClick(old(Model()), drawBatch)
    {
      DrawOrFlush();
    }

    /** The piles' side of a deck click: the deck and the waste become the stock that
        Game.Click gives. */
    method DrawOrFlush()
      modifies this`deck, this`waste
      ensures Stock(deck, waste) == Click(Stock(old(deck), old(waste)), drawBatch)
    {
      ghost var s := Click(Stock(deck, waste), drawBatch);
      var d := Draw(deck, drawBatch);
      deck := d.rest;
      if d.drawn != [] {
        waste := waste + d.drawn;
      } else {
        var wasteCards := Reverse(waste);
        waste := [];
        deck := deck + wasteCards;
      }
      assert deck == s.deck && waste == s.waste;
    }

    /** The play-area case: the stacks in order, and the first whose hit index it can
        split from gives the selection. */
    method SelectFromStacks(hits: seq<int>, canSplit: seq<bool>)
      requires selectedCards == [] && PressAgrees(Model(), PlayAreaZone(hits, canSplit))
      modifies this`stacks, this`selectedCards, this`lastStack
      ensures Model() == Press(old(Model()), PlayAreaZone(hits, canSplit), drawBatch)
    {
      var k := 0;
      while k < |stacks|
        invariant 0 <= k <= |stacks| && forall j | 0 <= j < k :: !canSplit[j]
        invariant Model() == old(Model())
      {
        if canSplit[k] {
          var s, index := stacks[k], hits[k];
          lastStack := Some(k);
          selectedCards := s[index..];
          stacks := stacks[k := s[..index]];
          FirstTrueIs(canSplit, k);
          return;
        }
        k := k + 1;
      }
      FirstTrueIs(canSplit, k);
    }

    /** The waste case for a hit on card `index`: Waste::Pick. */
    method SelectFromWaste(index: nat)
      requires selectedCards == [] && index < |waste|
      modifies this`waste, this`selectedCards, this`lastStack, this`isSelectedWasteCard, this`lastWasteIndex
      ensures Model() == Game.Pick(old(Model()), index)
    {
      var card := waste[index];
      waste := WithoutIndex(waste, index);
      selectedCards := [card];
      lastStack := None;
      isSelectedWasteCard := true;
      lastWasteIndex := index;
    }

    /** The foundations case: the first foundation hit decides, and gives its top card
        with Foundation::Take when it allows that. */
    method SelectFromFoundations(hits: seq<bool>, canTake: seq<bool>)
      requires selectedCards == [] && PressAgrees(Model(), FoundationsZone(hits, canTake))
      modifies this`foundations, this`selectedCards, this`lastStack, this`isSelectedWasteCard,
        this`lastFoundation
      ensures Model() == Press(old(Model()), FoundationsZone(hits, canTake), drawBatch)
    {
      var f := 0;
      while f < |foundations|
        invariant 0 <= f <= |foundations| && forall j | 0 <= j < f :: !hits[j]
        invariant Model() == old(Model())
      {
        if hits[f] {
          if canTake[f] {
            TakeFromFoundation(f);
          }
          FirstTrueIs(hits, f);
          return;
        }
        f := f + 1;
      }
      FirstTrueIs(hits, f);
    }

    /** Foundation::Take on foundation `f`: its top card becomes the hand, and the
        foundation is remembered as the origin. */
    method TakeFromFoundation(f: nat)
      requires f < |foundations| && foundations[f] != []
      modifies this`foundations, this`selectedCards, this`lastStack, this`isSelectedWasteCard,
        this`lastFoundation
      ensures Model() == Take(old(Model()), f)
    {
      var pile := foundations[f];
      var card := pile[|pile| - 1];
      foundations := foundations[f := pile[..|pile| - 1]];
      selectedCards := [card];
      lastStack := None;
      isSelectedWasteCard := false;
      lastFoundation := Some(f);
    }

    /** OnPointerReleased: with a selection in hand, find the first stack hit and the
        first foundation hit, commit to the stack if it accepts the front card, else
        to the foundation if it accepts it, else roll back; then reset the selection
        fields in every case. A drop on a foundation is kept only for a hand of one
        card and rolled back otherwise (the correction of Game.DropTarget). */
    method OnPointerReleased(r: PointerRelease)
      requires Distinct() && Game.Valid(Model()) && ReleaseAgrees(Model(), r)
      modifies this, cards
      ensures Model() == Release(old(Model()), r)
      ensures Game.Valid(Model())
      ensures VisualsKept()
    {
      ghost var b := Model();
      ReleaseConserves(b, r);
      if selectedCards != [] {
        var d := ChooseDrop(r);
        // The correction of DropTarget: only a single card goes to a foundation.
        if d.ToFoundation? && |selectedCards| != 1 {
          d := BackToOrigin;
        }
        assert d == DropTarget(b, r);
        if !d.BackToOrigin? {
          CommitSelection(d);
        } else {
          RollBackSelection();
        }
      }
      ResetSelection();
    }

    /** Where the hand goes as the two loops and the two tests choose it: the first
        stack hit if it accepts the front card, else the first foundation hit if it
        accepts the front card, else back to its origin. */
    method ChooseDrop(r: PointerRelease) returns (d: Drop)
      requires ReleaseAgrees(Model(), r) && selectedCards != []
      ensures d == DropTargetAsWritten(Model(), r)
    {
      var k := FindStack(r.stackHits);
      var f := FindFoundation(r.foundationHits);
      var shouldBeInStack := k < |stacks| && r.stackCanAdd[k];
      var shouldBeInFoundation := f < |foundations| && r.foundationCanAdd[f];
      if shouldBeInStack {
        d := ToStack(k);
      } else if shouldBeInFoundation {
        d := ToFoundation(f);
      } else {
        d := BackToOrigin;
      }
    }

    /** The release's first loop: the first stack whose hit index is a card or its
        empty base, or |hits| for none. */
    method FindStack(hits: seq<int>) returns (k: nat)
      ensures k == FirstTrue(StackHitFlags(hits))
      ensures k < |hits| ==> IsStackHit(hits[k])
    {
      k := 0;
      while k < |hits|
        invariant k <= |hits| && forall j | 0 <= j < k :: !IsStackHit(hits[j])
      {
        var index := hits[k];
        if index >= 0 || index == -2 {
          break;
        }
        k := k + 1;
      }
      FirstTrueIs(StackHitFlags(hits), k);
    }

    /** The release's second loop: the first foundation hit, or |hits| for none. */
    method FindFoundation(hits: seq<bool>) returns (f: nat)
      ensures f == FirstTrue(hits)
    {
      f := 0;
      while f < |hits|
        invariant f <= |hits| && forall j | 0 <= j < f :: !hits[j]
      {
        if hits[f] {
          break;
        }
        f := f + 1;
      }
      FirstTrueIs(hits, f);
    }

    /** A committed move: CardStack::Add of the whole hand or Foundation::Add of its
        front card, the old stack's new top card turned face-up, and a waste card
        removed from the waste with Waste::RemoveCard. */
    method CommitSelection(d: Drop)
      requires Distinct() && Game.Valid(Model()) && selectedCards != []
      requires DropFits(Model(), d) && !d.BackToOrigin?
      modifies this`stacks, this`foundations, this`waste, cards
      ensures Model() == Commit(old(Model()), d)
      ensures VisualsKept()
    {
      ghost var b := Model();
      AddSelection(d);
      if lastStack.Some? && stacks[lastStack.value] != [] {
        OriginTopIsHeld(b, d);
      }
      FlipLastStackTop();
      assert Model() == FlipOriginTop(Place(b, d));
      ForgetWasteCard();
    }

    /** The commit's Waste::RemoveCard of a card that came from the waste. */
    method ForgetWasteCard()
      requires selectedCards != []
      modifies this`waste
      ensures waste == if isSelectedWasteCard then RemoveCard(old(waste), selectedCards[0]) else old(waste)
    {
      if isSelectedWasteCard {
        waste := RemoveCard(waste, selectedCards[0]);
      }
    }

    /** The commit's flip of the old stack's new top card, when it has one. */
    method FlipLastStackTop()
      requires Distinct() && (lastStack.Some? ==> lastStack.value < |stacks|)
      requires lastStack.Some? && stacks[lastStack.value] != [] ==>
        stacks[lastStack.value][|stacks[lastStack.value]| - 1] < |cards|
      modifies cards
      ensures Model() == FlipOriginTop(old(Model()))
      ensures VisualsKept()
    {
      if lastStack.Some? {
        var cards' := stacks[lastStack.value];
        if cards' != [] {
          SetFaceUp(cards'[|cards'| - 1], true);
        }
      }
    }

    /** CardStack::Add of the whole hand, or Foundation::Add of its front card. */
    method AddSelection(d: Drop)
      requires selectedCards != [] && DropFits(Model(), d) && !d.BackToOrigin?
      modifies this`stacks, this`foundations
      ensures Model() == Place(old(Model()), d)
    {
      match d {
        case ToStack(k) =>
          stacks := stacks[k := stacks[k] + selectedCards];
        case ToFoundation(f) =>
          foundations := foundations[f := foundations[f] + [selectedCards[0]]];
      }
    }

    /** An illegal drop: the hand goes back to the stack it was split from, to its
        index in the waste, or to the foundation it was taken from, in that order of
        tests; a selection with none of these origins cannot occur. */
    method RollBackSelection()
      requires WellFormed(Model()) && selectedCards != []
      modifies this`stacks, this`foundations, this`waste
      ensures Model() == Rollback(old(Model()))
      ensures VisualsKept()
    {
      OriginIsKnown(Model());
      if lastStack.Some? {
        var k := lastStack.value;
        stacks := stacks[k := stacks[k] + selectedCards];
      } else if isSelectedWasteCard {
        waste := InsertCard(waste, selectedCards[0], lastWasteIndex);
      } else if lastFoundation.Some? {
        var f := lastFoundation.value;
        foundations := foundations[f := foundations[f] + [selectedCards[0]]];
      } else {
        assert false;
      }
    }

    /** The end of every release: nothing in hand, no origin stack, no waste card;
        m_lastFoundation is left as it is. */
    method ResetSelection()
      modifies this`selectedCards, this`lastStack, this`isSelectedWasteCard, this`lastWasteIndex
      ensures Model() == Reset(old(Model()))
      ensures VisualsKept()
    {
      selectedCards := [];
      lastStack := None;
      isSelectedWasteCard := false;
      lastWasteIndex := -1;
    }
  }
}
