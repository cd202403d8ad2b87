/** The game coordinator of Solitaire/App.cpp, as a function of the board: the deal
    of SetWindow, a click on the deck, and the drag-and-drop protocol of
    OnPointerPressed and OnPointerReleased. The class App (module Coordinator) runs
    the same steps imperatively and is proved to produce exactly these boards; the
    properties of the game are proved here, about these functions.

    Geometry is not modelled: a pointer event arrives with the hit tests already
    resolved, together with the answers the piles' rule predicates (CanSplit, CanAdd,
    CanTake) give at that moment. */
module Game {
  import opened Piles

  const NumStacks: nat := 7
  const NumFoundations: nat := 4

  datatype Option<T> = None | Some(value: T)

  /** The coordinator's state: the piles it owns and the fields that remember a
      selection in progress. */
  datatype Board = Board(
    stacks: seq<seq<CardId>>,       // m_stacks, the seven tableau stacks
    deck: seq<CardId>,              // the stock of m_deck; the next card to draw is last
    waste: seq<CardId>,             // m_waste
    foundations: seq<seq<CardId>>,  // m_foundations
    selected: seq<CardId>,          // m_selectedCards, the cards being dragged
    lastStack: Option<nat>,         // m_lastStack, as an index into stacks (None for nullptr)
    isSelectedWasteCard: bool,      // m_isSelectedWasteCard
    lastWasteIndex: int,            // m_lastWasteIndex
    lastFoundation: Option<nat>,    // m_lastFoundation, as an index into foundations
    faceUp: map<CardId, bool>)      // the m_isFaceUp flag of each card

  /** Every card the coordinator holds: all piles and the selection in hand. */
  function Everything(b: Board): seq<CardId>
  {
    Flatten(b.stacks) + b.deck + b.waste + Flatten(b.foundations) + b.selected
  }

  /** No card is in two places at once (and the selection counts as a place). */
  ghost predicate EachCardOnce(b: Board)
  {
    forall id :: multiset(Everything(b))[id] <= 1
  }

  /** The coordinator's invariant between two events. */
  ghost predicate Valid(b: Board)
  {
    WellFormed(b) && FlagsCover(b) && EachCardOnce(b)
  }

  /** Every card held has a face-up flag. */
  ghost predicate FlagsCover(b: Board)
  {
    forall id | id in multiset(Everything(b)) :: id in b.faceUp
  }

  /** The pile counts and the selection fields. */
  predicate WellFormed(b: Board)
  {
    && |b.stacks| == NumStacks
    && |b.foundations| == NumFoundations
    && (b.lastStack.Some? ==> b.lastStack.value < NumStacks && !b.isSelectedWasteCard)
    && (b.lastFoundation.Some? ==> b.lastFoundation.value < NumFoundations)
    && (b.isSelectedWasteCard ==> 0 <= b.lastWasteIndex <= |b.waste|)
    // with nothing in hand, the selection fields are at their reset values
    && (b.selected == [] ==> b.lastStack.None? && !b.isSelectedWasteCard && b.lastWasteIndex == -1)
    // a selection that did not come from a stack is one card from the waste or a foundation
    && (b.selected != [] && b.lastStack.None? ==>
          |b.selected| == 1 && (b.isSelectedWasteCard || b.lastFoundation.Some?))
  }

  /** How many copies of `id` the board holds, place by place. */
  ghost function Held(b: Board, id: CardId): nat
  {
    multiset(Flatten(b.stacks))[id] + multiset(b.deck)[id] + multiset(b.waste)[id]
    + multiset(Flatten(b.foundations))[id] + multiset(b.selected)[id]
  }

  /** Two boards that hold every card equally often, place by place summed, hold the
      same cards. */
  lemma SameCards(b: Board, b': Board)
    requires forall id :: Held(b', id) == Held(b, id)
    ensures multiset(Everything(b')) == multiset(Everything(b))
  {
    forall id ensures multiset(Everything(b'))[id] == multiset(Everything(b))[id] {
      HeldIsCount(b, id);
      HeldIsCount(b', id);
    }
    MultisetsAgree(multiset(Everything(b')), multiset(Everything(b)));
  }

  /** A board in the invariant stays in it when it keeps its cards, its flags and its
      shape. */
  lemma StaysValid(b: Board, b': Board)
    requires Valid(b) && WellFormed(b') && b.faceUp.Keys <= b'.faceUp.Keys
    requires multiset(Everything(b')) == multiset(Everything(b))
    ensures Valid(b')
  {
  }

  /** Count-wise multiset equality. */
  lemma MultisetsAgree(x: multiset<CardId>, y: multiset<CardId>)
    requires forall id :: x[id] == y[id]
    ensures x == y
  {
  }

  /** Where a selection in hand came from, read in the order OnPointerReleased tests
      the fields when it rolls a selection back. */
  datatype Origin = FromStack(stack: nat) | FromWaste(index: int) | FromFoundation(foundation: nat) | NoOrigin

  function OriginOf(b: Board): Origin
  {
    if b.lastStack.Some? then FromStack(b.lastStack.value)
    else if b.isSelectedWasteCard then FromWaste(b.lastWasteIndex)
    else if b.lastFoundation.Some? then FromFoundation(b.lastFoundation.value)
    else NoOrigin
  }

  /** The final `WINRT_ASSERT(false)` of the rollback chain cannot be reached, even
      though m_lastFoundation is never cleared: stack and waste origins are checked
      first and a foundation origin is the only one left when they are unset. */
  lemma OriginIsKnown(b: Board)
    requires WellFormed(b) && b.selected != []
    ensures OriginOf(b) != NoOrigin
    ensures OriginOf(b).FromWaste? ==> |b.selected| == 1 && 0 <= b.lastWasteIndex <= |b.waste|
    ensures OriginOf(b).FromFoundation? ==> |b.selected| == 1 && b.lastFoundation.value < NumFoundations
  {
  }

  // ---------------------------------------------------------------- the deal

  /** How many cards the first `i` stacks of the deal take: 1 + 2 + ... + i. */
  function Dealt(i: nat): (n: nat)
    ensures i <= n
  {
    if i == 0 then 0 else Dealt(i - 1) + i
  }

  /** The first `i` stacks of the deal: stack j takes the next j + 1 cards. */
  function DealStacks(shuffled: seq<CardId>, i: nat): (ss: seq<seq<CardId>>)
    requires Dealt(i) <= |shuffled|
    ensures |ss| == i
    ensures forall k | 0 <= k < i :: |ss[k]| == k + 1
  {
    if i == 0 then [] else DealStacks(shuffled, i - 1) + [shuffled[Dealt(i - 1)..Dealt(i)]]
  }

  /** The flags after `card->IsFaceUp(v)` on every card of `s`, in order. */
  function SetAll(f: map<CardId, bool>, s: seq<CardId>, v: bool): map<CardId, bool>
  {
    if s == [] then f else SetAll(f, s[..|s| - 1], v)[s[|s| - 1] := v]
  }

  /** One stack's flags at the deal: all face-down, then the last card face-up. */
  function TurnStack(f: map<CardId, bool>, s: seq<CardId>): map<CardId, bool>
    requires s != []
  {
    SetAll(f, s, false)[s[|s| - 1] := true]
  }

  /** The flags after the deal's second loop has turned every stack of `ss`. */
  function DealFlags(f: map<CardId, bool>, ss: seq<seq<CardId>>): map<CardId, bool>
    requires forall k | 0 <= k < |ss| :: ss[k] != []
  {
    if ss == [] then f else TurnStack(DealFlags(f, ss[..|ss| - 1]), ss[|ss| - 1])
  }

  /** SetWindow's deal: seven stacks of 1..7 cards from the front of the shuffled
      pack, the rest to the deck; no waste, four empty foundations, nothing in hand.
      `f` holds the cards' flags before the deal. */
  function Deal(shuffled: seq<CardId>, f: map<CardId, bool>): (b: Board)
    requires Dealt(NumStacks) <= |shuffled|
    ensures WellFormed(b) && b.selected == [] && b.waste == [] && |b.deck| + 28 == |shuffled|
    ensures forall g | 0 <= g < |b.foundations| :: b.foundations[g] == []
  {
    var stacks := DealStacks(shuffled, NumStacks);
    Board(stacks, shuffled[Dealt(NumStacks)..], [], [[], [], [], []], [], None, false, -1, None,
          DealFlags(f, stacks))
  }

  lemma {:induction false} DealtGrows(k: nat, i: nat)
    requires k <= i
    ensures Dealt(k) <= Dealt(i)
    decreases i
  {
    if k < i {
      DealtGrows(k, i - 1);
    }
  }

  /** Stack k of the deal is the slice of the pack after the first k stacks. */
  lemma {:induction false} DealStackAt(shuffled: seq<CardId>, i: nat, k: nat)
    requires Dealt(i) <= |shuffled| && k < i
    ensures Dealt(k + 1) <= Dealt(i)
    ensures DealStacks(shuffled, i)[k] == shuffled[Dealt(k)..Dealt(k + 1)]
    decreases i
  {
    DealtGrows(k + 1, i);
    if k < i - 1 {
      DealStackAt(shuffled, i - 1, k);
    }
  }

  /** The stacks of the deal, one after the other, are the front of the pack. */
  lemma {:induction false} DealStacksFlatten(shuffled: seq<CardId>, i: nat)
    requires Dealt(i) <= |shuffled|
    ensures Flatten(DealStacks(shuffled, i)) == shuffled[..Dealt(i)]
  {
    if i > 0 {
      var ss := DealStacks(shuffled, i - 1);
      DealStacksFlatten(shuffled, i - 1);
      assert DealStacks(shuffled, i) == ss + [shuffled[Dealt(i - 1)..Dealt(i)]];
      FlattenAppend(ss, shuffled[Dealt(i - 1)..Dealt(i)]);
      assert shuffled[..Dealt(i)] == shuffled[..Dealt(i - 1)] + shuffled[Dealt(i - 1)..Dealt(i)];
    }
  }

  /** Dealing gives stack k exactly k + 1 cards, taken in order and without gaps from
      the shuffled pack: 28 cards for the seven stacks, and the deck gets all the
      remaining cards in their shuffled order. */
  lemma DealShape(shuffled: seq<CardId>, f: map<CardId, bool>)
    requires Dealt(NumStacks) <= |shuffled|
    ensures Dealt(NumStacks) == 28
    ensures var b := Deal(shuffled, f);
      && |b.stacks| == NumStacks
      && (forall k | 0 <= k < NumStacks :: |b.stacks[k]| == k + 1 && b.stacks[k] == shuffled[Dealt(k)..Dealt(k + 1)])
      && Flatten(b.stacks) + b.deck == shuffled
  {
    forall k | 0 <= k < NumStacks
      ensures DealStacks(shuffled, NumStacks)[k] == shuffled[Dealt(k)..Dealt(k + 1)]
    {
      DealStackAt(shuffled, NumStacks, k);
    }
    DealStacksFlatten(shuffled, NumStacks);
    assert shuffled == shuffled[..28] + shuffled[28..];
  }

  lemma {:induction false} FlattenEmpties(ss: seq<seq<CardId>>)
    requires forall k | 0 <= k < |ss| :: ss[k] == []
    ensures Flatten(ss) == []
  {
    if ss != [] {
      FlattenEmpties(ss[..|ss| - 1]);
    }
  }

  /** Setting every card of `s` to `v` gives each of them a flag equal to `v` and
      leaves every other flag as it was. */
  lemma {:induction false} SetAllMeaning(f: map<CardId, bool>, s: seq<CardId>, v: bool)
    ensures forall id :: id in SetAll(f, s, v) <==> id in f || id in s
    ensures forall id | id in s :: SetAll(f, s, v)[id] == v
    ensures forall id | id in f && id !in s :: SetAll(f, s, v)[id] == f[id]
  {
    if s != [] {
      SetAllMeaning(f, s[..|s| - 1], v);
      assert s == s[..|s| - 1] + [s[|s| - 1]];
    }
  }

  /** After a stack is turned, exactly its last card is face-up (its cards being
      distinct), and no other card's flag has changed. */
  lemma TurnStackMeaning(f: map<CardId, bool>, s: seq<CardId>)
    requires s != []
    requires forall id :: multiset(s)[id] <= 1
    ensures forall id :: id in TurnStack(f, s) <==> id in f || id in s
    ensures forall p | 0 <= p < |s| :: s[p] in TurnStack(f, s) && TurnStack(f, s)[s[p]] == (p == |s| - 1)
    ensures forall id | id in f && id !in s :: TurnStack(f, s)[id] == f[id]
  {
    SetAllMeaning(f, s, false);
    var init := s[..|s| - 1];
    assert s == init + [s[|s| - 1]];
    assert multiset(s)[s[|s| - 1]] == multiset(init)[s[|s| - 1]] + 1;
    forall p | 0 <= p < |s| - 1
      ensures s[p] != s[|s| - 1]
    {
      assert init[p] == s[p];
    }
  }

  /** The two halves of a distinct list of cards have no card in common. */
  lemma DistinctSplit(a: seq<CardId>, c: seq<CardId>)
    requires forall id :: multiset(a + c)[id] <= 1
    ensures forall id :: multiset(a)[id] <= 1
    ensures forall id :: multiset(c)[id] <= 1
    ensures forall id | id in c :: id !in a
  {
    forall id ensures multiset(a)[id] + multiset(c)[id] <= 1 {
      assert multiset(a + c)[id] == multiset(a)[id] + multiset(c)[id];
    }
    forall id | id in c ensures id !in a {
      assert multiset(c)[id] >= 1;
    }
  }

  /** The deal gives a flag to every card it turns and keeps every other flag. */
  lemma {:induction false} DealFlagsElsewhere(f: map<CardId, bool>, ss: seq<seq<CardId>>)
    requires forall k | 0 <= k < |ss| :: ss[k] != []
    ensures forall id :: id in DealFlags(f, ss) <==> id in f || id in Flatten(ss)
    ensures forall id | id in f && id !in Flatten(ss) :: DealFlags(f, ss)[id] == f[id]
  {
    if ss != [] {
      var n := |ss| - 1;
      assert Flatten(ss) == Flatten(ss[..n]) + ss[n];
      DealFlagsElsewhere(f, ss[..n]);
      SetAllMeaning(DealFlags(f, ss[..n]), ss[n], false);
    }
  }

  lemma {:induction false} DealFlagsStacks(f: map<CardId, bool>, ss: seq<seq<CardId>>)
    requires forall k | 0 <= k < |ss| :: ss[k] != []
    requires forall id :: multiset(Flatten(ss))[id] <= 1
    ensures forall k, p | 0 <= k < |ss| && 0 <= p < |ss[k]| ::
      ss[k][p] in DealFlags(f, ss) && DealFlags(f, ss)[ss[k][p]] == (p == |ss[k]| - 1)
  {
    if ss != [] {
      var n := |ss| - 1;
      var init, last := ss[..n], ss[n];
      assert Flatten(ss) == Flatten(init) + last;
      DistinctSplit(Flatten(init), last);
      DealFlagsStacks(f, init);
      var g := DealFlags(f, init);
      assert DealFlags(f, ss) == TurnStack(g, last);
      TurnStackMeaning(g, last);
      forall k, p | 0 <= k < n && 0 <= p < |ss[k]|
        ensures ss[k][p] in DealFlags(f, ss) && DealFlags(f, ss)[ss[k][p]] == (p == |ss[k]| - 1)
      {
        assert init[k] == ss[k];
        FlattenContains(init, k, p);
        assert ss[k][p] in Flatten(init);
      }
    }
  }

  /** After the deal every stack's cards are face-down except its last card, which
      is face-up; the deck's cards keep the flags they had. */
  lemma DealFaceUp(shuffled: seq<CardId>, f: map<CardId, bool>)
    requires Dealt(NumStacks) <= |shuffled|
    requires forall id :: multiset(shuffled)[id] <= 1
    ensures var b := Deal(shuffled, f);
      && (forall k, p | 0 <= k < NumStacks && 0 <= p < |b.stacks[k]| ::
            b.stacks[k][p] in b.faceUp && b.faceUp[b.stacks[k][p]] == (p == |b.stacks[k]| - 1))
      && (forall q | Dealt(NumStacks) <= q < |shuffled| && shuffled[q] in f ::
            shuffled[q] in b.faceUp && b.faceUp[shuffled[q]] == f[shuffled[q]])
  {
    var b := Deal(shuffled, f);
    DealShape(shuffled, f);
    DistinctSplit(Flatten(b.stacks), b.deck);
    DealFlagsStacks(f, b.stacks);
    DealFlagsElsewhere(f, b.stacks);
    forall q | 28 <= q < |shuffled| && shuffled[q] in f
      ensures shuffled[q] in b.faceUp && b.faceUp[shuffled[q]] == f[shuffled[q]]
    {
      assert shuffled[q] == b.deck[q - 28];
    }
  }

  /** A deal from a pack with no repeated card starts a game in the invariant, with
      the same cards it was given. */
  lemma DealIsValid(shuffled: seq<CardId>, f: map<CardId, bool>)
    requires Dealt(NumStacks) <= |shuffled|
    requires forall id :: multiset(shuffled)[id] <= 1
    requires forall q | 0 <= q < |shuffled| :: shuffled[q] in f
    ensures Valid(Deal(shuffled, f))
    ensures multiset(Everything(Deal(shuffled, f))) == multiset(shuffled)
  {
    var b := Deal(shuffled, f);
    DealShape(shuffled, f);
    FlattenEmpties(b.foundations);
    assert Everything(b) == shuffled;
    DealFlagsElsewhere(f, b.stacks);
  }

  // ---------------------------------------------------------------- the deck

  /** The two piles a deck click touches: the stock of m_deck and m_waste. */
  datatype Stock = Stock(deck: seq<CardId>, waste: seq<CardId>)

  /** A click on the deck: draw into the waste, or, when the draw comes back empty,
      flush the whole waste back into the deck. */
  function Click(s: Stock, batch: nat): Stock
  {
    var d := Draw(s.deck, batch);
    if d.drawn != [] then Stock(d.rest, s.waste + d.drawn)
    else Stock(d.rest + Reverse(s.waste), [])
  }

  /** A click on a non-empty stock (with a batch of at least one) draws: the stock
      shrinks and the drawn cards go on top of the waste, whose old cards stay below
      them. Otherwise it recycles: the deck becomes the old stock followed by the
      reversed waste, and the waste empties. */
  lemma ClickDrawsOrRecycles(s: Stock, batch: nat)
    ensures var t := Click(s, batch);
      if s.deck != [] && batch >= 1
      then |t.deck| < |s.deck| && |s.waste| < |t.waste| && t.waste[..|s.waste|] == s.waste
      else t == Stock(s.deck + Reverse(s.waste), [])
  {
    var d := Draw(s.deck, batch);
    if s.deck != [] && batch >= 1 {
      assert (s.waste + d.drawn)[..|s.waste|] == s.waste;
    } else {
      assert Reverse(d.drawn) == [] && d.rest == s.deck;
    }
  }

  /** The deck click on the whole board; no other pile or field changes. */
  function DeckClick(b: Board, batch: nat): (b': Board)
    ensures b' == b.(deck := b'.deck, waste := b'.waste)
    ensures multiset(b'.deck + b'.waste) == multiset(b.deck + b.waste)
  {
    ClickKeepsCycle(Stock(b.deck, b.waste), batch);
    var s := Click(Stock(b.deck, b.waste), batch);
    b.(deck := s.deck, waste := s.waste)
  }

  /** The stock as the deck will hold it after the next recycle. */
  function Restocked(s: Stock): seq<CardId>
  {
    s.deck + Reverse(s.waste)
  }

  /** A deck click changes neither the cards of the deck and waste taken together nor
      the order in which they come round: draws move cards from the stock to the
      waste, a recycle moves them all back. */
  lemma ClickKeepsCycle(s: Stock, batch: nat)
    ensures Restocked(Click(s, batch)) == Restocked(s)
    ensures multiset(Click(s, batch).deck + Click(s, batch).waste) == multiset(s.deck + s.waste)
  {
    var d := Draw(s.deck, batch);
    var c := Click(s, batch);
    if d.drawn != [] {
      DrawKeepsOrder(d.rest, d.drawn, s.waste);
    } else {
      assert Reverse(d.drawn) == [];
      assert c.waste == [] && Reverse(c.waste) == [];
    }
    RestockedCards(s);
    RestockedCards(c);
  }

  /** The deck and the waste together hold the cards of the restocked deck. */
  lemma RestockedCards(s: Stock)
    ensures multiset(s.deck + s.waste) == multiset(Restocked(s))
  {
    ReverseCards(s.waste);
  }

  /** The number of clicks that empty a stock of `size` cards, `batch` at a time. */
  function ClicksToEmpty(size: nat, batch: nat): nat
    requires batch >= 1
    decreases size
  {
    if size == 0 then 0 else 1 + ClicksToEmpty(size - (if batch < size then batch else size), batch)
  }

  /** `n` clicks on the deck in a row. */
  function Clicks(s: Stock, batch: nat, n: nat): Stock
  {
    if n == 0 then s else Click(Clicks(s, batch, n - 1), batch)
  }

  /** On a non-empty stock a click draws a full batch, or what is left. */
  lemma ClickDraws(t: Stock, batch: nat)
    requires batch >= 1 && t.deck != []
    ensures |Click(t, batch).deck| == |t.deck| - (if batch < |t.deck| then batch else |t.deck|)
    ensures ClicksToEmpty(|Click(t, batch).deck|, batch) == ClicksToEmpty(|t.deck|, batch) - 1
  {
    assert Draw(t.deck, batch).drawn != [];
  }

  /** Each of the first clicks of a pass draws, one click fewer to go each time. */
  lemma {:induction false} DrawingExhausts(s: Stock, batch: nat, n: nat)
    requires batch >= 1 && n <= ClicksToEmpty(|s.deck|, batch)
    ensures ClicksToEmpty(|Clicks(s, batch, n).deck|, batch) == ClicksToEmpty(|s.deck|, batch) - n
  {
    if n > 0 {
      DrawingExhausts(s, batch, n - 1);
      var t := Clicks(s, batch, n - 1);
      assert |t.deck| != 0;
      ClickDraws(t, batch);
    }
  }

  /** Any number of clicks keeps the order of the cycle. */
  lemma {:induction false} ClicksKeepCycle(s: Stock, batch: nat, n: nat)
    ensures Restocked(Clicks(s, batch, n)) == Restocked(s)
  {
    if n > 0 {
      ClicksKeepCycle(s, batch, n - 1);
      ClickKeepsCycle(Clicks(s, batch, n - 1), batch);
    }
  }

  /** Drawing until the stock is empty and clicking once more to recycle brings back
      the stock in its original order, with an empty waste: the next pass draws the
      cards in the same order as the first. */
  lemma DeckCycle(s: Stock, batch: nat)
    requires batch >= 1 && s.waste == []
    ensures Clicks(s, batch, ClicksToEmpty(|s.deck|, batch) + 1) == s
  {
    var n := ClicksToEmpty(|s.deck|, batch);
    var e := Clicks(s, batch, n);
    DrawingExhausts(s, batch, n);
    ClicksKeepCycle(s, batch, n);
    assert e.deck == [];
    assert Restocked(e) == Reverse(e.waste);
    assert Restocked(s) == s.deck by {
      assert Reverse(s.waste) == [];
    }
    ReverseReverse(e.waste);
    assert Draw(e.deck, batch).drawn == [];
  }

  // ---------------------------------------------------------------- pointer down

  /** What a pointer-down event resolves to: the zone it falls in and, per pile in
      that zone, the pile's hit test and rule answer. */
  datatype PointerPress =
    | DeckZone(deckHit: bool)                                 // m_deck->HitTest(point)
    | PlayAreaZone(stackHits: seq<int>, canSplit: seq<bool>)  // per stack: HitTest(point), CanSplit(that index)
    | WasteZone(wasteHit: int)                                // m_waste->HitTest(point)
    | FoundationsZone(foundationHits: seq<bool>, canTake: seq<bool>)  // per foundation: HitTest, CanTake()
    | NoZone

  /** What the piles guarantee about their answers: one answer per pile, CanSplit only
      at a card of the stack, the waste's hit test an index into the waste or
      negative, CanTake only on a non-empty foundation. */
  predicate PressAgrees(b: Board, p: PointerPress)
  {
    match p
    case DeckZone(_) => true
    case PlayAreaZone(hits, canSplit) =>
      |hits| == |b.stacks| && |canSplit| == |b.stacks|
      && forall k | 0 <= k < |b.stacks| && canSplit[k] :: 0 <= hits[k] < |b.stacks[k]|
    case WasteZone(hit) => hit < |b.waste|
    case FoundationsZone(hits, canTake) =>
      |hits| == |b.foundations| && |canTake| == |b.foundations|
      && forall f | 0 <= f < |b.foundations| && canTake[f] :: b.foundations[f] != []
    case NoZone => true
  }

  /** OnPointerPressed, from a board with nothing in hand, once the zone that contains
      the point is known (the zones are tried in the order deck, waste, foundations,
      play area, and the first that contains the point decides). A press that selects
      nothing leaves the board as it is. */
  function Press(b: Board, p: PointerPress, batch: nat): (b': Board)
    requires PressAgrees(b, p)
    ensures b'.faceUp == b.faceUp
    ensures |b'.stacks| == |b.stacks| && |b'.foundations| == |b.foundations|
    ensures p.DeckZone? || b' == b || b'.selected != []
  {
    match p
    case DeckZone(deckHit) =>
      if deckHit then DeckClick(b, batch) else b
    case PlayAreaZone(hits, canSplit) =>
      var k := FirstTrue(canSplit);
      if k == |canSplit| then b else Split(b, k, hits[k])
    case WasteZone(hit) =>
      if hit < 0 then b else Pick(b, hit)
    case FoundationsZone(hits, canTake) =>
      var f := FirstTrue(hits);
      if f == |hits| || !canTake[f] then b else Take(b, f)
    case NoZone => b
  }

  /** CardStack::Split at card `i` of stack `k`: the run from `i` up goes into the hand
      and the stack is remembered as the origin. */
  function Split(b: Board, k: nat, i: nat): (b': Board)
    requires k < |b.stacks| && i <= |b.stacks[k]|
    ensures |b'.stacks| == |b.stacks| && b'.stacks[k] + b'.selected == b.stacks[k]
    ensures forall j | 0 <= j < |b.stacks| && j != k :: b'.stacks[j] == b.stacks[j]
    ensures b'.lastStack == Some(k)
  {
    var s := b.stacks[k];
    assert s[..i] + s[i..] == s;
    b.(stacks := b.stacks[k := s[..i]], selected := s[i..], lastStack := Some(k))
  }

  /** Waste::Pick of card `i`: that card goes into the hand, with its index. */
  function Pick(b: Board, i: nat): (b': Board)
    requires i < |b.waste|
    ensures |b'.selected| == 1 && |b'.waste| + 1 == |b.waste|
    ensures InsertCard(b'.waste, b'.selected[0], i) == b.waste
  {
    PickThenInsertRestores(b.waste, i);
    b.(waste := WithoutIndex(b.waste, i), selected := [b.waste[i]],
       lastStack := None, isSelectedWasteCard := true, lastWasteIndex := i)
  }

  /** Foundation::Take on foundation `f`: its top card goes into the hand. */
  function Take(b: Board, f: nat): (b': Board)
    requires f < |b.foundations| && b.foundations[f] != []
    ensures |b'.foundations| == |b.foundations| && |b'.selected| == 1
    ensures b'.foundations[f] + b'.selected == b.foundations[f]
  {
    var pile := b.foundations[f];
    assert pile[..|pile| - 1] + [pile[|pile| - 1]] == pile;
    b.(foundations := b.foundations[f := pile[..|pile| - 1]], selected := [pile[|pile| - 1]],
       lastStack := None, isSelectedWasteCard := false, lastFoundation := Some(f))
  }

  /** The multiset of all cards counts, for each card, its copies place by place. */
  lemma HeldIsCount(b: Board, id: CardId)
    ensures multiset(Everything(b))[id] == Held(b, id)
  {
  }

  /** A press with nothing in hand only moves cards: from a stack, the waste or a
      foundation into the hand, or between the deck and the waste. */
  lemma PressKeepsCards(b: Board, p: PointerPress, batch: nat)
    requires PressAgrees(b, p) && b.selected == []
    ensures forall id :: Held(Press(b, p, batch), id) == Held(b, id)
  {
    match p
    case DeckZone(deckHit) =>
      if deckHit {
        DeckClickKeepsCards(b, batch);
      }
    case PlayAreaZone(hits, canSplit) =>
      var k := FirstTrue(canSplit);
      if k < |canSplit| {
        SplitKeepsCards(b, k, hits[k]);
      }
    case WasteZone(hit) =>
      if hit >= 0 {
        PickKeepsCards(b, hit);
      }
    case FoundationsZone(hits, canTake) =>
      var f := FirstTrue(hits);
      if f < |hits| && canTake[f] {
        TakeKeepsCards(b, f);
      }
    case NoZone =>
  }

  lemma DeckClickKeepsCards(b: Board, batch: nat)
    ensures forall id :: Held(DeckClick(b, batch), id) == Held(b, id)
  {
    var b' := DeckClick(b, batch);
    ClickKeepsCycle(Stock(b.deck, b.waste), batch);
    forall id ensures Held(b', id) == Held(b, id) {
      assert multiset(b'.deck + b'.waste)[id] == multiset(b.deck + b.waste)[id];
    }
  }

  lemma SplitKeepsCards(b: Board, k: nat, i: nat)
    requires k < |b.stacks| && i <= |b.stacks[k]| && b.selected == []
    ensures forall id :: Held(Split(b, k, i), id) == Held(b, id)
  {
    var b' := Split(b, k, i);
    FlattenCut(b.stacks, k, i);
    forall id ensures Held(b', id) == Held(b, id) {
      assert (multiset(Flatten(b'.stacks)) + multiset(b'.selected))[id] == multiset(Flatten(b.stacks))[id];
    }
  }

  lemma PickKeepsCards(b: Board, i: nat)
    requires i < |b.waste| && b.selected == []
    ensures forall id :: Held(Pick(b, i), id) == Held(b, id)
  {
    var b' := Pick(b, i);
    forall id ensures Held(b', id) == Held(b, id) {
      assert (multiset(b'.waste) + multiset(b'.selected))[id] == multiset(b.waste)[id];
    }
  }

  lemma TakeKeepsCards(b: Board, f: nat)
    requires f < |b.foundations| && b.foundations[f] != [] && b.selected == []
    ensures forall id :: Held(Take(b, f), id) == Held(b, id)
  {
    var pile := b.foundations[f];
    var b' := Take(b, f);
    FlattenCut(b.foundations, f, |pile| - 1);
    assert pile[|pile| - 1..] == b'.selected;
    forall id ensures Held(b', id) == Held(b, id) {
      assert (multiset(Flatten(b'.foundations)) + multiset(b'.selected))[id] == multiset(Flatten(b.foundations))[id];
    }
  }

  /** A press from a well-formed board with nothing in hand leaves it well-formed and
      turns no card over. */
  lemma PressKeepsShape(b: Board, p: PointerPress, batch: nat)
    requires WellFormed(b) && b.selected == [] && PressAgrees(b, p)
    ensures WellFormed(Press(b, p, batch)) && Press(b, p, batch).faceUp == b.faceUp
  {
  }

  /** Pointer-down keeps the invariant and every card: a selection only moves cards
      from one pile into the hand, a deck click only between the deck and the waste. */
  lemma PressConserves(b: Board, p: PointerPress, batch: nat)
    requires Valid(b) && b.selected == [] && PressAgrees(b, p)
    ensures Valid(Press(b, p, batch))
    ensures multiset(Everything(Press(b, p, batch))) == multiset(Everything(b))
  {
    PressKeepsCards(b, p, batch);
    PressKeepsShape(b, p, batch);
    SameCards(b, Press(b, p, batch));
    StaysValid(b, Press(b, p, batch));
  }

  /** Pointer-down in the play area splits only the first stack, in stack order,
      whose hit index the stack lets split: the hand then holds the lifted run, which
      put back on what is left of that stack gives the stack as it was; the other
      stacks and piles do not change. With no splittable stack nothing changes. */
  lemma PressSelectsFirstSplittable(b: Board, hits: seq<int>, canSplit: seq<bool>, batch: nat)
    requires Valid(b) && b.selected == [] && PressAgrees(b, PlayAreaZone(hits, canSplit))
    ensures var b' := Press(b, PlayAreaZone(hits, canSplit), batch);
      if exists k :: 0 <= k < |canSplit| && canSplit[k] then
        exists k :: 0 <= k < |canSplit| && canSplit[k] && (forall j :: 0 <= j < k ==> !canSplit[j])
          && b'.selected != [] && b'.stacks[k] + b'.selected == b.stacks[k] && |b'.stacks[k]| == hits[k]
          && b'.lastStack == Some(k)
          && (forall j | 0 <= j < |b.stacks| && j != k :: b'.stacks[j] == b.stacks[j])
          && b' == b.(stacks := b'.stacks, selected := b'.selected, lastStack := b'.lastStack)
      else b' == b
  {
    var k := FirstTrue(canSplit);
    if k < |canSplit| {
      var s := b.stacks[k];
      assert s[..hits[k]] + s[hits[k]..] == s;
    }
  }

  /** Pointer-down on a waste card (hit index at least 0) lifts that one card: the
      hand holds it, the waste flag and index are recorded, the stack origin is
      cleared, and inserting the card back at the recorded index gives the waste as
      it was. A negative hit index selects nothing. */
  lemma PressPicksWasteCard(b: Board, hit: int, batch: nat)
    requires Valid(b) && b.selected == [] && PressAgrees(b, WasteZone(hit))
    ensures var b' := Press(b, WasteZone(hit), batch);
      if hit >= 0 then
        && b'.selected == [b.waste[hit]]
        && b'.isSelectedWasteCard && b'.lastWasteIndex == hit && b'.lastStack.None?
        && InsertCard(b'.waste, b'.selected[0], b'.lastWasteIndex) == b.waste
        && b' == b.(waste := b'.waste, selected := b'.selected, lastStack := None,
                    isSelectedWasteCard := true, lastWasteIndex := hit)
      else b' == b
  {
    if hit >= 0 {
      PickThenInsertRestores(b.waste, hit);
    }
  }

  // ---------------------------------------------------------------- pointer up

  /** What a pointer-up event resolves to: per stack, its hit test and whether it
      accepts the front card of the hand; per foundation, likewise. */
  datatype PointerRelease = PointerRelease(
    stackHits: seq<int>,          // stack->HitTest(point): a card index, -1 none, -2 the empty base
    stackCanAdd: seq<bool>,       // stack->CanAdd(m_selectedCards.front())
    foundationHits: seq<bool>,    // foundation->HitTest(foundationPoint)
    foundationCanAdd: seq<bool>)  // foundation->CanAdd(m_selectedCards.front())

  predicate ReleaseAgrees(b: Board, r: PointerRelease)
  {
    && |r.stackHits| == |b.stacks| && |r.stackCanAdd| == |b.stacks|
    && |r.foundationHits| == |b.foundations| && |r.foundationCanAdd| == |b.foundations|
  }

  /** A stack is the drop target when the point is over one of its cards or over its
      empty base. */
  predicate IsStackHit(index: int)
  {
    index >= 0 || index == -2
  }

  function StackHitFlags(hits: seq<int>): (c: seq<bool>)
    ensures |c| == |hits| && forall j | 0 <= j < |hits| :: c[j] == IsStackHit(hits[j])
  {
    seq(|hits|, j requires 0 <= j < |hits| => IsStackHit(hits[j]))
  }

  datatype Drop = ToStack(stack: nat) | ToFoundation(foundation: nat) | BackToOrigin

  predicate DropFits(b: Board, d: Drop)
  {
    match d
    case ToStack(k) => k < |b.stacks|
    case ToFoundation(f) => f < |b.foundations|
    case BackToOrigin => true
  }

  /** The destination as OnPointerReleased chooses it: the first stack hit, if it
      accepts the front card; otherwise the first foundation hit, if it accepts the
      front card; otherwise back to the origin. */
  function DropTargetAsWritten(b: Board, r: PointerRelease): (d: Drop)
    requires ReleaseAgrees(b, r)
    ensures DropFits(b, d)
  {
    var k := FirstTrue(StackHitFlags(r.stackHits));
    var f := FirstTrue(r.foundationHits);
    var inStack := k < |r.stackHits| && r.stackCanAdd[k];
    var inFoundation := f < |r.foundationHits| && r.foundationCanAdd[f];
    if inStack then ToStack(k) else if inFoundation then ToFoundation(f) else BackToOrigin
  }

  /** The destination with the correction this model adopts: a foundation takes a
      selection only when it is a single card, so a run is never cut short. */
  function DropTarget(b: Board, r: PointerRelease): (d: Drop)
    requires ReleaseAgrees(b, r)
    ensures DropFits(b, d)
  {
    var d := DropTargetAsWritten(b, r);
    if d.ToFoundation? && |b.selected| != 1 then BackToOrigin else d
  }

  /** A stack that is hit and accepts the card wins over any foundation and takes the
      whole hand; a foundation is chosen only when no stack accepts, and only for a
      single card. */
  lemma DropPrecedence(b: Board, r: PointerRelease)
    requires ReleaseAgrees(b, r)
    ensures var k := FirstTrue(StackHitFlags(r.stackHits)); var f := FirstTrue(r.foundationHits);
      && (DropTarget(b, r).ToStack? <==> k < |b.stacks| && r.stackCanAdd[k])
      && (DropTarget(b, r).ToStack? ==>
            (DropTarget(b, r).stack == k && IsStackHit(r.stackHits[k])
             && forall j :: 0 <= j < k ==> !IsStackHit(r.stackHits[j])))
      && (DropTarget(b, r).ToFoundation? <==>
            !(k < |b.stacks| && r.stackCanAdd[k]) && f < |b.foundations| && r.foundationCanAdd[f]
            && |b.selected| == 1)
      && (DropTarget(b, r).ToFoundation? ==> DropTarget(b, r).foundation == f)
  {
  }

  /** The correction changes the destination only for a hand of other than one card
      that the code as written would drop on a foundation. */
  lemma CorrectionScope(b: Board, r: PointerRelease)
    requires ReleaseAgrees(b, r)
    ensures DropTarget(b, r) != DropTargetAsWritten(b, r) ==>
      DropTargetAsWritten(b, r).ToFoundation? && |b.selected| != 1 && DropTarget(b, r) == BackToOrigin
  {
  }

  /** Add the hand to the destination: a stack gets all of it, a foundation only the
      front card. */
  function Place(b: Board, d: Drop): (b': Board)
    requires b.selected != [] && DropFits(b, d) && !d.BackToOrigin?
    ensures b' == b.(stacks := b'.stacks, foundations := b'.foundations)
    ensures |b'.stacks| == |b.stacks| && |b'.foundations| == |b.foundations|
    ensures forall j | 0 <= j < |b.stacks| && d != ToStack(j) :: b'.stacks[j] == b.stacks[j]
    ensures forall g | 0 <= g < |b.foundations| && d != ToFoundation(g) :: b'.foundations[g] == b.foundations[g]
  {
    match d
    case ToStack(k) => b.(stacks := b.stacks[k := b.stacks[k] + b.selected])
    case ToFoundation(f) => b.(foundations := b.foundations[f := b.foundations[f] + [b.selected[0]]])
  }

  /** Placing adds to the piles exactly the hand, for a stack, or its front card, for
      a foundation. */
  lemma PlaceAddsHand(b: Board, d: Drop)
    requires b.selected != [] && DropFits(b, d) && !d.BackToOrigin?
    ensures var b' := Place(b, d);
      multiset(Flatten(b'.stacks)) + multiset(Flatten(b'.foundations))
      == multiset(Flatten(b.stacks)) + multiset(Flatten(b.foundations))
         + (if d.ToStack? then multiset(b.selected) else multiset{b.selected[0]})
  {
    match d
    case ToStack(k) => FlattenGrow(b.stacks, k, b.selected);
    case ToFoundation(f) => FlattenGrow(b.foundations, f, [b.selected[0]]);
  }

  /** After a committed move the stack the hand came from, if any, turns its top card
      face-up (when it has one left). */
  function FlipOriginTop(b: Board): (b': Board)
    requires b.lastStack.Some? ==> b.lastStack.value < |b.stacks|
    ensures b' == b.(faceUp := b'.faceUp)
    ensures forall id | id in b.faceUp :: id in b'.faceUp && (b.faceUp[id] ==> b'.faceUp[id])
    ensures b.lastStack.Some? && b.stacks[b.lastStack.value] != [] ==>
      var s := b.stacks[b.lastStack.value]; s[|s| - 1] in b'.faceUp && b'.faceUp[s[|s| - 1]]
    ensures forall id | id in b.faceUp
      && !(b.lastStack.Some? && b.stacks[b.lastStack.value] != []
           && id == b.stacks[b.lastStack.value][|b.stacks[b.lastStack.value]| - 1])
      :: b'.faceUp[id] == b.faceUp[id]
  {
    if b.lastStack.Some? && b.stacks[b.lastStack.value] != [] then
      var s := b.stacks[b.lastStack.value];
      b.(faceUp := b.faceUp[s[|s| - 1] := true])
    else b
  }

  /** A committed move: place the hand, flip the origin stack's new top card, and
      have the waste forget a card that came from it. */
  function Commit(b: Board, d: Drop): (b': Board)
    requires WellFormed(b) && b.selected != [] && DropFits(b, d) && !d.BackToOrigin?
    ensures |b'.stacks| == |b.stacks| && |b'.foundations| == |b.foundations|
    ensures b'.deck == b.deck && b'.selected == b.selected && b'.lastFoundation == b.lastFoundation
    ensures d.ToStack? ==> b'.stacks[d.stack] == b.stacks[d.stack] + b.selected
    ensures d.ToFoundation? ==> b'.foundations[d.foundation] == b.foundations[d.foundation] + [b.selected[0]]
    ensures forall id | id in b.faceUp :: id in b'.faceUp && (b.faceUp[id] ==> b'.faceUp[id])
    ensures b.selected[0] !in b.waste ==> b'.waste == b.waste
  {
    var flipped := FlipOriginTop(Place(b, d));
    if b.isSelectedWasteCard then flipped.(waste := RemoveCard(flipped.waste, b.selected[0]))
    else flipped
  }

  /** An illegal drop: the hand goes back where it came from. */
  function Rollback(b: Board): (b': Board)
    requires WellFormed(b) && b.selected != []
    ensures WellFormed(b') && b'.faceUp == b.faceUp && b'.deck == b.deck && b'.selected == b.selected
    ensures b'.lastFoundation == b.lastFoundation
    ensures match OriginOf(b)
      case FromStack(k) =>
        k < |b'.stacks| && |b.stacks[k]| <= |b'.stacks[k]| && Split(b', k, |b.stacks[k]|) == b
      case FromWaste(i) => 0 <= i < |b'.waste| && Pick(b', i as nat) == b
      case FromFoundation(f) => f < |b'.foundations| && b'.foundations[f] != [] && Take(b', f) == b
      case NoOrigin => false
  {
    OriginIsKnown(b);
    match OriginOf(b)
    case FromStack(k) =>
      var s := b.stacks[k] + b.selected;
      assert s[..|b.stacks[k]|] == b.stacks[k] && s[|b.stacks[k]|..] == b.selected;
      b.(stacks := b.stacks[k := s])
    case FromWaste(i) =>
      InsertThenPickRestores(b.waste, b.selected[0], i);
      assert b.selected == [b.selected[0]];
      b.(waste := InsertCard(b.waste, b.selected[0], i))
    case FromFoundation(f) =>
      var s := b.foundations[f] + [b.selected[0]];
      assert s[..|s| - 1] == b.foundations[f] && b.selected == [s[|s| - 1]];
      b.(foundations := b.foundations[f := s])
  }

  /** The selection fields after every release; m_lastFoundation is not among them. */
  function Reset(b: Board): (b': Board)
    ensures Everything(b') + b.selected == Everything(b)
    ensures b'.faceUp == b.faceUp && b'.lastFoundation == b.lastFoundation
    ensures (&& |b.stacks| == NumStacks && |b.foundations| == NumFoundations
             && (b.lastFoundation.Some? ==> b.lastFoundation.value < NumFoundations)) ==> WellFormed(b')
  {
    b.(selected := [], lastStack := None, isSelectedWasteCard := false, lastWasteIndex := -1)
  }

  function ApplyRelease(b: Board, d: Drop): (b': Board)
    requires WellFormed(b) && DropFits(b, d)
    ensures WellFormed(b') && b'.deck == b.deck && b'.selected == []
  {
    if b.selected == [] then Reset(b)
    else if d.BackToOrigin? then Reset(Rollback(b))
    else Reset(Commit(b, d))
  }

  /** OnPointerReleased as this model runs it, with the corrected destination. */
  function Release(b: Board, r: PointerRelease): (b': Board)
    requires WellFormed(b) && ReleaseAgrees(b, r)
    ensures WellFormed(b') && b'.deck == b.deck
  {
    ApplyRelease(b, DropTarget(b, r))
  }

  /** OnPointerReleased exactly as written. */
  function ReleaseAsWritten(b: Board, r: PointerRelease): (b': Board)
    requires WellFormed(b) && ReleaseAgrees(b, r)
    ensures WellFormed(b') && b'.deck == b.deck
  {
    ApplyRelease(b, DropTargetAsWritten(b, r))
  }

  /** After every release the hand is empty, m_lastStack is null, the waste flag is
      false and m_lastWasteIndex is -1; m_lastFoundation keeps its value. */
  lemma ReleaseResets(b: Board, r: PointerRelease)
    requires WellFormed(b) && ReleaseAgrees(b, r)
    ensures var b' := Release(b, r);
      && b'.selected == [] && b'.lastStack.None? && !b'.isSelectedWasteCard && b'.lastWasteIndex == -1
      && b'.lastFoundation == b.lastFoundation
  {
  }

  /** A card in hand is in no pile; in particular a waste card in hand is no longer
      in the waste, so the commit's RemoveCard finds nothing to remove. */
  lemma HandIsNotInWaste(b: Board)
    requires EachCardOnce(b) && b.selected != []
    ensures b.selected[0] !in b.waste
  {
    var c := b.selected[0];
    HeldIsCount(b, c);
    assert multiset(b.selected)[c] >= 1;
  }

  /** A commit moves the whole hand to a stack, or a one-card hand to a foundation. */
  lemma CommitKeepsCards(b: Board, d: Drop)
    requires WellFormed(b) && b.selected != [] && DropFits(b, d) && !d.BackToOrigin?
    requires d.ToFoundation? ==> |b.selected| == 1
    requires b.selected[0] !in b.waste
    ensures forall id :: Held(Reset(Commit(b, d)), id) == Held(b, id)
  {
    var b' := Reset(Commit(b, d));
    match d
    case ToStack(k) =>
      assert b' == b'.(stacks := b.stacks[k := b.stacks[k] + b.selected], selected := []);
      PutOnPileKeepsCards(b.stacks, k, b.selected, b, b');
    case ToFoundation(f) =>
      assert b.selected == [b.selected[0]];
      PutOnPileKeepsCards(b.foundations, f, b.selected, b, b');
  }

  /** Moving the hand onto one pile of a list of piles, the other places unchanged. */
  lemma PutOnPileKeepsCards(ss: seq<seq<CardId>>, k: nat, x: seq<CardId>, b: Board, b': Board)
    requires k < |ss| && x == b.selected && b'.selected == []
    requires b'.deck == b.deck && b'.waste == b.waste
    requires (ss == b.stacks && b'.stacks == ss[k := ss[k] + x] && b'.foundations == b.foundations)
          || (ss == b.foundations && b'.foundations == ss[k := ss[k] + x] && b'.stacks == b.stacks)
    ensures forall id :: Held(b', id) == Held(b, id)
  {
    FlattenGrow(ss, k, x);
  }

  /** A rollback returns the hand to the pile it came from. */
  lemma RollbackKeepsCards(b: Board)
    requires WellFormed(b) && b.selected != []
    ensures forall id :: Held(Reset(Rollback(b)), id) == Held(b, id)
  {
    var b' := Reset(Rollback(b));
    match OriginOf(b)
    case FromStack(k) =>
      PutOnPileKeepsCards(b.stacks, k, b.selected, b, b');
    case FromWaste(i) =>
      assert b.selected == [b.selected[0]];
    case FromFoundation(f) =>
      assert b.selected == [b.selected[0]];
      PutOnPileKeepsCards(b.foundations, f, b.selected, b, b');
  }

  /** Pointer-up keeps the invariant and every card: a commit moves the whole hand to
      its destination, a rollback returns it to its origin, and the waste card of a
      committed waste move is not counted twice. */
  lemma ReleaseConserves(b: Board, r: PointerRelease)
    requires Valid(b) && ReleaseAgrees(b, r)
    ensures Valid(Release(b, r))
    ensures multiset(Everything(Release(b, r))) == multiset(Everything(b))
  {
    var d := DropTarget(b, r);
    if b.selected == [] {
      assert Release(b, r) == b;
    } else if d.BackToOrigin? {
      RollbackConserves(b);
    } else {
      CommitConserves(b, d);
    }
  }

  lemma RollbackConserves(b: Board)
    requires Valid(b) && b.selected != []
    ensures Valid(Reset(Rollback(b)))
    ensures multiset(Everything(Reset(Rollback(b)))) == multiset(Everything(b))
  {
    RollbackKeepsCards(b);
    SameCards(b, Reset(Rollback(b)));
    StaysValid(b, Reset(Rollback(b)));
  }

  lemma CommitConserves(b: Board, d: Drop)
    requires Valid(b) && b.selected != [] && DropFits(b, d) && !d.BackToOrigin?
    requires d.ToFoundation? ==> |b.selected| == 1
    ensures Valid(Reset(Commit(b, d)))
    ensures multiset(Everything(Reset(Commit(b, d)))) == multiset(Everything(b))
  {
    HandIsNotInWaste(b);
    CommitKeepsCards(b, d);
    SameCards(b, Reset(Commit(b, d)));
    StaysValid(b, Reset(Commit(b, d)));
  }

  /** The card a commit turns face-up is one the board holds, so it has a flag. */
  lemma OriginTopIsHeld(b: Board, d: Drop)
    requires Valid(b) && b.selected != [] && DropFits(b, d) && !d.BackToOrigin? && b.lastStack.Some?
    requires Place(b, d).stacks[b.lastStack.value] != []
    ensures var s := Place(b, d).stacks[b.lastStack.value]; s[|s| - 1] in b.faceUp
  {
    OriginTopIsCard(b, d);
  }

  lemma OriginTopIsCard(b: Board, d: Drop)
    requires WellFormed(b) && b.selected != [] && DropFits(b, d) && !d.BackToOrigin? && b.lastStack.Some?
    requires Place(b, d).stacks[b.lastStack.value] != []
    ensures var s := Place(b, d).stacks[b.lastStack.value]; s[|s| - 1] in multiset(Everything(b))
  {
    var k := b.lastStack.value;
    if d == ToStack(k) {
      assert Place(b, d).stacks[k] == b.stacks[k] + b.selected;
      HandCardIsHeld(b, |b.selected| - 1);
    } else {
      assert Place(b, d).stacks[k] == b.stacks[k];
      StackCardIsHeld(b, k, |b.stacks[k]| - 1);
    }
  }

  lemma HandCardIsHeld(b: Board, p: nat)
    requires p < |b.selected|
    ensures b.selected[p] in multiset(Everything(b))
  {
    HeldIsCount(b, b.selected[p]);
    assert b.selected[p] in multiset(b.selected);
  }

  lemma StackCardIsHeld(b: Board, k: nat, p: nat)
    requires k < |b.stacks| && p < |b.stacks[k]|
    ensures b.stacks[k][p] in multiset(Everything(b))
  {
    FlattenContains(b.stacks, k, p);
    HeldIsCount(b, b.stacks[k][p]);
  }

  /** After a committed move out of a stack that still has cards, that stack's top
      card is face-up. */
  lemma CommitTurnsUpOriginTop(b: Board, r: PointerRelease)
    requires WellFormed(b) && ReleaseAgrees(b, r)
    requires b.selected != [] && b.lastStack.Some? && !DropTarget(b, r).BackToOrigin?
    ensures var b', k := Release(b, r), b.lastStack.value;
      b'.stacks[k] != [] ==> b'.faceUp[b'.stacks[k][|b'.stacks[k]| - 1]]
  {
  }

  /** A drop that no pile accepts undoes the pointer-down that lifted the hand: the
      board is as it was before the press, except that a press on a foundation
      leaves m_lastFoundation pointing at that foundation. */
  lemma PressThenRollbackRestores(b: Board, p: PointerPress, batch: nat, r: PointerRelease)
    requires WellFormed(b) && b.selected == [] && PressAgrees(b, p)
    requires Press(b, p, batch).selected != []
    requires ReleaseAgrees(Press(b, p, batch), r) && DropTarget(Press(b, p, batch), r) == BackToOrigin
    ensures WellFormed(Press(b, p, batch))
    ensures Release(Press(b, p, batch), r) == b.(lastFoundation := Press(b, p, batch).lastFoundation)
  {
    PressKeepsShape(b, p, batch);
    match p
    case PlayAreaZone(hits, canSplit) =>
      var k := FirstTrue(canSplit);
      SplitThenRollbackRestores(b, k, hits[k]);
    case WasteZone(hit) =>
      PickThenRollbackRestores(b, hit);
    case FoundationsZone(hits, canTake) =>
      TakeThenRollbackRestores(b, FirstTrue(hits));
  }

  lemma SplitThenRollbackRestores(b: Board, k: nat, i: nat)
    requires WellFormed(b) && b.selected == [] && k < |b.stacks| && i < |b.stacks[k]|
    ensures WellFormed(Split(b, k, i)) && Reset(Rollback(Split(b, k, i))) == b
  {
    var s := b.stacks[k];
    assert s[..i] + s[i..] == s;
    assert Split(b, k, i).stacks[k := s] == b.stacks;
  }

  lemma PickThenRollbackRestores(b: Board, i: nat)
    requires WellFormed(b) && b.selected == [] && i < |b.waste|
    ensures WellFormed(Pick(b, i)) && Reset(Rollback(Pick(b, i))) == b
  {
    PickThenInsertRestores(b.waste, i);
  }

  lemma TakeThenRollbackRestores(b: Board, f: nat)
    requires WellFormed(b) && b.selected == [] && f < |b.foundations| && b.foundations[f] != []
    ensures WellFormed(Take(b, f)) && Reset(Rollback(Take(b, f))) == b.(lastFoundation := Some(f))
  {
    var pile := b.foundations[f];
    assert pile[..|pile| - 1] + [pile[|pile| - 1]] == pile;
    assert Take(b, f).foundations[f := pile] == b.foundations;
  }

  /** As written, a run of two or more cards dropped where no stack accepts it but a
      foundation accepts its front card loses every card after the front one: they
      are in no pile and no longer in the hand. */
  lemma AsWrittenFoundationDropLosesRun(b: Board, r: PointerRelease)
    requires Valid(b) && ReleaseAgrees(b, r)
    requires |b.selected| >= 2 && DropTargetAsWritten(b, r).ToFoundation?
    ensures multiset(Everything(ReleaseAsWritten(b, r))) + multiset(b.selected[1..])
         == multiset(Everything(b))
    ensures b.selected[1] !in multiset(Everything(ReleaseAsWritten(b, r)))
  {
    AsWrittenFoundationDropCounts(b, r);
    var m := multiset(Everything(b));
    assert b.selected[1] in multiset(b.selected[1..]);
    assert m[b.selected[1]] <= 1;
  }

  lemma AsWrittenFoundationDropCounts(b: Board, r: PointerRelease)
    requires WellFormed(b) && ReleaseAgrees(b, r)
    requires |b.selected| >= 2 && DropTargetAsWritten(b, r).ToFoundation?
    ensures multiset(Everything(ReleaseAsWritten(b, r))) + multiset(b.selected[1..])
         == multiset(Everything(b))
  {
    var f := DropTargetAsWritten(b, r).foundation;
    var b' := ReleaseAsWritten(b, r);
    assert b' == Reset(Commit(b, ToFoundation(f)));
    FoundationCommitMovesFront(b, f);
    FrontOnlyKeepsFront(b, b', f);
  }

  /** A commit to a foundation adds only the front card of the hand to that
      foundation and leaves the stacks and the deck alone. The waste is left alone as
      well: a hand of several cards comes from a stack, and a waste card in hand is
      no longer in the waste when each card is in one place. */
  lemma FoundationCommitMovesFront(b: Board, f: nat)
    requires WellFormed(b) && b.selected != [] && f < |b.foundations|
    ensures var b' := Reset(Commit(b, ToFoundation(f)));
      && b'.stacks == b.stacks && b'.deck == b.deck && b'.selected == []
      && b'.foundations == b.foundations[f := b.foundations[f] + [b.selected[0]]]
      && (|b.selected| >= 2 || EachCardOnce(b) ==> b'.waste == b.waste)
  {
    if EachCardOnce(b) {
      HandIsNotInWaste(b);
    }
  }

  /** A foundation that takes only the front card of the hand leaves the rest of the
      hand in no place at all. */
  lemma FrontOnlyKeepsFront(b: Board, b': Board, f: nat)
    requires f < |b.foundations| && b.selected != []
    requires b'.stacks == b.stacks && b'.deck == b.deck && b'.waste == b.waste && b'.selected == []
    requires b'.foundations == b.foundations[f := b.foundations[f] + [b.selected[0]]]
    ensures multiset(Everything(b')) + multiset(b.selected[1..]) == multiset(Everything(b))
  {
    FrontOnlyHeld(b, b', f);
    var m, m', rest := multiset(Everything(b)), multiset(Everything(b')), multiset(b.selected[1..]);
    forall id ensures (m' + rest)[id] == m[id] {
      HeldIsCount(b, id);
      HeldIsCount(b', id);
    }
    MultisetsAgree(m' + rest, m);
  }

  lemma FrontOnlyHeld(b: Board, b': Board, f: nat)
    requires f < |b.foundations| && b.selected != []
    requires b'.stacks == b.stacks && b'.deck == b.deck && b'.waste == b.waste && b'.selected == []
    requires b'.foundations == b.foundations[f := b.foundations[f] + [b.selected[0]]]
    ensures forall id :: Held(b', id) + multiset(b.selected[1..])[id] == Held(b, id)
  {
    FlattenGrow(b.foundations, f, [b.selected[0]]);
    assert b.selected == [b.selected[0]] + b.selected[1..];
  }
}
