/** Sequence-level contracts of the pile operations that the game coordinator in
    Solitaire/App.cpp calls: CardStack::Split and Add, Waste::Pick, InsertCard,
    RemoveCard, AddCards and Flush, Deck::Draw and AddCards, Foundation::Take and Add.
    The pile classes themselves are not part of this model; each function here
    states only what the coordinator's call sites rely on. A pile is a sequence of
    card ids whose LAST element is the top (the most recently added card). */
module Piles {

  /** A card is named by its index in the arena of card objects. */
  type CardId = nat

  /** The waste after Waste::Pick(i) has lifted the card at index `i`. */
  function WithoutIndex(s: seq<CardId>, i: nat): (r: seq<CardId>)
    requires i < |s|
    ensures |r| == |s| - 1
    ensures multiset(r) + multiset{s[i]} == multiset(s)
  {
    assert s == s[..i] + [s[i]] + s[i + 1..];
    s[..i] + s[i + 1..]
  }

  /** Waste::InsertCard(c, i): the rollback primitive that puts `c` back at index `i`. */
  function InsertCard(s: seq<CardId>, c: CardId, i: nat): (r: seq<CardId>)
    requires i <= |s|
    ensures |r| == |s| + 1 && r[i] == c
    ensures multiset(r) == multiset(s) + multiset{c}
  {
    assert s == s[..i] + s[i..];
    s[..i] + [c] + s[i..]
  }

  /** Putting a picked card back at the index it was picked from restores the waste. */
  lemma PickThenInsertRestores(s: seq<CardId>, i: nat)
    requires i < |s|
    ensures InsertCard(WithoutIndex(s, i), s[i], i) == s
  {
    var w := WithoutIndex(s, i);
    assert w[..i] == s[..i];
    assert w[i..] == s[i + 1..];
    assert s == s[..i] + [s[i]] + s[i + 1..];
  }

  /** Picking the card just inserted at `i` gives back the waste it was inserted into. */
  lemma InsertThenPickRestores(s: seq<CardId>, c: CardId, i: nat)
    requires i <= |s|
    ensures WithoutIndex(InsertCard(s, c, i), i) == s
  {
    var r := InsertCard(s, c, i);
    assert r[..i] == s[..i];
    assert r[i + 1..] == s[i..];
    assert s == s[..i] + s[i..];
  }

  /** Waste::RemoveCard(c): removes the first occurrence of `c`, if there is one. */
  function RemoveCard(s: seq<CardId>, c: CardId): (r: seq<CardId>)
    ensures c in s ==> multiset(r) + multiset{c} == multiset(s)
    ensures c !in s ==> r == s
  {
    if s == [] then []
    else
      assert s == [s[0]] + s[1..];
      if s[0] == c then s[1..]
      else [s[0]] + RemoveCard(s[1..], c)
  }

  /** The order in which Waste::Flush hands the waste to Deck::AddCards: reversed, so
      that the next draws come out in the original order. */
  function Reverse(s: seq<CardId>): (r: seq<CardId>)
    ensures |r| == |s|
  {
    if s == [] then [] else Reverse(s[1..]) + [s[0]]
  }

  lemma {:induction false} ReverseCards(s: seq<CardId>)
    ensures multiset(Reverse(s)) == multiset(s)
  {
    if s != [] {
      ReverseCards(s[1..]);
      assert s == [s[0]] + s[1..];
    }
  }

  lemma {:induction false} ReverseAppend(a: seq<CardId>, b: seq<CardId>)
    ensures Reverse(a + b) == Reverse(b) + Reverse(a)
  {
    if a == [] {
      assert a + b == b;
    } else {
      assert (a + b)[1..] == a[1..] + b;
      assert (a + b)[0] == a[0];
      ReverseAppend(a[1..], b);
    }
  }

  lemma {:induction false} ReverseReverse(s: seq<CardId>)
    ensures Reverse(Reverse(s)) == s
  {
    if s != [] {
      ReverseReverse(s[1..]);
      ReverseAppend(Reverse(s[1..]), [s[0]]);
      assert Reverse([s[0]]) == [s[0]];
      assert s == [s[0]] + s[1..];
    }
  }

  /** What Deck::Draw does to the stock: the stock that is left and the cards handed
      to the waste. */
  datatype Drawn = Drawn(rest: seq<CardId>, drawn: seq<CardId>)

  /** Deck::Draw with a batch size of `batch`: up to `batch` cards come off the end of
      the stock, the top card first; an exhausted stock hands out nothing. */
  function Draw(stock: seq<CardId>, batch: nat): (d: Drawn)
    ensures d.rest + Reverse(d.drawn) == stock
    ensures |d.drawn| == if batch < |stock| then batch else |stock|
    ensures d.drawn == [] <==> stock == [] || batch == 0
    decreases batch
  {
    if batch == 0 || stock == [] then Drawn(stock, [])
    else
      var top := stock[|stock| - 1];
      var d := Draw(stock[..|stock| - 1], batch - 1);
      assert ([top] + d.drawn)[1..] == d.drawn;
      assert stock == stock[..|stock| - 1] + [top];
      Drawn(d.rest, [top] + d.drawn)
  }

  /** Moving `drawn` from the end of the stock (reversed) onto the waste keeps the
      order of stock-then-reversed-waste. */
  lemma DrawKeepsOrder(rest: seq<CardId>, drawn: seq<CardId>, waste: seq<CardId>)
    ensures rest + Reverse(waste + drawn) == (rest + Reverse(drawn)) + Reverse(waste)
  {
    ReverseAppend(waste, drawn);
  }

  /** The concatenation of a list of piles, first pile first. */
  function Flatten(ss: seq<seq<CardId>>): seq<CardId>
  {
    if ss == [] then [] else Flatten(ss[..|ss| - 1]) + ss[|ss| - 1]
  }

  lemma {:induction false} FlattenAppend(ss: seq<seq<CardId>>, s: seq<CardId>)
    ensures Flatten(ss + [s]) == Flatten(ss) + s
  {
    assert (ss + [s])[..|ss|] == ss;
  }

  lemma {:induction false} FlattenConcat(a: seq<seq<CardId>>, b: seq<seq<CardId>>)
    ensures Flatten(a + b) == Flatten(a) + Flatten(b)
    decreases |b|
  {
    if b == [] {
      assert a + b == a;
    } else {
      var n := |b| - 1;
      FlattenConcat(a, b[..n]);
      assert (a + b)[..|a + b| - 1] == a + b[..n];
    }
  }

  /** The contents are the piles before `k`, pile `k`, and the piles after it. */
  lemma FlattenAround(ss: seq<seq<CardId>>, k: nat)
    requires k < |ss|
    ensures Flatten(ss) == Flatten(ss[..k]) + (ss[k] + Flatten(ss[k + 1..]))
  {
    var before, pile, after := ss[..k], [ss[k]], ss[k + 1..];
    SplitAt(ss, k);
    FlattenConcat(before, pile + after);
    FlattenConcat(pile, after);
    FlattenOne(ss[k]);
  }

  lemma SplitAt(ss: seq<seq<CardId>>, k: nat)
    requires k < |ss|
    ensures ss == ss[..k] + ([ss[k]] + ss[k + 1..])
  {
  }

  lemma FlattenOne(s: seq<CardId>)
    ensures Flatten([s]) == s
  {
    assert [s][..0] == [];
  }

  /** Replacing one pile changes the flattened contents by exactly that pile. */
  lemma FlattenUpdate(ss: seq<seq<CardId>>, k: nat, x: seq<CardId>)
    requires k < |ss|
    ensures multiset(Flatten(ss[k := x])) + multiset(ss[k]) == multiset(Flatten(ss)) + multiset(x)
  {
    var t := ss[k := x];
    FlattenAround(ss, k);
    FlattenAround(t, k);
    assert t[..k] == ss[..k] && t[k + 1..] == ss[k + 1..];
  }

  /** Cutting pile `k` at `i` takes exactly the cut-off run out of the contents. */
  lemma FlattenCut(ss: seq<seq<CardId>>, k: nat, i: nat)
    requires k < |ss| && i <= |ss[k]|
    ensures multiset(Flatten(ss[k := ss[k][..i]])) + multiset(ss[k][i..]) == multiset(Flatten(ss))
  {
    var s := ss[k];
    FlattenUpdate(ss, k, s[..i]);
    var a, b := multiset(Flatten(ss[k := s[..i]])), multiset(Flatten(ss));
    var lo, hi := multiset(s[..i]), multiset(s[i..]);
    assert s == s[..i] + s[i..];
    assert a + (lo + hi) == b + lo;
    forall z ensures (a + hi)[z] == b[z] {
      assert (a + (lo + hi))[z] == (b + lo)[z];
    }
    assert a + hi == b;
  }

  /** Adding `x` on top of pile `k` adds exactly `x` to the contents. */
  lemma FlattenGrow(ss: seq<seq<CardId>>, k: nat, x: seq<CardId>)
    requires k < |ss|
    ensures multiset(Flatten(ss[k := ss[k] + x])) == multiset(Flatten(ss)) + multiset(x)
  {
    FlattenUpdate(ss, k, ss[k] + x);
    var a, b := multiset(Flatten(ss[k := ss[k] + x])), multiset(Flatten(ss));
    var s, m := multiset(ss[k]), multiset(x);
    assert a + s == b + (s + m);
    forall z ensures a[z] == (b + m)[z] {
      assert (a + s)[z] == (b + (s + m))[z];
    }
    assert a == b + m;
  }

  /** Every card of every pile is in the flattened contents. */
  lemma {:induction false} FlattenContains(ss: seq<seq<CardId>>, k: nat, p: nat)
    requires k < |ss| && p < |ss[k]|
    ensures ss[k][p] in multiset(Flatten(ss))
  {
    var n := |ss| - 1;
    if k < n {
      FlattenContains(ss[..n], k, p);
    }
  }

  /** The index of the first `true`, or |c| when there is none: the first match of a
      `for` loop that breaks on its first hit. */
  function FirstTrue(c: seq<bool>): (k: nat)
    ensures k <= |c|
    ensures forall j :: 0 <= j < k ==> !c[j]
    ensures k < |c| ==> c[k]
  {
    if c == [] || c[0] then 0 else 1 + FirstTrue(c[1..])
  }

  /** A loop that stops at the first `true` stops where FirstTrue points. */
  lemma FirstTrueIs(c: seq<bool>, k: nat)
    requires k <= |c| && (forall j :: 0 <= j < k ==> !c[j]) && (k < |c| ==> c[k])
    ensures FirstTrue(c) == k
  {
  }
}
