/** The cards before they are laid on the board: the fresh deck holding each
    symbol twice, the shuffle that permutes it, and what a valid deal is. */
module Deck {

  /** Number of distinct symbols (images); the board holds each one twice. */
  const Symbols := 8

  /** The deck built by appending every symbol below n twice, in order:
      [0, 0, 1, 1, ..., n-1, n-1]. */
  function FreshDeck(n: nat): seq<int>
  {
    if n == 0 then [] else FreshDeck(n - 1) + [n - 1, n - 1]
  }

  /** The fresh deck holds 2n cards: every symbol below n exactly twice and nothing else. */
  lemma {:induction false} FreshDeckCount(n: nat, v: int)
    ensures |FreshDeck(n)| == 2 * n
    ensures multiset(FreshDeck(n))[v] == if 0 <= v < n then 2 else 0
  {
    if n > 0 {
      var shorter := FreshDeck(n - 1);
      FreshDeckCount(n - 1, v);
      assert FreshDeck(n) == shorter + [n - 1, n - 1];
      assert multiset(FreshDeck(n)) == multiset(shorter) + multiset([n - 1, n - 1]);
    }
  }

  /** A deal: every value is a symbol and every symbol occurs exactly twice. */
  predicate IsDeal(s: seq<int>)
  {
    && (forall k :: 0 <= k < |s| ==> 0 <= s[k] < Symbols)
    && (forall v :: 0 <= v < Symbols ==> multiset(s)[v] == 2)
  }

  /** The deals are exactly the arrangements of the fresh deck of all symbols. */
  lemma DealCharacterization(s: seq<int>)
    ensures IsDeal(s) <==> multiset(s) == multiset(FreshDeck(Symbols))
  {
    if multiset(s) == multiset(FreshDeck(Symbols)) {
      ArrangementIsDeal(s);
    }
    if IsDeal(s) {
      DealIsArrangement(s);
    }
  }

  lemma ArrangementIsDeal(s: seq<int>)
    requires multiset(s) == multiset(FreshDeck(Symbols))
    ensures IsDeal(s)
  {
    forall k | 0 <= k < |s|
      ensures 0 <= s[k] < Symbols
    {
      assert s[k] in multiset(s);
      FreshDeckCount(Symbols, s[k]);
    }
    forall v | 0 <= v < Symbols
      ensures multiset(s)[v] == 2
    {
      FreshDeckCount(Symbols, v);
    }
  }

  lemma DealIsArrangement(s: seq<int>)
    requires IsDeal(s)
    ensures multiset(s) == multiset(FreshDeck(Symbols))
  {
    CountsDetermineDeck(s, Symbols);
  }

  lemma CountsDetermineDeck(s: seq<int>, n: nat)
    requires forall k :: 0 <= k < |s| ==> 0 <= s[k] < n
    requires forall v :: 0 <= v < n ==> multiset(s)[v] == 2
    ensures multiset(s) == multiset(FreshDeck(n))
  {
    forall v
      ensures multiset(s)[v] == multiset(FreshDeck(n))[v]
    {
      FreshDeckCount(n, v);
      if !(0 <= v < n) {
        assert v !in s;
      }
    }
  }

  /** s with the elements at i and j exchanged (the source's swap on a list). */
  function Swap(s: seq<int>, i: nat, j: nat): (t: seq<int>)
    requires i < |s| && j < |s|
    ensures |t| == |s|
  {
    s[i := s[j]][j := s[i]]
  }

  /** The random draws a shuffle of n cards consumes: the k-th draw is a
      uniformly chosen index below n - k, as Random.nextInt(n - k) returns. */
  predicate DrawsFor(n: nat, draws: seq<int>)
  {
    |draws| + 1 == n && forall k :: 0 <= k < |draws| ==> 0 <= draws[k] < n - k
  }

  /** The result of the shuffle's first |draws| steps: step k exchanges the card
      at position |s| - 1 - k with the one at position draws[k]. */
  function ShuffleSteps(s: seq<int>, draws: seq<int>): (t: seq<int>)
    requires |draws| < |s|
    requires forall k :: 0 <= k < |draws| ==> 0 <= draws[k] < |s| - k
    ensures |t| == |s|
    decreases |draws|
  {
    if draws == [] then s
    else
      var k := |draws| - 1;
      Swap(ShuffleSteps(s, draws[..k]), |s| - 1 - k, draws[k])
  }

  /** Shuffling only rearranges the cards: none is lost, none is added. */
  lemma {:induction false} ShufflePermutes(s: seq<int>, draws: seq<int>)
    requires |draws| < |s|
    requires forall k :: 0 <= k < |draws| ==> 0 <= draws[k] < |s| - k
    ensures multiset(ShuffleSteps(s, draws)) == multiset(s)
    decreases |draws|
  {
    if draws != [] {
      var k := |draws| - 1;
      var t := ShuffleSteps(s, draws[..k]);
      ShufflePermutes(s, draws[..k]);
      SwapPermutes(t, |s| - 1 - k, draws[k]);
    }
  }

  lemma SwapPermutes(s: seq<int>, i: nat, j: nat)
    requires i < |s| && j < |s|
    ensures multiset(Swap(s, i, j)) == multiset(s)
  {
    var t := s[i := s[j]];
    assert multiset(t) == multiset(s) - multiset{s[i]} + multiset{s[j]};
    assert multiset(t[j := s[i]]) == multiset(t) - multiset{t[j]} + multiset{s[i]};
  }

  /** The board layout for the given draws: the fresh deck of all symbols, shuffled. */
  function DealOf(draws: seq<int>): (d: seq<int>)
    requires DrawsFor(2 * Symbols, draws)
    ensures |d| == 2 * Symbols
  {
    FreshDeckCount(Symbols, 0);
    ShuffleSteps(FreshDeck(Symbols), draws)
  }

  /** Whatever the draws, the board receives 16 cards, every one a symbol
      in 0..7 and every symbol on exactly two of them. */
  lemma DealOfTwoOfEach(draws: seq<int>)
    requires DrawsFor(2 * Symbols, draws)
    ensures |DealOf(draws)| == 2 * Symbols
    ensures forall k :: 0 <= k < |DealOf(draws)| ==> 0 <= DealOf(draws)[k] < Symbols
    ensures forall v :: 0 <= v < Symbols ==> multiset(DealOf(draws))[v] == 2
  {
    FreshDeckCount(Symbols, 0);
    ShufflePermutes(FreshDeck(Symbols), draws);
    DealCharacterization(DealOf(draws));
  }

  /** Collections.shuffle, in place on the list of cards: for i from the
      length down to 2, exchange the card at i - 1 with a randomly drawn one
      below i. The random draws are the parameter. */
  method Shuffle(a: array<int>, draws: seq<int>)
    requires DrawsFor(a.Length, draws)
    modifies a
    ensures a[..] == ShuffleSteps(old(a[..]), draws)
  {
    var i := a.Length;
    while i > 1
      invariant 1 <= i <= a.Length
      invariant a[..] == ShuffleSteps(old(a[..]), draws[..a.Length - i])
    {
      var k := a.Length - i;
      var j := draws[k];
      assert draws[..k + 1][..k] == draws[..k];
      a[i - 1], a[j] := a[j], a[i - 1];
      i := i - 1;
    }
    assert draws[..a.Length - 1] == draws;
  }
}
