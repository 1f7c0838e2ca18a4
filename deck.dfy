/**
 * The draw pile and the discard pile: shuffling, reclaiming the discard
 * pile, drawing with reclaim, and choosing the first discard.
 */
module Deck {
  import opened Cards
  import opened Seqs

  /**
   * Fisher-Yates shuffle in place: for i from the last index down to 1,
   * swap a[i] with a[j] for some j in [0, i]. The random choice of j is
   * left open, so the contract holds for every choice.
   */
  method ShuffleDeck<T>(a: array<T>)
    modifies a
    ensures multiset(a[..]) == multiset(old(a[..]))
  {
    var i := a.Length - 1;
    while i > 0
      invariant i < a.Length
      invariant multiset(a[..]) == multiset(old(a[..]))
    {
      var j :| 0 <= j <= i;
      a[i], a[j] := a[j], a[i];
      i := i - 1;
    }
  }

  /** Shuffles a copy of `s`: the result is a permutation of `s`. */
  method ShuffleCopy<T>(s: seq<T>) returns (r: seq<T>)
    ensures |r| == |s|
    ensures multiset(r) == multiset(s)
  {
    var a := new T[|s|](i requires 0 <= i < |s| => s[i]);
    assert a[..] == s;
    ShuffleDeck(a);
    r := a[..];
  }

  /** The number of cards that can still be drawn: the deck and all of the discard pile but its top. */
  function Available(deck: seq<Card>, pile: seq<Card>): nat
  {
    |deck| + (if |pile| > 1 then |pile| - 1 else 0)
  }

  function Min(a: nat, b: nat): nat
  {
    if a <= b then a else b
  }

  /**
   * Moves every discard card except the top back into the deck and
   * shuffles the deck; a pile of at most one card is left alone.
   */
  method ReshuffleFromDiscard(deck: seq<Card>, pile: seq<Card>) returns (newDeck: seq<Card>, newPile: seq<Card>)
    ensures |pile| <= 1 ==> newDeck == deck && newPile == pile
    ensures |pile| > 1 ==> newPile == [pile[|pile| - 1]]
    ensures |pile| > 1 ==> multiset(newDeck) == multiset(deck) + multiset(pile[..|pile| - 1])
    ensures multiset(newDeck) + multiset(newPile) == multiset(deck) + multiset(pile)
    ensures Available(newDeck, newPile) == Available(deck, pile)
  {
    if |pile| <= 1 {
      return deck, pile;
    }
    var top := pile[|pile| - 1];
    var rest := pile[..|pile| - 1];
    newDeck := deck;
    while |rest| > 0
      invariant newDeck + rest == deck + pile[..|pile| - 1]
    {
      assert newDeck + rest == (newDeck + [rest[0]]) + rest[1..];
      newDeck := newDeck + [rest[0]];
      rest := rest[1..];
    }
    assert newDeck == deck + pile[..|pile| - 1];
    newPile := [top];
    newDeck := ShuffleCopy(newDeck);
    assert pile == pile[..|pile| - 1] + [top];
  }

  /**
   * The outcome of drawing `n` cards into `hand`, one at a time, reclaiming
   * the discard pile whenever the deck runs out: exactly
   * k = min(n, Available(deck, pile)) cards are added at the end of the hand,
   * no card is created or lost, and k cards fewer remain available. When
   * the deck alone suffices the cards are its first k and the discard pile
   * is untouched; otherwise the whole deck was drawn first and the discard
   * pile was reduced to its top card.
   */
  ghost predicate DrawOutcome(hand: seq<Card>, deck: seq<Card>, pile: seq<Card>, n: nat,
                              hand': seq<Card>, deck': seq<Card>, pile': seq<Card>)
  {
    var k := Min(n, Available(deck, pile));
    && |hand'| == |hand| + k
    && hand'[..|hand|] == hand
    && multiset(hand') + multiset(deck') + multiset(pile') == multiset(hand) + multiset(deck) + multiset(pile)
    && Available(deck', pile') == Available(deck, pile) - k
    && (k <= |deck| ==> hand' == hand + deck[..k] && deck' == deck[k..] && pile' == pile)
    && (k > |deck| ==> |pile| > 1 && pile' == [pile[|pile| - 1]] && hand'[..|hand| + |deck|] == hand + deck)
  }

  /**
   * One draw: reclaim the discard pile if the deck is empty, then move the
   * deck's first card to the end of the hand if there is one.
   */
  method DrawOne(hand: seq<Card>, deck: seq<Card>, pile: seq<Card>)
    returns (hand': seq<Card>, deck': seq<Card>, pile': seq<Card>)
    ensures DrawOutcome(hand, deck, pile, 1, hand', deck', pile')
  {
    hand', deck', pile' := hand, deck, pile;
    if |deck'| == 0 {
      deck', pile' := ReshuffleFromDiscard(deck', pile');
    }
    ghost var pool := multiset(deck') + multiset(pile');
    assert pool == multiset(deck) + multiset(pile);
    if |deck'| > 0 {
      var card := deck'[0];
      ghost var full := deck';
      assert full == [card] + full[1..];
      hand' := hand' + [card];
      deck' := deck'[1..];
      assert hand'[..|hand|] == hand;
      assert multiset(hand') + multiset(deck') + multiset(pile') == multiset(hand) + pool by {
        var H, H', D', P := multiset(hand), multiset(hand'), multiset(deck'), multiset(pile');
        assert H' == H + multiset{card};
        assert multiset(full) == multiset{card} + D';
        forall c ensures (H' + D' + P)[c] == (H + pool)[c] {
          assert (multiset(full) + P)[c] == pool[c];
        }
      }
      if |deck| > 0 {
        assert hand' == hand + deck[..1];
      }
    } else {
      assert hand' == hand + deck[..0];
    }
  }

  /** Drawing i cards and then one more is drawing i + 1 cards. */
  lemma {:induction false} DrawOutcomeStep(h0: seq<Card>, d0: seq<Card>, p0: seq<Card>, i: nat,
                                           h1: seq<Card>, d1: seq<Card>, p1: seq<Card>,
                                           h2: seq<Card>, d2: seq<Card>, p2: seq<Card>)
    requires DrawOutcome(h0, d0, p0, i, h1, d1, p1)
    requires DrawOutcome(h1, d1, p1, 1, h2, d2, p2)
    ensures DrawOutcome(h0, d0, p0, i + 1, h2, d2, p2)
  {
    var k := Min(i, Available(d0, p0));
    var k' := Min(1, Available(d1, p1));
    assert Min(i + 1, Available(d0, p0)) == k + k';
    assert |h2| == |h0| + k + k';
    assert h2[..|h0|] == h0 by {
      assert h2[..|h0|] == h2[..|h1|][..|h0|];
    }
    if k + k' <= |d0| {
      assert h2 == h0 + d0[..k + k'] && d2 == d0[k + k'..] && p2 == p0 by {
        assert k' <= |d1|;
        assert d0[..k + k'] == d0[..k] + d0[k..][..k'];
        assert d0[k + k'..] == d0[k..][k'..];
      }
    } else if k > |d0| {
      assert |p0| > 1 && p2 == [p0[|p0| - 1]] && h2[..|h0| + |d0|] == h0 + d0 by {
        assert |p1| == 1 && k' <= |d1|;
        assert h2[..|h0| + |d0|] == h2[..|h1|][..|h0| + |d0|];
      }
    } else {
      assert |p0| > 1 && p2 == [p0[|p0| - 1]] && h2[..|h0| + |d0|] == h0 + d0 by {
        assert k == |d0| && k' == 1 && d1 == [] && p1 == p0;
        assert h2[..|h0| + |d0|] == h2[..|h1|];
      }
    }
  }

  /**
   * The forced-draw loop: n times, reclaim the discard pile if the deck is
   * empty, then move the deck's first card to the end of the hand if there
   * is one.
   */
  method DrawCards(hand: seq<Card>, deck: seq<Card>, pile: seq<Card>, n: nat)
    returns (hand': seq<Card>, deck': seq<Card>, pile': seq<Card>)
    ensures DrawOutcome(hand, deck, pile, n, hand', deck', pile')
  {
    hand', deck', pile' := hand, deck, pile;
    assert deck[..0] == [] && deck[0..] == deck;
    for i := 0 to n
      invariant DrawOutcome(hand, deck, pile, i, hand', deck', pile')
    {
      var h, d, p := DrawOne(hand', deck', pile');
      DrawOutcomeStep(hand, deck, pile, i, hand', deck', pile', h, d, p);
      hand', deck', pile' := h, d, p;
    }
  }

  /** Drawing keeps the discard pile's top card, and a non-empty pile stays non-empty. */
  lemma DrawKeepsTop(hand: seq<Card>, deck: seq<Card>, pile: seq<Card>, n: nat,
                     hand': seq<Card>, deck': seq<Card>, pile': seq<Card>)
    requires DrawOutcome(hand, deck, pile, n, hand', deck', pile')
    requires |pile| > 0
    ensures |pile'| > 0 && pile'[|pile'| - 1] == pile[|pile| - 1]
  {
    if Min(n, Available(deck, pile)) <= |deck| {
      assert pile' == pile;
    }
  }

  /** A number card (the only kind that may open the discard pile). */
  predicate IsNumberCard(card: Card)
  {
    card.face.Number?
  }

  /**
   * `first` is the card that opens the discard pile and `rest` the deck
   * left behind: the first number card of `deck`, taken out with the other
   * cards kept in order, or the deck's first card when it holds no number
   * card.
   */
  ghost predicate FirstDiscard(deck: seq<Card>, first: Card, rest: seq<Card>)
  {
    && |deck| > 0
    && (if exists i | 0 <= i < |deck| :: IsNumberCard(deck[i]) then
          exists k | 0 <= k < |deck| ::
            && deck[k] == first && IsNumberCard(first) && rest == RemoveAt(deck, k)
            && forall j | 0 <= j < k :: !IsNumberCard(deck[j])
        else
          first == deck[0] && rest == RemoveAt(deck, 0))
  }

  /** The opening discard is a number card exactly when the deck holds one. */
  lemma FirstDiscardIsNumber(deck: seq<Card>, first: Card, rest: seq<Card>)
    requires FirstDiscard(deck, first, rest)
    ensures IsNumberCard(first) <==> exists i | 0 <= i < |deck| :: IsNumberCard(deck[i])
  {
    if !exists i | 0 <= i < |deck| :: IsNumberCard(deck[i]) {
      assert first == deck[0];
    }
  }

  /** Taking the opening discard out of the deck conserves the deck's cards. */
  lemma FirstDiscardConserves(deck: seq<Card>, first: Card, rest: seq<Card>)
    requires FirstDiscard(deck, first, rest)
    ensures multiset(rest) + multiset{first} == multiset(deck)
  {
    if exists i | 0 <= i < |deck| :: IsNumberCard(deck[i]) {
      var k :| 0 <= k < |deck| && deck[k] == first && rest == RemoveAt(deck, k);
    }
  }

  /** The opening discard and the deck left behind are determined by the deck. */
  lemma FirstDiscardUnique(deck: seq<Card>, first: Card, rest: seq<Card>, first': Card, rest': seq<Card>)
    requires FirstDiscard(deck, first, rest) && FirstDiscard(deck, first', rest')
    ensures first == first' && rest == rest'
  {
    if exists i | 0 <= i < |deck| :: IsNumberCard(deck[i]) {
      var k :| 0 <= k < |deck| && deck[k] == first && IsNumberCard(first) && rest == RemoveAt(deck, k)
               && forall j | 0 <= j < k :: !IsNumberCard(deck[j]);
      var k' :| 0 <= k' < |deck| && deck[k'] == first' && IsNumberCard(first') && rest' == RemoveAt(deck, k')
                && forall j | 0 <= j < k' :: !IsNumberCard(deck[j]);
      assert k == k';
    }
  }

  /**
   * Takes the first number card out of the deck; when there is none, takes
   * the deck's first card instead.
   */
  method FindFirstDiscard(deck: seq<Card>) returns (first: Card, rest: seq<Card>)
    requires |deck| > 0
    ensures FirstDiscard(deck, first, rest)
    ensures multiset(rest) + multiset{first} == multiset(deck)
  {
    for i := 0 to |deck|
      invariant forall j | 0 <= j < i :: !IsNumberCard(deck[j])
    {
      if IsNumberCard(deck[i]) {
        first, rest := deck[i], RemoveAt(deck, i);
        return;
      }
    }
    first, rest := deck[0], RemoveAt(deck, 0);
  }
}
