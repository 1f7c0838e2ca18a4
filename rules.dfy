/**
 * The shared room document and the rules of the game stated over it: the
 * invariant every reachable room satisfies, and what each move does to
 * the room, as relations between the room before and after the move.
 */
module Rules {
  import opened Optional
  import opened Cards
  import opened Deck
  import opened Turns
  import opened Seqs

  type PlayerId = string

  datatype Status = Waiting | Playing | Finished

  /** A snapshot of the room document every client reads and writes. */
  datatype Room = Room(
    status: Status,
    deck: seq<Card>,
    discardPile: seq<Card>,
    hands: map<PlayerId, seq<Card>>,
    playerOrder: seq<PlayerId>,
    direction: int,
    currentTurn: Option<PlayerId>,
    currentColor: Option<Color>,
    winner: Option<PlayerId>,
    eliminated: set<PlayerId>,
    dunoCalled: set<PlayerId>)

  /** `players[p]?.hand || []`: a player without a stored hand holds no cards. */
  function HandOf(hands: map<PlayerId, seq<Card>>, p: PlayerId): seq<Card>
  {
    if p in hands then hands[p] else []
  }

  /** The cards held by the players `ps`, together. */
  ghost function HandsPool(hands: map<PlayerId, seq<Card>>, ps: seq<PlayerId>): multiset<Card>
  {
    if ps == [] then multiset{} else HandsPool(hands, ps[..|ps| - 1]) + multiset(HandOf(hands, ps[|ps| - 1]))
  }

  /** Every card in the room: deck, discard pile and the hands of everyone in the room. */
  ghost function Pool(r: Room, roster: seq<PlayerId>): multiset<Card>
  {
    multiset(r.deck) + multiset(r.discardPile) + HandsPool(r.hands, roster)
  }

  /** The top of the discard pile. */
  function Top(pile: seq<Card>): Card
    requires |pile| > 0
  {
    pile[|pile| - 1]
  }

  /**
   * The invariant of the room document, for the players `roster` in the
   * room: a direction of 1 or -1, a hand entry for exactly the players in
   * the room, no cards at all in the lobby and exactly one full deck once a
   * game has been dealt, and during play an order of at least two distinct
   * players in the room, a turn held by one of them, a non-empty discard
   * pile and an active colour; a finished game has a winner from the room.
   */
  ghost predicate Consistent(r: Room, roster: seq<PlayerId>)
  {
    && NoDup(roster)
    && (r.direction == 1 || r.direction == -1)
    && (forall p :: p in r.hands <==> p in roster)
    && (r.status == Waiting ==> Pool(r, roster) == multiset{})
    && (r.status != Waiting ==> IsFullDeck(Pool(r, roster)))
    && (r.status == Playing ==>
          && |r.playerOrder| >= 2
          && NoDup(r.playerOrder)
          && (forall p | p in r.playerOrder :: p in roster)
          && r.currentTurn.Some? && r.currentTurn.value in r.playerOrder
          && |r.discardPile| > 0
          && r.currentColor.Some?)
    && (r.status == Finished ==> r.winner.Some? && r.winner.value in roster)
  }

  // ---------------------------------------------------------------------
  // Hands
  // ---------------------------------------------------------------------

  lemma {:induction false} HandsPoolFrame(h1: map<PlayerId, seq<Card>>, h2: map<PlayerId, seq<Card>>, ps: seq<PlayerId>)
    requires forall p | p in ps :: HandOf(h1, p) == HandOf(h2, p)
    ensures HandsPool(h1, ps) == HandsPool(h2, ps)
  {
    if ps != [] {
      var init := ps[..|ps| - 1];
      assert forall p | p in init :: p in ps;
      HandsPoolFrame(h1, h2, init);
    }
  }

  /** Replacing one player's hand swaps that hand's cards for the new ones in the pool. */
  lemma {:induction false} HandsPoolUpdate(hands: map<PlayerId, seq<Card>>, ps: seq<PlayerId>, p: PlayerId, h: seq<Card>)
    requires NoDup(ps) && p in ps
    ensures HandsPool(hands[p := h], ps) + multiset(HandOf(hands, p)) == HandsPool(hands, ps) + multiset(h)
  {
    var init, last := ps[..|ps| - 1], ps[|ps| - 1];
    assert ps == init + [last];
    if last == p {
      assert p !in init;
      HandsPoolFrame(hands[p := h], hands, init);
    } else {
      assert p in init;
      assert NoDup(init);
      HandsPoolUpdate(hands, init, p, h);
      var other := multiset(HandOf(hands, last));
      assert HandOf(hands[p := h], last) == HandOf(hands, last);
      assert HandsPool(hands[p := h], ps) == HandsPool(hands[p := h], init) + other;
      assert HandsPool(hands, ps) == HandsPool(hands, init) + other;
      var a, b := HandsPool(hands[p := h], init), HandsPool(hands, init);
      var o, n := multiset(HandOf(hands, p)), multiset(h);
      forall c ensures (a + other + o)[c] == (b + other + n)[c] {
        assert (a + o)[c] == (b + n)[c];
      }
    }
  }

  /**
   * Swapping one player's hand while the deck and the discard pile change
   * conserves the cards of the whole room if the hand, deck and pile
   * together conserve them.
   */
  lemma PoolSwap(hands: map<PlayerId, seq<Card>>, ps: seq<PlayerId>, p: PlayerId, h: seq<Card>,
                 deck: seq<Card>, pile: seq<Card>, deck': seq<Card>, pile': seq<Card>)
    requires NoDup(ps) && p in ps
    requires multiset(h) + multiset(deck') + multiset(pile') == multiset(HandOf(hands, p)) + multiset(deck) + multiset(pile)
    ensures multiset(deck') + multiset(pile') + HandsPool(hands[p := h], ps) ==
            multiset(deck) + multiset(pile) + HandsPool(hands, ps)
  {
    HandsPoolUpdate(hands, ps, p, h);
    var before, after := HandsPool(hands, ps), HandsPool(hands[p := h], ps);
    var old_, new_ := multiset(HandOf(hands, p)), multiset(h);
    forall c ensures (multiset(deck') + multiset(pile') + after)[c] == (multiset(deck) + multiset(pile) + before)[c] {
      assert (after + old_)[c] == (before + new_)[c];
      assert (new_ + multiset(deck') + multiset(pile'))[c] == (old_ + multiset(deck) + multiset(pile))[c];
    }
  }

  lemma {:induction false} HandsPoolEmpty(hands: map<PlayerId, seq<Card>>, ps: seq<PlayerId>)
    requires forall p | p in ps :: HandOf(hands, p) == []
    ensures HandsPool(hands, ps) == multiset{}
  {
    if ps != [] {
      var init := ps[..|ps| - 1];
      assert forall p | p in init :: p in ps;
      HandsPoolEmpty(hands, init);
    }
  }

  // ---------------------------------------------------------------------
  // Starting and resetting a game
  // ---------------------------------------------------------------------

  /** The hands were dealt from `s` seven cards at a time, in the order of `roster`. */
  ghost predicate Dealt(s: seq<Card>, hands: map<PlayerId, seq<Card>>, roster: seq<PlayerId>)
  {
    && 7 * |roster| <= |s|
    && forall k | 0 <= k < |roster| :: HoldsBlock(s, hands, roster[k], k)
  }

  /** Player `p` holds the k-th block of seven cards of `s`. */
  ghost predicate HoldsBlock(s: seq<Card>, hands: map<PlayerId, seq<Card>>, p: PlayerId, k: nat)
  {
    7 * k + 7 <= |s| && HandOf(hands, p) == s[7 * k..7 * k + 7]
  }

  /** Dealing hands out exactly the first seven cards per player. */
  lemma {:induction false} DealtPool(s: seq<Card>, hands: map<PlayerId, seq<Card>>, roster: seq<PlayerId>)
    requires Dealt(s, hands, roster)
    ensures HandsPool(hands, roster) == multiset(s[..7 * |roster|])
  {
    if roster != [] {
      var n := |roster|;
      var init := roster[..n - 1];
      assert Dealt(s, hands, init) by {
        assert |init| == n - 1 && 7 * (n - 1) <= 7 * n;
        forall k | 0 <= k < |init| ensures HoldsBlock(s, hands, init[k], k) {
          assert init[k] == roster[k];
          assert HoldsBlock(s, hands, roster[k], k);
        }
      }
      DealtPool(s, hands, init);
      var m := 7 * (n - 1);
      assert 7 * |init| == m;
      assert HandsPool(hands, roster[..|roster| - 1]) == multiset(s[..m]);
      assert HoldsBlock(s, hands, roster[n - 1], n - 1);
      assert HandOf(hands, roster[|roster| - 1]) == s[m..m + 7];
      DealtOneMore(s, hands, roster, m);
      assert 7 * |roster| == m + 7;
      assert s[..7 * |roster|] == s[..m + 7];
    } else {
      assert s[..0] == [];
    }
  }

  /** The last player's hand of the next seven cards extends the dealt prefix by those cards. */
  lemma DealtOneMore(s: seq<Card>, hands: map<PlayerId, seq<Card>>, ps: seq<PlayerId>, m: nat)
    requires |ps| > 0 && m + 7 <= |s|
    requires HandsPool(hands, ps[..|ps| - 1]) == multiset(s[..m])
    requires HandOf(hands, ps[|ps| - 1]) == s[m..m + 7]
    ensures HandsPool(hands, ps) == multiset(s[..m + 7])
  {
    assert s[..m + 7] == s[..m] + s[m..m + 7];
  }

  /**
   * Room `r'` is a freshly started game for the players `roster`, dealt
   * from the shuffled deck `s`: seven cards each in roster order, the first
   * number card of the rest (or its first card if it has none) opens the
   * discard pile and sets the colour, the order is a shuffle of the roster,
   * the first player in it moves first, clockwise, and nobody has called
   * the last card.
   */
  ghost predicate StartResolved(r: Room, r': Room, roster: seq<PlayerId>, s: seq<Card>)
  {
    && IsFullDeck(multiset(s))
    && Dealt(s, r'.hands, roster)
    && (forall p :: p in r'.hands <==> p in roster)
    && |r'.discardPile| == 1
    && var rest := s[7 * |roster|..];
       && FirstDiscard(rest, r'.discardPile[0], r'.deck)
       && r'.status == Playing
       && multiset(r'.playerOrder) == multiset(roster)
       && |r'.playerOrder| > 0
       && r'.currentTurn == Some(r'.playerOrder[0])
       && r'.direction == 1
       && r'.currentColor == Some(r'.discardPile[0].color)
       && r'.winner == r.winner
       && r'.eliminated == r.eliminated
       && r'.dunoCalled == {}
  }

  /** The cards of a freshly dealt room are exactly those of the shuffled deck. */
  lemma DealConservesCards(s: seq<Card>, deck: seq<Card>, pile: seq<Card>, hands: map<PlayerId, seq<Card>>, roster: seq<PlayerId>)
    requires Dealt(s, hands, roster)
    requires multiset(deck) + multiset(pile) == multiset(s[7 * |roster|..])
    ensures multiset(deck) + multiset(pile) + HandsPool(hands, roster) == multiset(s)
  {
    var n := |roster|;
    DealtPool(s, hands, roster);
    assert s == s[..7 * n] + s[7 * n..];
  }

  /** A shuffle of the roster is an order of distinct players from the room, as many as the roster. */
  lemma ShuffledOrder(roster: seq<PlayerId>, order: seq<PlayerId>)
    requires NoDup(roster) && multiset(order) == multiset(roster)
    ensures NoDup(order) && |order| == |roster|
    ensures forall p | p in order :: p in roster
  {
    PermutationKeepsNoDup(roster, order);
    assert |order| == |multiset(order)| == |roster|;
    forall p | p in order ensures p in roster {
      assert p in multiset(order);
    }
  }

  /** Starting a game with two or more players produces a consistent room holding one full deck. */
  lemma StartKeepsConsistent(r: Room, r': Room, roster: seq<PlayerId>, s: seq<Card>)
    requires NoDup(roster) && |roster| >= 2
    requires StartResolved(r, r', roster, s)
    ensures Consistent(r', roster)
    ensures forall p | p in roster :: |HandOf(r'.hands, p)| == 7
  {
    assert Pool(r', roster) == multiset(s) by {
      FirstDiscardConserves(s[7 * |roster|..], r'.discardPile[0], r'.deck);
      assert r'.discardPile == [r'.discardPile[0]];
      DealConservesCards(s, r'.deck, r'.discardPile, r'.hands, roster);
    }
    assert NoDup(r'.playerOrder) && |r'.playerOrder| >= 2 && forall p | p in r'.playerOrder :: p in roster by {
      ShuffledOrder(roster, r'.playerOrder);
    }
    assert r'.playerOrder[0] in r'.playerOrder;
    forall p | p in roster ensures |HandOf(r'.hands, p)| == 7 {
      var k :| 0 <= k < |roster| && roster[k] == p;
      assert HoldsBlock(s, r'.hands, roster[k], k);
    }
  }

  /**
   * Room `r'` is room `r` sent back to the lobby: no deck, discard pile,
   * order, turn, colour or winner, clockwise again, every hand empty and
   * every last-card call cleared.
   */
  ghost predicate ResetResolved(r: Room, r': Room, roster: seq<PlayerId>)
  {
    && r'.status == Waiting
    && r'.deck == [] && r'.discardPile == [] && r'.playerOrder == []
    && r'.currentTurn == None && r'.currentColor == None && r'.winner == None
    && r'.direction == 1
    && (forall p :: p in r'.hands <==> p in roster)
    && (forall p | p in roster :: r'.hands[p] == [])
    && r'.eliminated == r.eliminated
    && r'.dunoCalled == {}
  }

  /** Resetting keeps the room consistent: the lobby holds no cards. */
  lemma ResetKeepsConsistent(r: Room, r': Room, roster: seq<PlayerId>)
    requires Consistent(r, roster) && ResetResolved(r, r', roster)
    ensures Consistent(r', roster)
    ensures Pool(r', roster) == multiset{}
  {
    HandsPoolEmpty(r'.hands, roster);
  }

  // ---------------------------------------------------------------------
  // Playing a card
  // ---------------------------------------------------------------------

  /** The new direction: a reverse flips it. */
  function DirectionAfter(face: Face, direction: int): int
  {
    if face == Reverse then -direction else direction
  }

  /**
   * How many seats the turn moves: two for skip, draw-two and wild-draw-four
   * (the next player is passed over), and for a reverse between two players;
   * one otherwise.
   */
  function SkipCount(face: Face, players: nat): nat
  {
    match face
    case Skip => 2
    case Draw2 => 2
    case WildDraw4 => 2
    case Reverse => if players == 2 then 2 else 1
    case _ => 1
  }

  /** How many cards the next player is forced to draw. */
  function DrawPenalty(face: Face): nat
  {
    if face == Draw2 then 2 else if face == WildDraw4 then 4 else 0
  }

  /** The player `steps` seats after `me` in the current direction. */
  function SeatAfter(r: Room, me: PlayerId, direction: int, steps: int): PlayerId
    requires |r.playerOrder| > 0
  {
    r.playerOrder[NextPlayerIndex(r.playerOrder, IndexOf(r.playerOrder, me), direction, steps)]
  }

  /**
   * It is `me`'s turn in a game in progress, with what every move relies
   * on: `me` in an order of two or more distinct players, a direction of
   * plus or minus one, a discard pile and an active colour. A consistent
   * room whose turn is `me`'s satisfies it.
   */
  predicate TurnHeld(r: Room, me: PlayerId)
  {
    && r.status == Playing && r.currentTurn == Some(me)
    && me in r.playerOrder && NoDup(r.playerOrder) && |r.playerOrder| >= 2
    && (r.direction == 1 || r.direction == -1)
    && |r.discardPile| > 0 && r.currentColor.Some?
  }

  /**
   * Whether `me` may play the card at `cardIndex` in room `r`: it is their
   * turn in a game in progress, the index is in the hand, and the card is
   * playable on the top of the discard pile in the active colour.
   */
  predicate PlayAllowed(r: Room, me: PlayerId, cardIndex: int)
  {
    && r.status == Playing
    && r.currentTurn == Some(me)
    && 0 <= cardIndex < |HandOf(r.hands, me)|
    && |r.discardPile| > 0
    && r.currentColor.Some?
    && IsPlayable(HandOf(r.hands, me)[cardIndex], Top(r.discardPile), r.currentColor.value)
  }

  /**
   * Room `r'` is room `r` after `me` plays the card at `cardIndex` with
   * active colour `chosenColor`: the card leaves the hand and tops the
   * discard pile; a draw-two or wild-draw-four makes the next player draw
   * (reclaiming the discard pile when the deck runs out); a reverse flips
   * the direction; the turn moves on by `SkipCount` seats from `me`; an
   * emptied hand finishes the game with `me` as the winner.
   */
  ghost predicate PlayResolved(r: Room, r': Room, me: PlayerId, cardIndex: int, chosenColor: Color)
  {
    var hand := HandOf(r.hands, me);
    && CardsAfterPlay(r, me, cardIndex, r'.deck, r'.discardPile, r'.hands)
    && 0 <= cardIndex < |hand|
    && |r.playerOrder| > 0
    && var card := hand[cardIndex];
       var rest := RemoveAt(hand, cardIndex);
       var direction := DirectionAfter(card.face, r.direction);
       && r'.direction == direction
       && r'.currentColor == Some(chosenColor)
       && r'.currentTurn == Some(SeatAfter(r, me, direction, SkipCount(card.face, |r.playerOrder|)))
       && r'.playerOrder == r.playerOrder
       && r'.status == (if |rest| == 0 then Finished else r.status)
       && r'.winner == (if |rest| == 0 then Some(me) else r.winner)
       && r'.eliminated == r.eliminated
       && r'.dunoCalled == r.dunoCalled
  }

  /**
   * The cards after `me` plays the card at `cardIndex`: the rest of the
   * hand stays with `me`, the card goes on the discard pile, and for a
   * draw-two or wild-draw-four the next player draws from the deck,
   * reclaiming the discard pile when the deck runs out.
   */
  ghost predicate CardsAfterPlay(r: Room, me: PlayerId, cardIndex: int,
                                 deck': seq<Card>, pile': seq<Card>, hands': map<PlayerId, seq<Card>>)
  {
    var hand := HandOf(r.hands, me);
    && 0 <= cardIndex < |hand|
    && |r.playerOrder| > 0
    && var card := hand[cardIndex];
       var rest := RemoveAt(hand, cardIndex);
       var pile := r.discardPile + [card];
       var target := SeatAfter(r, me, r.direction, 1);
       var n := DrawPenalty(card.face);
       && (n == 0 ==> deck' == r.deck && pile' == pile && hands' == r.hands[me := rest])
       && (n > 0 ==>
             && DrawOutcome(HandOf(r.hands, target), r.deck, pile, n, HandOf(hands', target), deck', pile')
             && hands' == r.hands[target := HandOf(hands', target)][me := rest])
  }

  /** During play, the player holding the turn sits in the order and the next seat is someone else. */
  lemma NextSeatIsAnother(r: Room, roster: seq<PlayerId>, me: PlayerId)
    requires Consistent(r, roster) && r.status == Playing && r.currentTurn == Some(me)
    ensures 0 <= IndexOf(r.playerOrder, me) < |r.playerOrder|
    ensures SeatAfter(r, me, r.direction, 1) != me
    ensures SeatAfter(r, me, r.direction, 1) in roster
  {
    SeatAfterIsAnother(r, me);
  }

  /** The player one seat on from the player whose turn it is is another player. */
  lemma SeatAfterIsAnother(r: Room, me: PlayerId)
    requires TurnHeld(r, me)
    ensures SeatAfter(r, me, r.direction, 1) != me
  {
    var i := IndexOf(r.playerOrder, me);
    NextSeatDiffers(r.playerOrder, i, r.direction);
  }

  /** Taking `card` out of one player's hand takes exactly that card out of the hands. */
  lemma HandOutCard(hands: map<PlayerId, seq<Card>>, roster: seq<PlayerId>, p: PlayerId, rest: seq<Card>, card: Card)
    requires NoDup(roster) && p in roster
    requires multiset(rest) + multiset{card} == multiset(HandOf(hands, p))
    ensures HandsPool(hands[p := rest], roster) + multiset{card} == HandsPool(hands, roster)
  {
    HandsPoolUpdate(hands, roster, p, rest);
    var before, after, hand := HandsPool(hands, roster), HandsPool(hands[p := rest], roster), HandOf(hands, p);
    forall c ensures (after + multiset{card})[c] == before[c] {
      assert (after + multiset(hand))[c] == (before + multiset(rest))[c];
      assert (multiset(rest) + multiset{card})[c] == multiset(hand)[c];
    }
  }

  /** A play moves cards between hand, deck and discard pile but never creates or loses one. */
  lemma PlayConservesCards(r: Room, roster: seq<PlayerId>, me: PlayerId, cardIndex: int,
                           deck': seq<Card>, pile': seq<Card>, hands': map<PlayerId, seq<Card>>)
    requires NoDup(roster) && me in roster
    requires CardsAfterPlay(r, me, cardIndex, deck', pile', hands')
    requires SeatAfter(r, me, r.direction, 1) != me && SeatAfter(r, me, r.direction, 1) in roster
    ensures multiset(deck') + multiset(pile') + HandsPool(hands', roster) == Pool(r, roster)
  {
    var hand := HandOf(r.hands, me);
    var card := hand[cardIndex];
    var rest := RemoveAt(hand, cardIndex);
    var target := SeatAfter(r, me, r.direction, 1);
    if DrawPenalty(card.face) == 0 {
      CardOnPileConserves(r.hands, roster, me, rest, card, r.deck, r.discardPile, hands');
    } else {
      CardAndDrawConserve(r.hands, roster, me, target, rest, card, r.deck, r.discardPile, deck', pile', hands');
    }
  }

  /** Moving one card from a hand to the discard pile keeps the room's cards. */
  lemma CardOnPileConserves(hands: map<PlayerId, seq<Card>>, roster: seq<PlayerId>, me: PlayerId,
                            rest: seq<Card>, card: Card, deck: seq<Card>, discard: seq<Card>,
                            hands': map<PlayerId, seq<Card>>)
    requires NoDup(roster) && me in roster
    requires multiset(rest) + multiset{card} == multiset(HandOf(hands, me))
    requires hands' == hands[me := rest]
    ensures multiset(deck) + multiset(discard + [card]) + HandsPool(hands', roster) ==
            multiset(deck) + multiset(discard) + HandsPool(hands, roster)
  {
    var HP, HP' := HandsPool(hands, roster), HandsPool(hands', roster);
    HandOutCard(hands, roster, me, rest, card);
    assert multiset(discard + [card]) == multiset(discard) + multiset{card};
    forall c ensures (multiset(deck) + multiset(discard + [card]) + HP')[c] == (multiset(deck) + multiset(discard) + HP)[c] {
      assert (HP' + multiset{card})[c] == HP[c];
    }
  }

  /**
   * Moving one card from a hand to the discard pile, then a draw by another
   * player that conserves hand, deck and pile, keeps the room's cards.
   */
  lemma CardAndDrawConserve(hands: map<PlayerId, seq<Card>>, roster: seq<PlayerId>, me: PlayerId, target: PlayerId,
                            rest: seq<Card>, card: Card, deck: seq<Card>, discard: seq<Card>,
                            deck': seq<Card>, pile': seq<Card>, hands': map<PlayerId, seq<Card>>)
    requires NoDup(roster) && me in roster && target in roster && target != me
    requires multiset(rest) + multiset{card} == multiset(HandOf(hands, me))
    requires multiset(HandOf(hands', target)) + multiset(deck') + multiset(pile') ==
             multiset(HandOf(hands, target)) + multiset(deck) + multiset(discard + [card])
    requires hands' == hands[target := HandOf(hands', target)][me := rest]
    ensures multiset(deck') + multiset(pile') + HandsPool(hands', roster) ==
            multiset(deck) + multiset(discard) + HandsPool(hands, roster)
  {
    var pile := discard + [card];
    var D, P, HP := multiset(deck), multiset(discard), HandsPool(hands, roster);
    var D', P', HP' := multiset(deck'), multiset(pile'), HandsPool(hands', roster);
    var h1 := hands[target := HandOf(hands', target)];
    var HP1 := HandsPool(h1, roster);
    assert multiset(pile) == P + multiset{card};
    assert D' + P' + HP1 == D + multiset(pile) + HP by {
      PoolSwap(hands, roster, target, HandOf(hands', target), deck, pile, deck', pile');
    }
    assert HP' + multiset{card} == HP1 by {
      assert HandOf(h1, me) == HandOf(hands, me);
      HandOutCard(h1, roster, me, rest, card);
    }
    forall c ensures (D' + P' + HP')[c] == (D + P + HP)[c] {
      assert (D' + P' + HP1)[c] == (D + multiset(pile) + HP)[c];
      assert (HP' + multiset{card})[c] == HP1[c];
    }
  }

  /** A play keeps the room consistent. */
  lemma PlayKeepsConsistent(r: Room, r': Room, roster: seq<PlayerId>, me: PlayerId, cardIndex: int, chosenColor: Color)
    requires Consistent(r, roster) && r.status == Playing && r.currentTurn == Some(me)
    requires PlayResolved(r, r', me, cardIndex, chosenColor)
    ensures Consistent(r', roster)
  {
    NextSeatIsAnother(r, roster, me);
    assert Pool(r', roster) == Pool(r, roster) by {
      PlayConservesCards(r, roster, me, cardIndex, r'.deck, r'.discardPile, r'.hands);
    }
    assert |r'.discardPile| > 0 by {
      PlayedCardTopsDiscard(r, r', roster, me, cardIndex, chosenColor);
    }
  }

  /**
   * The played card ends on top of the discard pile and leaves the hand:
   * the hand keeps every other card and the cards on the discard pile
   * below it stay in place unless the pile was reclaimed for a forced draw.
   */
  lemma PlayedCardTopsDiscard(r: Room, r': Room, roster: seq<PlayerId>, me: PlayerId, cardIndex: int, chosenColor: Color)
    requires Consistent(r, roster) && r.status == Playing && r.currentTurn == Some(me)
    requires PlayResolved(r, r', me, cardIndex, chosenColor)
    ensures |r'.discardPile| > 0 && Top(r'.discardPile) == HandOf(r.hands, me)[cardIndex]
    ensures multiset(HandOf(r'.hands, me)) + multiset{HandOf(r.hands, me)[cardIndex]} == multiset(HandOf(r.hands, me))
  {
    NextSeatIsAnother(r, roster, me);
    var card := HandOf(r.hands, me)[cardIndex];
    var pile := r.discardPile + [card];
    var n := DrawPenalty(card.face);
    if n > 0 {
      var target := SeatAfter(r, me, r.direction, 1);
      DrawKeepsTop(HandOf(r.hands, target), r.deck, pile, n, HandOf(r'.hands, target), r'.deck, r'.discardPile);
    }
  }

  /** Between two players a reverse flips the direction and leaves the turn with the player who played it. */
  lemma ReverseBetweenTwoKeepsTurn(r: Room, r': Room, roster: seq<PlayerId>, me: PlayerId, cardIndex: int, chosenColor: Color)
    requires Consistent(r, roster) && r.status == Playing && r.currentTurn == Some(me)
    requires PlayResolved(r, r', me, cardIndex, chosenColor)
    requires HandOf(r.hands, me)[cardIndex].face == Reverse && |r.playerOrder| == 2
    ensures r'.direction == -r.direction
    ensures r'.currentTurn == Some(me)
  {
    var i := IndexOf(r.playerOrder, me);
    TwoPlayersSkipTwoReturns(r.playerOrder, i, -r.direction);
  }

  /**
   * A draw-two or wild-draw-four gives the next player min(n, available)
   * more cards, and that player does not get the turn.
   */
  lemma ForcedDrawTargetLosesTurn(r: Room, r': Room, roster: seq<PlayerId>, me: PlayerId, cardIndex: int, chosenColor: Color)
    requires Consistent(r, roster) && r.status == Playing && r.currentTurn == Some(me)
    requires PlayResolved(r, r', me, cardIndex, chosenColor)
    requires DrawPenalty(HandOf(r.hands, me)[cardIndex].face) > 0
    ensures var target := SeatAfter(r, me, r.direction, 1);
            var n := DrawPenalty(HandOf(r.hands, me)[cardIndex].face);
            |HandOf(r'.hands, target)| ==
              |HandOf(r.hands, target)| + Min(n, Available(r.deck, r.discardPile + [HandOf(r.hands, me)[cardIndex]]))
    ensures r'.currentTurn != Some(SeatAfter(r, me, r.direction, 1))
  {
    var order := r.playerOrder;
    var i := IndexOf(order, me);
    var a := NextPlayerIndex(order, i, r.direction, 1);
    var b := NextPlayerIndex(order, i, r.direction, 2);
    if |order| >= 3 {
      OneAndTwoSeatsDiffer(order, i, r.direction);
    } else {
      TwoPlayersSkipTwoReturns(order, i, r.direction);
      NextSeatDiffers(order, i, r.direction);
    }
    assert order[a] != order[b];
  }

  // ---------------------------------------------------------------------
  // Drawing a card
  // ---------------------------------------------------------------------

  /**
   * Room `r'` is room `r` after `me` draws on their turn: with nothing left
   * to draw nothing changes; otherwise one card is drawn as in a forced
   * draw, and the turn passes to the next seat exactly when the drawn card
   * cannot be played.
   */
  ghost predicate DrawResolved(r: Room, r': Room, me: PlayerId)
  {
    var hand := HandOf(r.hands, me);
    && |r.playerOrder| > 0
    && (Available(r.deck, r.discardPile) == 0 ==> r' == r)
    && (Available(r.deck, r.discardPile) > 0 ==>
          && DrawOutcome(hand, r.deck, r.discardPile, 1, HandOf(r'.hands, me), r'.deck, r'.discardPile)
          && |r'.discardPile| > 0
          && r.currentColor.Some?
          && r'.hands == r.hands[me := HandOf(r'.hands, me)]
          && (var drawn := HandOf(r'.hands, me)[|hand|];
              r'.currentTurn ==
                (if IsPlayable(drawn, Top(r'.discardPile), r.currentColor.value) then r.currentTurn
                 else Some(SeatAfter(r, me, r.direction, 1))))
          && r'.status == r.status && r'.playerOrder == r.playerOrder && r'.direction == r.direction
          && r'.currentColor == r.currentColor && r'.winner == r.winner
          && r'.eliminated == r.eliminated && r'.dunoCalled == r.dunoCalled)
  }

  /**
   * A drawn card that is played on or passes the turn, as `DrawResolved`
   * describes, in terms of the hand, deck and pile after the draw.
   */
  lemma DrawnCardDecidesTurn(r: Room, r': Room, me: PlayerId, hand': seq<Card>, deck': seq<Card>, pile': seq<Card>)
    requires |r.playerOrder| > 0 && r.currentColor.Some?
    requires DrawOutcome(HandOf(r.hands, me), r.deck, r.discardPile, 1, hand', deck', pile')
    requires |hand'| > |HandOf(r.hands, me)| && |pile'| > 0
    requires r' == r.(hands := r.hands[me := hand'], deck := deck', discardPile := pile',
                      currentTurn := if IsPlayable(hand'[|hand'| - 1], Top(pile'), r.currentColor.value) then r.currentTurn
                                     else Some(SeatAfter(r, me, r.direction, 1)))
    ensures DrawResolved(r, r', me)
  {
    assert HandOf(r'.hands, me) == hand';
  }

  /** Drawing keeps the room consistent. */
  lemma DrawKeepsConsistent(r: Room, r': Room, roster: seq<PlayerId>, me: PlayerId)
    requires Consistent(r, roster) && r.status == Playing && r.currentTurn == Some(me)
    requires DrawResolved(r, r', me)
    ensures Consistent(r', roster)
  {
    if Available(r.deck, r.discardPile) > 0 {
      assert Pool(r', roster) == Pool(r, roster) by {
        assert me in roster;
        PoolSwap(r.hands, roster, me, HandOf(r'.hands, me), r.deck, r.discardPile, r'.deck, r'.discardPile);
      }
    }
  }

  /** After a draw the player keeps the turn if and only if the drawn card is playable. */
  lemma DrawPassesTurnIffUnplayable(r: Room, r': Room, roster: seq<PlayerId>, me: PlayerId)
    requires Consistent(r, roster) && r.status == Playing && r.currentTurn == Some(me)
    requires DrawResolved(r, r', me) && Available(r.deck, r.discardPile) > 0
    ensures var drawn := HandOf(r'.hands, me)[|HandOf(r.hands, me)|];
            r'.currentTurn == Some(me) <==> IsPlayable(drawn, Top(r'.discardPile), r.currentColor.value)
  {
    NextSeatIsAnother(r, roster, me);
  }

  // ---------------------------------------------------------------------
  // The last-card penalty
  // ---------------------------------------------------------------------

  /** Room `r'` is room `r` after `me`, holding one undeclared card, draws the two-card penalty. */
  ghost predicate PenaltyResolved(r: Room, r': Room, me: PlayerId)
  {
    && DrawOutcome(HandOf(r.hands, me), r.deck, r.discardPile, 2, HandOf(r'.hands, me), r'.deck, r'.discardPile)
    && r'.hands == r.hands[me := HandOf(r'.hands, me)]
    && r' == r.(deck := r'.deck, discardPile := r'.discardPile, hands := r'.hands)
  }

  /** The penalty keeps the room consistent. */
  lemma PenaltyKeepsConsistent(r: Room, r': Room, roster: seq<PlayerId>, me: PlayerId)
    requires Consistent(r, roster) && me in r.hands && |HandOf(r.hands, me)| == 1
    requires PenaltyResolved(r, r', me)
    ensures Consistent(r', roster)
  {
    assert Pool(r', roster) == Pool(r, roster) by {
      PoolSwap(r.hands, roster, me, HandOf(r'.hands, me), r.deck, r.discardPile, r'.deck, r'.discardPile);
    }
    assert |r.discardPile| > 0 ==> |r'.discardPile| > 0 by {
      if |r.discardPile| > 0 {
        DrawKeepsTop(HandOf(r.hands, me), r.deck, r.discardPile, 2, HandOf(r'.hands, me), r'.deck, r'.discardPile);
      }
    }
  }

  /**
   * Once a card could be drawn, the penalised hand no longer holds exactly
   * one card, so the penalty cannot be charged twice for the same card.
   */
  lemma PenaltyNotRepeated(r: Room, r': Room, me: PlayerId)
    requires |HandOf(r.hands, me)| == 1 && PenaltyResolved(r, r', me)
    requires Available(r.deck, r.discardPile) > 0
    ensures |HandOf(r'.hands, me)| >= 2
  {
  }

  // ---------------------------------------------------------------------
  // Elimination
  // ---------------------------------------------------------------------

  /**
   * Room `r'` is room `r` after player `id` is eliminated during play, in
   * everything but where a turn held by `id` goes: the hand goes back into
   * the deck, `id` leaves the order (the others keep their order), a sole
   * survivor wins, and otherwise a turn held by another player stays.
   */
  ghost predicate EliminationBase(r: Room, r': Room, id: PlayerId)
  {
    var idx := IndexOf(r.playerOrder, id);
    && 0 <= idx
    && var order' := RemoveAt(r.playerOrder, idx);
       && multiset(r'.deck) == multiset(r.deck) + multiset(HandOf(r.hands, id))
       && r'.playerOrder == order'
       && r'.hands == r.hands[id := []]
       && r'.eliminated == r.eliminated + {id}
       && (|order'| <= 1 ==>
             && r'.status == Finished
             && r'.winner == (if |order'| > 0 then Some(order'[0]) else None)
             && r'.currentTurn == r.currentTurn)
       && (|order'| > 1 ==>
             && r'.status == r.status
             && r'.winner == r.winner
             && (r.currentTurn != Some(id) ==> r'.currentTurn == r.currentTurn))
       && r'.discardPile == r.discardPile
       && r'.direction == r.direction
       && r'.currentColor == r.currentColor
       && r'.dunoCalled == r.dunoCalled
  }

  /**
   * Elimination as the program performs it: when `id` held the turn and two
   * or more players are left, the turn goes to the index
   * `((idx * direction) % len + len) % len` of the shortened order.
   */
  ghost predicate EliminationResolved(r: Room, r': Room, id: PlayerId)
  {
    var idx := IndexOf(r.playerOrder, id);
    && EliminationBase(r, r', id)
    && 0 <= idx
    && (|r.playerOrder| > 2 && r.currentTurn == Some(id) ==>
          r'.currentTurn == Some(RemoveAt(r.playerOrder, idx)[RetargetIndex(idx, r.direction, |r.playerOrder| - 1)]))
  }

  /**
   * Elimination with the corrected re-targeting: when `id` held the turn
   * and two or more players are left, the turn goes to the player who would
   * have moved after `id`.
   */
  ghost predicate EliminationResolvedFixed(r: Room, r': Room, id: PlayerId)
  {
    var idx := IndexOf(r.playerOrder, id);
    && EliminationBase(r, r', id)
    && 0 <= idx
    && (|r.playerOrder| > 2 && r.currentTurn == Some(id) ==>
          r'.currentTurn == Some(RemoveAt(r.playerOrder, idx)[RetargetIndexFixed(idx, r.direction, |r.playerOrder| - 1)]))
  }

  /**
   * An elimination that leaves a turn held by `id` with a player still in
   * the order keeps the room consistent.
   */
  lemma EliminationBaseKeepsConsistent(r: Room, r': Room, roster: seq<PlayerId>, id: PlayerId)
    requires Consistent(r, roster) && r.status == Playing
    requires EliminationBase(r, r', id)
    requires |r.playerOrder| > 2 && r.currentTurn == Some(id) ==>
               r'.currentTurn.Some? && r'.currentTurn.value in r'.playerOrder
    ensures Consistent(r', roster)
    ensures r'.status == Playing ==> r'.currentTurn.Some? && r'.currentTurn.value in r'.playerOrder
  {
    var idx := IndexOf(r.playerOrder, id);
    RemoveAtKeepsNoDup(r.playerOrder, idx);
    assert Pool(r', roster) == Pool(r, roster) by {
      assert id in roster;
      ReturnHandConservesCards(r.hands, roster, id, r.deck, r'.deck, r.discardPile);
    }
  }

  /** Elimination as the program performs it keeps the room consistent; the turn stays with a player in the order. */
  lemma EliminationKeepsConsistent(r: Room, r': Room, roster: seq<PlayerId>, id: PlayerId)
    requires Consistent(r, roster) && r.status == Playing
    requires EliminationResolved(r, r', id)
    ensures Consistent(r', roster)
    ensures r'.status == Playing ==> r'.currentTurn.Some? && r'.currentTurn.value in r'.playerOrder
  {
    EliminationBaseKeepsConsistent(r, r', roster, id);
  }

  /** Elimination with the corrected re-targeting keeps the room consistent as well. */
  lemma EliminationFixedKeepsConsistent(r: Room, r': Room, roster: seq<PlayerId>, id: PlayerId)
    requires Consistent(r, roster) && r.status == Playing
    requires EliminationResolvedFixed(r, r', id)
    ensures Consistent(r', roster)
    ensures r'.status == Playing ==> r'.currentTurn.Some? && r'.currentTurn.value in r'.playerOrder
  {
    EliminationBaseKeepsConsistent(r, r', roster, id);
  }

  /** Moving a player's hand into the deck keeps every card in the room. */
  lemma ReturnHandConservesCards(hands: map<PlayerId, seq<Card>>, roster: seq<PlayerId>, id: PlayerId,
                                 deck: seq<Card>, deck': seq<Card>, pile: seq<Card>)
    requires NoDup(roster) && id in roster
    requires multiset(deck') == multiset(deck) + multiset(HandOf(hands, id))
    ensures multiset(deck') + multiset(pile) + HandsPool(hands[id := []], roster) ==
            multiset(deck) + multiset(pile) + HandsPool(hands, roster)
  {
    var hand := HandOf(hands, id);
    var D, D', P := multiset(deck), multiset(deck'), multiset(pile);
    forall c ensures (multiset([]) + D' + P)[c] == (multiset(hand) + D + P)[c] {
      assert D'[c] == (D + multiset(hand))[c];
    }
    PoolSwap(hands, roster, id, [], deck, pile, deck', pile);
  }

  /**
   * With direction 1 the turn of an eliminated player goes, as written, to
   * the player who sat after them, wrapping round to the first seat.
   */
  lemma RetargetForwardIsNextSeat(order: seq<PlayerId>, idx: nat)
    requires idx < |order| && |order| >= 2
    ensures var order' := RemoveAt(order, idx);
            order'[RetargetIndex(idx, 1, |order'|)] == order[(idx + 1) % |order|]
  {
    var n := |order|;
    assert idx * 1 == idx;
    if idx < n - 1 {
      ModOfSum(idx, 0, idx, n - 1);
      ModOfSum(idx + 1, 0, idx + 1, n);
    } else {
      ModOfSum(idx, 1, 0, n - 1);
      ModOfSum(idx + 1, 1, 0, n);
    }
  }

  /**
   * With direction -1 the formula as written does not pick the player who
   * sat before the eliminated one: with four seats and the second one
   * eliminated the turn goes to the fourth seat, skipping the first.
   */
  lemma RetargetBackwardExample()
    ensures var order := ["a", "b", "c", "d"];
            var order' := RemoveAt(order, 1);
            && order[NextPlayerIndex(order, 1, -1, 1)] == "a"
            && order'[RetargetIndex(1, -1, |order'|)] == "d"
  {
    var order := ["a", "b", "c", "d"];
    var order' := RemoveAt(order, 1);
    assert order'[2] == "d";
    assert NextPlayerIndex(order, 1, -1, 1) == 0;
    assert RetargetIndex(1, -1, 3) == 2 by {
      ModOfSum(-1, -1, 2, 3);
    }
  }

  /**
   * In either direction the corrected retarget hands the turn to the player
   * who would have moved after the eliminated one.
   */
  lemma RetargetFixedIsNextSeat(order: seq<PlayerId>, idx: nat, direction: int)
    requires idx < |order| && |order| >= 2
    requires direction == 1 || direction == -1
    ensures var order' := RemoveAt(order, idx);
            order'[RetargetIndexFixed(idx, direction, |order'|)] == order[NextPlayerIndex(order, idx, direction, 1)]
  {
    var n := |order|;
    if direction == 1 {
      if idx < n - 1 {
        ModOfSum(idx, 0, idx, n - 1);
        ModOfSum(idx + 1, 0, idx + 1, n);
      } else {
        ModOfSum(idx, 1, 0, n - 1);
        ModOfSum(idx + 1, 1, 0, n);
      }
    } else {
      if idx > 0 {
        ModOfSum(idx - 1, 0, idx - 1, n - 1);
        ModOfSum(idx - 1, 0, idx - 1, n);
      } else {
        ModOfSum(-1, -1, n - 2, n - 1);
        ModOfSum(-1, -1, n - 1, n);
      }
    }
  }

  /**
   * Clockwise, elimination as the program performs it passes a turn held by
   * the eliminated player to the player who would have moved next.
   */
  lemma EliminationClockwisePassesTurnOn(r: Room, r': Room, roster: seq<PlayerId>, id: PlayerId)
    requires Consistent(r, roster) && r.status == Playing && r.currentTurn == Some(id)
    requires EliminationResolved(r, r', id)
    requires |r.playerOrder| > 2 && r.direction == 1
    ensures r'.currentTurn == Some(SeatAfter(r, id, r.direction, 1))
  {
    var order, idx := r.playerOrder, IndexOf(r.playerOrder, id);
    RetargetForwardIsNextSeat(order, idx);
    assert NextPlayerIndex(order, idx, 1, 1) == (idx + 1) % |order|;
  }

  /**
   * With the corrected re-targeting, a turn held by the eliminated player
   * goes, in either direction, to the player who would have moved next.
   */
  lemma EliminationPassesTurnOn(r: Room, r': Room, roster: seq<PlayerId>, id: PlayerId)
    requires Consistent(r, roster) && r.status == Playing && r.currentTurn == Some(id)
    requires EliminationResolvedFixed(r, r', id)
    requires |r.playerOrder| > 2
    ensures r'.currentTurn == Some(SeatAfter(r, id, r.direction, 1))
  {
    RetargetFixedIsNextSeat(r.playerOrder, IndexOf(r.playerOrder, id), r.direction);
  }
}
