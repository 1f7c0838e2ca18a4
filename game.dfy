/**
 * One client's view of a room: the room document as last read, plus the
 * client's own turn state. Each action computes the new room document
 * from the current one and writes it back.
 */
module Client {
  import opened Optional
  import opened Cards
  import opened Deck
  import opened Turns
  import opened Seqs
  import opened Rules

  /** A wild card whose colour is still to be chosen, and where it sits in the hand. */
  datatype PendingPlay = PendingPlay(card: Card, cardIndex: int)

  /**
   * The room of a new game for the players `roster`: a generated deck,
   * shuffled, seven cards dealt to each player, a first discard, and a
   * shuffled player order; `s` is the shuffled deck it was dealt from.
   */
  method NewGame(r: Room, roster: seq<PlayerId>) returns (r': Room, s: seq<Card>)
    requires NoDup(roster) && 2 <= |roster| <= 4
    requires forall p :: p in r.hands <==> p in roster
    ensures StartResolved(r, r', roster, s)
    ensures Consistent(r', roster)
  {
    s := GenerateDeck();
    s := ShuffleCopy(s);
    var hands, d := Deal(s, r.hands, roster);
    var first, rest := FindFirstDiscard(d);
    var order := ShuffleCopy(roster);
    r' := Room(Playing, rest, [first], hands, order, 1, Some(order[0]), Some(first.color),
               r.winner, r.eliminated, {});
    assert StartResolved(r, r', roster, s);
    StartKeepsConsistent(r, r', roster, s);
  }

  /**
   * Deals seven cards from the top of `s` to each player of `roster` in
   * turn, replacing their hands; `rest` is what remains of `s`.
   */
  method Deal(s: seq<Card>, hands: map<PlayerId, seq<Card>>, roster: seq<PlayerId>)
    returns (hands': map<PlayerId, seq<Card>>, rest: seq<Card>)
    requires NoDup(roster) && 7 * |roster| <= |s|
    ensures Dealt(s, hands', roster)
    ensures forall p :: p in hands' <==> p in hands || p in roster
    ensures rest == s[7 * |roster|..]
  {
    hands', rest := hands, s;
    for k := 0 to |roster|
      invariant rest == s[7 * k..]
      invariant forall j | 0 <= j < k :: HandOf(hands', roster[j]) == s[7 * j..7 * j + 7]
      invariant forall p :: p in hands' <==> p in hands || p in roster[..k]
    {
      assert roster[..k + 1] == roster[..k] + [roster[k]];
      hands' := hands'[roster[k] := rest[..7]];
      rest := rest[7..];
    }
    assert roster[..|roster|] == roster;
  }

  /**
   * The cards after `me` plays the card at `cardIndex`: the card leaves the
   * hand for the discard pile, and a draw-two or wild-draw-four makes the
   * next player draw two or four cards.
   */
  method MoveCards(r: Room, me: PlayerId, cardIndex: int)
    returns (deck: seq<Card>, pile: seq<Card>, hands: map<PlayerId, seq<Card>>)
    requires TurnHeld(r, me)
    requires 0 <= cardIndex < |HandOf(r.hands, me)|
    ensures CardsAfterPlay(r, me, cardIndex, deck, pile, hands)
  {
    var card := HandOf(r.hands, me)[cardIndex];
    var rest := RemoveAt(HandOf(r.hands, me), cardIndex);
    pile := r.discardPile + [card];
    deck := r.deck;
    hands := r.hands;
    if card.face == Draw2 || card.face == WildDraw4 {
      var target := SeatAfter(r, me, r.direction, 1);
      SeatAfterIsAnother(r, me);
      var n := if card.face == Draw2 then 2 else 4;
      var targetHand;
      targetHand, deck, pile := DrawCards(HandOf(hands, target), deck, pile, n);
      hands := hands[target := targetHand];
    }
    hands := hands[me := rest];
  }

  /**
   * The direction after playing a card with face `face`, and the seat whose
   * turn comes next: skips, forced draws and a reverse between two players
   * pass over one seat.
   */
  method NextTurn<T>(face: Face, order: seq<T>, currentIndex: int, direction: int)
    returns (direction': int, nextIndex: int)
    requires |order| > 0
    ensures direction' == DirectionAfter(face, direction)
    ensures nextIndex == NextPlayerIndex(order, currentIndex, direction', SkipCount(face, |order|))
  {
    direction' := direction;
    if face == Skip {
      nextIndex := NextPlayerIndex(order, currentIndex, direction', 2);
    } else if face == Reverse {
      direction' := -direction';
      if |order| == 2 {
        nextIndex := NextPlayerIndex(order, currentIndex, direction', 2);
      } else {
        nextIndex := NextPlayerIndex(order, currentIndex, direction', 1);
      }
    } else if face == Draw2 || face == WildDraw4 {
      nextIndex := NextPlayerIndex(order, currentIndex, direction', 2);
    } else {
      nextIndex := NextPlayerIndex(order, currentIndex, direction', 1);
    }
  }

  /**
   * The room after `me` plays the card at `cardIndex` with `chosenColor` as
   * the new colour: the card moves to the discard pile, its effect is
   * applied and the turn moves on; an empty hand wins.
   */
  method ResolvePlay(r: Room, ghost roster: seq<PlayerId>, me: PlayerId, cardIndex: int, chosenColor: Color)
    returns (r': Room)
    requires TurnHeld(r, me)
    requires 0 <= cardIndex < |HandOf(r.hands, me)|
    ensures PlayResolved(r, r', me, cardIndex, chosenColor)
    ensures Consistent(r, roster) ==> Consistent(r', roster)
  {
    var card := HandOf(r.hands, me)[cardIndex];
    var deck, pile, hands := MoveCards(r, me, cardIndex);
    var order := r.playerOrder;
    var direction, nextIndex := NextTurn(card.face, order, IndexOf(order, me), r.direction);
    var won := |RemoveAt(HandOf(r.hands, me), cardIndex)| == 0;
    r' := r.(deck := deck, discardPile := pile, hands := hands, direction := direction,
             currentColor := Some(chosenColor), currentTurn := Some(order[nextIndex]),
             status := if won then Finished else r.status,
             winner := if won then Some(me) else r.winner);
    if Consistent(r, roster) {
      PlayKeepsConsistent(r, r', roster, me, cardIndex, chosenColor);
    }
  }

  /**
   * The room after `me` draws on their turn. `drew` tells whether there was
   * a card to draw (when there is none the room is left as it was), and
   * `canPlay` whether the drawn card may be played, in which case the turn
   * stays; otherwise it passes to the next seat.
   */
  method ResolveDraw(r: Room, ghost roster: seq<PlayerId>, me: PlayerId) returns (r': Room, drew: bool, canPlay: bool)
    requires TurnHeld(r, me)
    ensures DrawResolved(r, r', me)
    ensures Consistent(r, roster) ==> Consistent(r', roster)
    ensures drew <==> Available(r.deck, r.discardPile) > 0
    ensures drew ==> (canPlay <==> r'.currentTurn == Some(me))
    ensures !drew ==> !canPlay
  {
    var hand := HandOf(r.hands, me);
    var hand', deck', pile' := DrawOne(hand, r.deck, r.discardPile);
    if |hand'| == |hand| {
      return r, false, false;
    }
    drew := true;
    DrawKeepsTop(hand, r.deck, r.discardPile, 1, hand', deck', pile');
    var drawn := hand'[|hand'| - 1];
    canPlay := IsPlayable(drawn, pile'[|pile'| - 1], r.currentColor.value);
    var turn := r.currentTurn;
    if !canPlay {
      turn := Some(SeatAfter(r, me, r.direction, 1));
      SeatAfterIsAnother(r, me);
    }
    r' := r.(hands := r.hands[me := hand'], deck := deck', discardPile := pile', currentTurn := turn);
    DrawnCardDecidesTurn(r, r', me, hand', deck', pile');
    if Consistent(r, roster) {
      DrawKeepsConsistent(r, r', roster, me);
    }
  }

  class Game {
    /** This client's player. */
    const me: PlayerId
    /** Whether this client created the room. */
    const isHost: bool
    /** The players in the room, in the order their entries were created. */
    const roster: seq<PlayerId>

    /** The room document. */
    var room: Room
    var pendingWild: Option<PendingPlay>
    var hasDrawnThisTurn: bool
    var drawnCardIndex: int
    var calledDuno: bool

    ghost predicate Valid()
      reads this
    {
      Consistent(room, roster) && me in roster && |roster| <= 4
    }

    /** A client in a new room: the lobby, no cards anywhere, clockwise. */
    constructor(me: PlayerId, isHost: bool, roster: seq<PlayerId>)
      requires NoDup(roster) && me in roster && |roster| <= 4
      ensures Valid()
      ensures this.me == me && this.isHost == isHost && this.roster == roster
      ensures room.status == Waiting && room.direction == 1 && room.playerOrder == []
      ensures pendingWild == None && !hasDrawnThisTurn && drawnCardIndex == -1 && !calledDuno
    {
      this.me := me;
      this.isHost := isHost;
      this.roster := roster;
      var hands := map p | p in roster :: [];
      room := Room(Waiting, [], [], hands, [], 1, None, None, None, {}, {});
      pendingWild := None;
      hasDrawnThisTurn := false;
      drawnCardIndex := -1;
      calledDuno := false;
      new;
      HandsPoolEmpty(hands, roster);
    }

    /**
     * The host starts a game once at least two players are in the room: a
     * shuffled full deck, seven cards each, a first discard, a shuffled
     * order; `s` is the shuffled deck.
     */
    method StartGame() returns (ghost s: seq<Card>)
      requires Valid()
      modifies this
      ensures Valid()
      ensures !isHost || |roster| < 2 ==> room == old(room)
      ensures isHost && |roster| >= 2 ==> StartResolved(old(room), room, roster, s)
      ensures pendingWild == old(pendingWild) && hasDrawnThisTurn == old(hasDrawnThisTurn)
      ensures drawnCardIndex == old(drawnCardIndex) && calledDuno == old(calledDuno)
    {
      if !isHost || |roster| < 2 {
        return [];
      }
      var r';
      r', s := NewGame(room, roster);
      room := r';
    }

    /**
     * Plays the card at `cardIndex` if it is this player's turn and the card
     * may be played; a wild card waits for its colour instead.
     */
    method PlayCard(cardIndex: int)
      requires Valid()
      modifies this
      ensures Valid()
      ensures !PlayAllowed(old(room), me, cardIndex) ==>
                && room == old(room) && pendingWild == old(pendingWild)
                && hasDrawnThisTurn == old(hasDrawnThisTurn) && drawnCardIndex == old(drawnCardIndex)
                && calledDuno == old(calledDuno)
      ensures PlayAllowed(old(room), me, cardIndex) && HandOf(old(room).hands, me)[cardIndex].face.IsWild() ==>
                && room == old(room) && pendingWild == Some(PendingPlay(HandOf(old(room).hands, me)[cardIndex], cardIndex))
                && hasDrawnThisTurn == old(hasDrawnThisTurn) && drawnCardIndex == old(drawnCardIndex)
                && calledDuno == old(calledDuno)
      ensures PlayAllowed(old(room), me, cardIndex) && !HandOf(old(room).hands, me)[cardIndex].face.IsWild() ==>
                && PlayResolved(old(room), room, me, cardIndex, HandOf(old(room).hands, me)[cardIndex].color)
                && pendingWild == old(pendingWild) && !hasDrawnThisTurn && drawnCardIndex == -1
                && calledDuno == (if |HandOf(room.hands, me)| == 1 then false else old(calledDuno))
    {
      if !PlayAllowed(room, me, cardIndex) {
        return;
      }
      var card := HandOf(room.hands, me)[cardIndex];
      if card.face.IsWild() {
        pendingWild := Some(PendingPlay(card, cardIndex));
        return;
      }
      ExecutePlay(card, cardIndex, card.color);
    }

    /**
     * Plays `card` from `cardIndex` with `chosenColor` as the new colour and
     * applies its effect: see `PlayResolved`.
     */
    method ExecutePlay(card: Card, cardIndex: int, chosenColor: Color)
      requires Valid() && room.status == Playing && room.currentTurn == Some(me)
      requires 0 <= cardIndex < |HandOf(room.hands, me)| && HandOf(room.hands, me)[cardIndex] == card
      modifies this
      ensures Valid()
      ensures PlayResolved(old(room), room, me, cardIndex, chosenColor)
      ensures !hasDrawnThisTurn && drawnCardIndex == -1
      ensures calledDuno == (if |HandOf(room.hands, me)| == 1 then false else old(calledDuno))
      ensures pendingWild == old(pendingWild)
    {
      var r' := ResolvePlay(room, roster, me, cardIndex, chosenColor);
      var duno := if |HandOf(r'.hands, me)| == 1 then false else calledDuno;
      room, hasDrawnThisTurn, drawnCardIndex, calledDuno := r', false, -1, duno;
      assert room == r';
    }

    /** Plays the pending wild card, if any, with the chosen colour. */
    method HandleColorChoice(color: Color)
      requires Valid()
      requires color != Wild
      requires pendingWild.Some? ==>
                 var pending := pendingWild.value;
                 && room.status == Playing && room.currentTurn == Some(me)
                 && 0 <= pending.cardIndex < |HandOf(room.hands, me)|
                 && HandOf(room.hands, me)[pending.cardIndex] == pending.card
      modifies this
      ensures Valid()
      ensures pendingWild == None
      ensures old(pendingWild) == None ==>
                && room == old(room)
                && hasDrawnThisTurn == old(hasDrawnThisTurn) && drawnCardIndex == old(drawnCardIndex)
                && calledDuno == old(calledDuno)
      ensures old(pendingWild).Some? ==>
                && PlayResolved(old(room), room, me, old(pendingWild).value.cardIndex, color)
                && !hasDrawnThisTurn && drawnCardIndex == -1
                && calledDuno == (if |HandOf(room.hands, me)| == 1 then false else old(calledDuno))
    {
      if pendingWild == None {
        return;
      }
      var pending := pendingWild.value;
      pendingWild := None;
      ExecutePlay(pending.card, pending.cardIndex, color);
    }

    /**
     * Draws one card on this player's turn, at most once per turn; the
     * turn passes on unless the drawn card can be played.
     */
    method DrawCard()
      requires Valid()
      modifies this
      ensures Valid()
      ensures !(old(room).status == Playing && old(room).currentTurn == Some(me) && !old(hasDrawnThisTurn)) ==>
                && room == old(room)
                && hasDrawnThisTurn == old(hasDrawnThisTurn) && drawnCardIndex == old(drawnCardIndex)
      ensures old(room).status == Playing && old(room).currentTurn == Some(me) && !old(hasDrawnThisTurn) ==>
                DrawResolved(old(room), room, me)
      ensures Available(old(room).deck, old(room).discardPile) == 0 ==>
                hasDrawnThisTurn == old(hasDrawnThisTurn) && drawnCardIndex == old(drawnCardIndex)
      ensures Available(old(room).deck, old(room).discardPile) > 0 && old(room).status == Playing &&
              old(room).currentTurn == Some(me) && !old(hasDrawnThisTurn) ==>
                && hasDrawnThisTurn == (room.currentTurn == Some(me))
                && drawnCardIndex == (if hasDrawnThisTurn then |HandOf(room.hands, me)| - 1 else old(drawnCardIndex))
      ensures pendingWild == old(pendingWild) && calledDuno == old(calledDuno)
    {
      if room.currentTurn != Some(me) || room.status != Playing || hasDrawnThisTurn {
        return;
      }
      var r', drew, canPlay := ResolveDraw(room, roster, me);
      if !drew {
        return;
      }
      var index := if canPlay then |HandOf(r'.hands, me)| - 1 else drawnCardIndex;
      room, hasDrawnThisTurn, drawnCardIndex := r', canPlay, index;
    }

    /** Declares the last card. */
    method CallDuno()
      requires Valid()
      modifies this
      ensures Valid()
      ensures calledDuno
      ensures room == old(room).(dunoCalled := old(room).dunoCalled + {me})
      ensures pendingWild == old(pendingWild) && hasDrawnThisTurn == old(hasDrawnThisTurn)
      ensures drawnCardIndex == old(drawnCardIndex)
    {
      calledDuno := true;
      room := room.(dunoCalled := room.dunoCalled + {me});
    }

    /** Charges two cards to this player when down to one card without having declared it. */
    method EnforceDunoPenalty()
      requires Valid()
      modifies this
      ensures Valid()
      ensures old(calledDuno) || |HandOf(old(room).hands, me)| != 1 ==> room == old(room)
      ensures !old(calledDuno) && |HandOf(old(room).hands, me)| == 1 ==> PenaltyResolved(old(room), room, me)
      ensures pendingWild == old(pendingWild) && hasDrawnThisTurn == old(hasDrawnThisTurn)
      ensures drawnCardIndex == old(drawnCardIndex) && calledDuno == old(calledDuno)
    {
      if calledDuno || me !in room.hands {
        return;
      }
      var hand := HandOf(room.hands, me);
      if |hand| != 1 {
        return;
      }
      var hand', deck', pile' := DrawCards(hand, room.deck, room.discardPile, 2);
      room := room.(hands := room.hands[me := hand'], deck := deck', discardPile := pile');
      PenaltyKeepsConsistent(old(room), room, roster, me);
    }

    /** The host sends the room back to the lobby. */
    method PlayAgain()
      requires Valid()
      modifies this
      ensures Valid()
      ensures !isHost ==> room == old(room)
      ensures isHost ==> ResetResolved(old(room), room, roster)
      ensures pendingWild == old(pendingWild) && hasDrawnThisTurn == old(hasDrawnThisTurn)
      ensures drawnCardIndex == old(drawnCardIndex) && calledDuno == old(calledDuno)
    {
      if !isHost {
        return;
      }
      var hands := room.hands;
      for k := 0 to |roster|
        invariant forall p :: p in hands <==> p in roster
        invariant forall j | 0 <= j < k :: hands[roster[j]] == []
      {
        hands := hands[roster[k] := []];
      }
      room := Room(Waiting, [], [], hands, [], 1, None, None, None, room.eliminated, {});
      ResetKeepsConsistent(old(room), room, roster);
    }

    /**
     * Removes `id` from a game in progress: the hand is shuffled back into
     * the deck and the player leaves the order; a turn held by `id` is
     * re-targeted with the formula as the program writes it.
     */
    method EliminatePlayer(id: PlayerId)
      requires Valid()
      modifies this
      ensures Valid()
      ensures old(room).status != Playing || id !in old(room).playerOrder ==> room == old(room)
      ensures old(room).status == Playing && id in old(room).playerOrder ==> EliminationResolved(old(room), room, id)
      ensures pendingWild == old(pendingWild) && hasDrawnThisTurn == old(hasDrawnThisTurn)
      ensures drawnCardIndex == old(drawnCardIndex) && calledDuno == old(calledDuno)
    {
      if room.status != Playing {
        return;
      }
      var order := room.playerOrder;
      var idx := IndexOf(order, id);
      if idx == -1 {
        return;
      }
      var deck := ShuffleCopy(room.deck + HandOf(room.hands, id));
      var order' := RemoveAt(order, idx);
      var status, winner, turn := room.status, room.winner, room.currentTurn;
      if |order'| <= 1 {
        status := Finished;
        winner := if |order'| > 0 then Some(order'[0]) else None;
      } else if room.currentTurn == Some(id) {
        var nextIndex := RetargetIndex(idx, room.direction, |order'|);
        turn := Some(order'[nextIndex]);
      }
      room := room.(deck := deck, playerOrder := order', hands := room.hands[id := []],
                    eliminated := room.eliminated + {id}, status := status, winner := winner, currentTurn := turn);
      EliminationKeepsConsistent(old(room), room, roster, id);
    }
  }
}
