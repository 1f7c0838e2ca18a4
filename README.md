# Duno engine in Dafny

Duno is a browser UNO game for two to four players. Every client reads one
shared room document and writes the next version of it back. This project
models the rules engine of `app.js`:

- the 108-card deck and its shuffle;
- the play rule and the turn arithmetic;
- the effects of each card, forced draws that reclaim the discard pile, the
  draw on a player's own turn and the last-card ("DUNO") penalty;
- starting, resetting and eliminating.

It also models the `.env` reader `parseEnv` of `firebase-config.js`.

Layout, one module per file:

- `optional.dfy` (`Optional`): the option type used for nullable fields.
- `seqs.dfy` (`Seqs`): the JavaScript array operations the engine uses
  (`indexOf`, `splice(i, 1)`) and distinctness.
- `cards.dfy` (`Cards`): cards, deck generation and `isPlayable`.
  - A card's type follows from its value, so a `Face` carries both.
  - `Copies` counts each card of a full deck independently of generation
    order. `GenerateDeck` is proved to produce exactly that multiset.
- `deck.dfy` (`Deck`):
  - the in-place Fisher-Yates shuffle on an `array`;
  - reclaiming the discard pile;
  - the draw loop used by draw-two, wild-draw-four and the penalty;
  - the choice of the first discard.
  - `DrawOutcome` states what drawing `n` cards does.
- `turns.dfy` (`Turns`): the turn index arithmetic. JavaScript's `%`
  truncates toward zero; Dafny's is Euclidean, so `JsRemainder` models the
  JavaScript operator explicitly. It also holds both versions of the turn
  re-targeting after an elimination (see Findings).
- `rules.dfy` (`Rules`): the room document and its invariant `Consistent`.
  - The invariant covers:
    - exactly one full deck across deck, discard pile and hands once dealt,
      and no cards in the lobby;
    - a hand entry for exactly the players in the room;
    - a direction of ±1;
    - during play, an order of at least two distinct players with the turn
      inside it.
  - Each move is a relation between the room before and after it:
    `StartResolved`, `PlayResolved`, `DrawResolved`, `PenaltyResolved`,
    `ResetResolved` and `EliminationResolved`. `EliminationResolvedFixed`
    is the corrected elimination described under Findings.
  - Lemmas prove that every move keeps the invariant, plus the promised
    facts about turns and cards.
- `game.dfy` (`Client`):
  - `NewGame`, `ResolvePlay` and `ResolveDraw` compute the next room
    document. Each is proved to produce its move's relation and to keep
    the invariant.
  - The class `Game` holds the room document and the client's own turn
    flags, `pendingWild`, `hasDrawnThisTurn`, `drawnCardIndex` and
    `calledDuno`. Its methods update them as the source's event handlers
    do, and each keeps `Valid()`.
- `env.dfy` (`Env`): `parseEnv` as a loop over the lines that fills a map.
  - `Trim` is JavaScript's `trim` over its white-space set.
  - `EnvOf` is the specification the loop is proved against: a left fold
    over the lines.

Where the code departs from the usual UNO rules, the model follows the code:

- The first discard falls back to the deck's first card when no number card
  is left after the deal. That card may be an action or a wild card.
- Declaring the last card (`callDuno`) sets the flag whatever the hand size.
- Elimination (`eliminatePlayer`) ends the game when one player is left or,
  through `|order'| <= 1`, when none is left.

## Model

| member | source | states |
|---|---|---|
| Seqs.IndexOf | app.js:1142 | `indexOf`: -1 exactly when the element is absent; otherwise an index holding it with no occurrence before it |
| Seqs.IndexOfFirst | firebase-config.js:20 | an occurrence with none before it is the index `indexOf` returns |
| Seqs.RemoveAt | app.js:812 | `splice(i, 1)`: one element shorter; elements before `i` stay, those after shift down by one; the multiset loses exactly the removed element |
| Seqs.RemoveAtKeepsNoDup | app.js:1152 | removing a player from an order without repeats leaves one without repeats, holding exactly the other players |
| Seqs.NoDupCounts | app.js:533-534 | a sequence has no repeats exactly when its multiset counts every element at most once |
| Seqs.PermutationKeepsNoDup | app.js:533-534 | a permutation of a sequence without repeats has none |
| Turns.JsRemainder | app.js:239 | JavaScript's `%`: equals the Euclidean remainder for a non-negative left operand; for a negative one it is zero or that remainder minus the divisor |
| Turns.NonNegMod | app.js:239 | `((x % len) + len) % len` lies in `[0, len)` and equals `x` modulo `len` |
| Turns.NextPlayerIndex | app.js:237-240 | the next index is in range and equals `(currentIndex + direction * skip)` modulo the order length |
| Turns.TwoPlayersSkipTwoReturns | app.js:835-838 | with two players, moving two seats either way returns to the same seat |
| Turns.NextSeatDiffers | app.js:237-240 | with two or more players and direction ±1, one seat on is never the current seat |
| Turns.OneAndTwoSeatsDiffer | app.js:848-862 | with three or more players, the seat one on (the forced-draw target) differs from the seat two on (the next to move) |
| Turns.RetargetIndex | app.js:1168-1172 | the re-targeting index as written is in range and equals `eliminatedIndex * direction` modulo the new length |
| Turns.RetargetIndexFixed | app.js:1168-1172 | the corrected re-targeting index is in range: the vacated index clockwise, the index before it anticlockwise |
| Cards.PushNumberPairs | app.js:151-155 | appends 18 cards at the end, two of each number 1-9 in order, adding exactly those to the multiset |
| Cards.PushActionPairs | app.js:157-161 | appends six cards, two of each action in order, adding exactly those to the multiset |
| Cards.PushColorBlock | app.js:147-162 | appends the 25-card block of one colour at its positions; it adds `Copies` of each card of that colour |
| Cards.GenerateDeck | app.js:144-171 | 108 cards, each at the position the generation order gives; every card appears exactly `Copies(card)` times |
| Cards.PushWildPairs | app.js:164-168 | four wild and wild-draw-four pairs complete the deck to a full one |
| Cards.IsPlayable | app.js:220-234 | a wild card is always playable; any card is playable exactly when it is wild, matches the active colour, or has the same face as the top card |
| Deck.ShuffleDeck | app.js:67-73 | the in-place shuffle leaves the array a permutation of its old contents, for every random choice |
| Deck.ShuffleCopy | app.js:67-73 | a shuffled copy has the same length and multiset |
| Deck.ReshuffleFromDiscard | app.js:931-941 | a pile of at most one card is a no-op; otherwise the pile becomes just its old top and the deck gains exactly the other pile cards; no card is lost and the drawable count is unchanged |
| Deck.DrawOne | app.js:956-967 | one draw with reclaim: the `DrawOutcome` of drawing one card |
| Deck.DrawOutcomeStep | app.js:853-856 | drawing i cards and then one more is the outcome of drawing i + 1 |
| Deck.DrawCards | app.js:873-876 | the forced-draw loop adds exactly `min(n, available)` cards to the hand's end, conserves all cards and lowers the available count by that many; it leaves the pile alone while the deck suffices |
| Deck.DrawKeepsTop | app.js:931-941 | drawing never removes the discard pile's top card |
| Deck.FirstDiscard | app.js:243-252 | definition: the opening discard is the first number card, taken out with `splice` so the other cards stay in order, or, when the deck holds no number card, its first card taken out with `shift` |
| Deck.FirstDiscardIsNumber | app.js:243-252 | the opening discard is a number card exactly when the deck holds one |
| Deck.FirstDiscardConserves | app.js:243-252 | taking the opening discard out conserves the deck's cards |
| Deck.FirstDiscardUnique | app.js:243-252 | the opening discard and the deck left behind are determined by the deck |
| Deck.FindFirstDiscard | app.js:243-252 | the loop returns the `FirstDiscard` card and remaining deck, and conserves the deck's cards |
| Rules.HandsPoolUpdate | app.js:891 | replacing one player's hand swaps exactly that hand's cards in the pool of all hands |
| Rules.PoolSwap | app.js:1042-1046 | a hand, deck and pile change that conserves cards conserves the whole room's cards |
| Rules.HandOf | app.js:777 | definition: a player's hand, empty when the player has no hand entry, as the optional chaining with an empty-array fallback does |
| Rules.StartResolved | app.js:506-559 | definition: the room after a start; seven cards each dealt in roster order from a shuffled full deck, the `FirstDiscard` of the rest opening the discard pile and setting the colour, with the deck the rest left behind in order, a shuffled order whose first player moves, clockwise, with no last-card calls |
| Rules.ResetResolved | app.js:1079-1116 | definition: the lobby after a reset; no deck, pile, order, turn, colour or winner, clockwise, empty hands, no last-card calls |
| Rules.PlayAllowed | app.js:775-788 | definition: the turn holder in a game in play, an index inside the hand, and a card playable on the top card in the active colour |
| Rules.DirectionAfter | app.js:831-834 | definition: a reverse flips the direction, any other card keeps it |
| Rules.SkipCount | app.js:822-888 | definition: the turn moves two seats for skip, draw-two, wild-draw-four and a reverse between two players, one seat otherwise |
| Rules.DrawPenalty | app.js:846-876 | definition: the next player draws two for draw-two, four for wild-draw-four, none otherwise |
| Rules.CardsAfterPlay | app.js:811-879 | definition: the hand, deck and pile after a play; the card moves from the hand to the pile, and a forced draw follows `DrawOutcome` for the next seat |
| Rules.PlayResolved | app.js:803-906 | definition: the room after a play; `CardsAfterPlay`, the new direction and colour, the turn `SkipCount` seats on, and a win on an empty hand |
| Rules.DrawResolved | app.js:946-1004 | definition: the room after a draw on one's turn; nothing with no card to draw, otherwise one `DrawOutcome` draw and the turn passed on exactly when the card is unplayable |
| Rules.PenaltyResolved | app.js:1029-1046 | definition: the room after the last-card penalty; a two-card `DrawOutcome` draw into that player's hand, nothing else changed |
| Rules.EliminationBase | app.js:1137-1175 | definition: the elimination apart from the re-targeted turn; the hand back into the deck, the player out of the order, a sole survivor winning, another player's turn kept |
| Rules.EliminationResolved | app.js:1166-1173 | definition: the program's elimination; a held turn goes to index `((idx * direction) % len + len) % len` of the shortened order |
| Rules.EliminationResolvedFixed | app.js:1170 | definition: the corrected elimination; a held turn goes to the player who would have moved next |
| Rules.DealtPool | app.js:523-527 | the dealt hands together hold exactly the first seven cards per player of the shuffled deck |
| Rules.DealConservesCards | app.js:523-530 | deck, first discard and hands after the deal hold exactly the shuffled deck |
| Rules.ShuffledOrder | app.js:532-534 | the shuffled order holds distinct players of the room, as many as the room has |
| Rules.StartKeepsConsistent | app.js:506-559 | a started game is consistent, holds one full deck, and every player holds seven cards |
| Rules.ResetKeepsConsistent | app.js:1079-1116 | the reset room is consistent and holds no cards |
| Rules.NextSeatIsAnother | app.js:848-849 | during play, the player one seat on from the turn holder is another player of the room |
| Rules.SeatAfterIsAnother | app.js:979-984 | the seat one on from the turn holder is another player |
| Rules.HandOutCard | app.js:812 | taking a card out of one hand removes exactly that card from the pool of hands |
| Rules.PlayConservesCards | app.js:811-899 | a play, with any forced draw and reclaim, never creates or loses a card |
| Rules.PlayKeepsConsistent | app.js:803-929 | every play keeps the room consistent |
| Rules.PlayedCardTopsDiscard | app.js:811-815 | the played card ends on top of the discard pile, and the hand loses exactly that card |
| Rules.ReverseBetweenTwoKeepsTurn | app.js:831-841 | between two players a reverse flips the direction and the player who played it moves again |
| Rules.ForcedDrawTargetLosesTurn | app.js:846-883 | the draw-two or wild-draw-four target gains exactly `min(n, available)` cards and does not get the turn, with two players as with more |
| Rules.DrawnCardDecidesTurn | app.js:965-995 | a draw whose turn follows the playability of the drawn card is a `DrawResolved` move |
| Rules.DrawKeepsConsistent | app.js:946-1004 | a draw keeps the room consistent |
| Rules.DrawPassesTurnIffUnplayable | app.js:970-995 | after a draw the player keeps the turn if and only if the drawn card is playable |
| Rules.PenaltyKeepsConsistent | app.js:1020-1049 | the last-card penalty keeps the room consistent |
| Rules.PenaltyNotRepeated | app.js:1026-1027 | once a card could be drawn, the penalised hand no longer has exactly one card, so a repeated penalty does nothing |
| Rules.EliminationBaseKeepsConsistent | app.js:1137-1175 | an elimination whose re-targeted turn lands inside the order keeps the room consistent |
| Rules.EliminationKeepsConsistent | app.js:1137-1175 | elimination as the program performs it, re-targeting with the formula of line 1171, keeps the room consistent, and a game still in play has its turn inside the order |
| Rules.EliminationFixedKeepsConsistent | app.js:1137-1175 | the corrected elimination keeps the room consistent as well |
| Rules.ReturnHandConservesCards | app.js:1145-1149 | moving the eliminated hand into the deck keeps every card |
| Rules.RetargetForwardIsNextSeat | app.js:1168-1172 | clockwise, the formula as written hands the turn to the player who sat after the eliminated one, for two or more players |
| Rules.RetargetBackwardExample | app.js:1168-1172 | anticlockwise, the formula as written skips the next player: with order a, b, c, d and b eliminated it gives d, not a |
| Rules.RetargetFixedIsNextSeat | app.js:1168-1172 | the corrected index gives, in either direction, the player who would have moved after the eliminated one |
| Rules.EliminationClockwisePassesTurnOn | app.js:1166-1173 | clockwise, when the eliminated player held the turn and two or more remain, the program's elimination passes the turn to the next seat |
| Rules.EliminationPassesTurnOn | app.js:1170 | with the corrected re-targeting, in either direction, a turn held by the eliminated player goes to the next seat, as the comment at line 1170 intends |
| Client.NewGame | app.js:506-559 | a new game is a `StartResolved` move from a full shuffled deck, opening with that deck's first number card after the deal, and is consistent |
| Client.Deal | app.js:523-527 | each player in roster order gets the next seven cards; the rest of the deck is what is left |
| Client.MoveCards | app.js:811-879 | the card leaves the hand for the discard pile; draw-two and wild-draw-four make the next seat draw with reclaim (`CardsAfterPlay`) |
| Client.NextTurn | app.js:822-888 | the new direction (flipped by a reverse) and the next index, skipping two seats for skip, draw-two, wild-draw-four and a reverse between two |
| Client.ResolvePlay | app.js:803-929 | the room after a play is a `PlayResolved` move and stays consistent |
| Client.ResolveDraw | app.js:946-1004 | the room after a draw is a `DrawResolved` move that stays consistent; a card is drawn exactly when one is available, and the turn stays exactly when it is playable |
| Client.Game.constructor | app.js:275-287 | a new client sees a consistent waiting room where every player holds an empty hand, clockwise, with no order, and its turn flags cleared |
| Client.Game.StartGame | app.js:506-559 | only the host with two or more players starts a game, a `StartResolved` move opening with the first number card after the deal; the client flags are left alone |
| Client.Game.PlayCard | app.js:773-801 | nothing, room or client flags, changes unless the play is allowed; a wild card waits for its colour with everything else unchanged; any other card is played in its own colour, clearing the draw flags and, with one card left, the declaration |
| Client.Game.ExecutePlay | app.js:803-929 | performs the `PlayResolved` move, clears the draw flags, and clears the declaration when one card is left |
| Client.Game.HandleColorChoice | app.js:1054-1062 | with a pending wild card, plays it in the chosen colour and clears it, with the flags set as after any play; otherwise nothing, room or flags, changes |
| Client.Game.DrawCard | app.js:946-1004 | only the turn holder draws, once per turn, and otherwise nothing changes; with nothing to draw the flags stay; when a card is drawn, `hasDrawnThisTurn` holds exactly when the turn stays, `drawnCardIndex` then points at the new card and otherwise keeps its value |
| Client.Game.CallDuno | app.js:1009-1017 | sets the declaration flag and records it in the room |
| Client.Game.EnforceDunoPenalty | app.js:1020-1049 | nothing changes when the card was declared or the hand does not hold exactly one card; otherwise the two-card penalty is drawn |
| Client.Game.PlayAgain | app.js:1079-1116 | only the host resets, to the `ResetResolved` lobby |
| Client.Game.EliminatePlayer | app.js:1137-1186 | nothing changes unless the game is in play and the player is in the order; otherwise the `EliminationResolved` move, re-targeting a held turn with the formula as written |
| Env.TrimStart | firebase-config.js:18 | drops exactly the leading white space: a suffix whose dropped part is all white space and which does not start with white space |
| Env.TrimEnd | firebase-config.js:18 | drops exactly the trailing white space |
| Env.Trim | firebase-config.js:18 | the result is no longer than the input and has no white space at either end |
| Env.TrimIsMiddle | firebase-config.js:18 | the trimmed string is the middle of the input with only white space cut from each end |
| Env.TrimOfTrimmed | firebase-config.js:22-23 | a string without white space at either end is its own trim |
| Env.TrimDropsCarriageReturn | firebase-config.js:17-18 | a trailing `\r` from a `\r\n` line end is removed by the trim |
| Env.SplitLines | firebase-config.js:17 | `split('\n')`: at least one piece, none holds a line feed, and joining them with line feeds gives the text back |
| Env.SplitJoinLines | firebase-config.js:17 | splitting lines joined with line feeds gives the lines back |
| Env.IsSpace | firebase-config.js:18 | definition: the characters `trim` removes, JavaScript's white space and line terminators |
| Env.LineEntry | firebase-config.js:18-24 | definition: the entry of one line; none for a blank or `#` line or one without `=`, otherwise the trimmed text before the first `=` and the trimmed text after it |
| Env.Entries | firebase-config.js:17 | definition: the entries of the lines in order, the sequence `EnvOf` folds; its ensures spell out the comprehension for the fold lemmas |
| Env.Store | firebase-config.js:16-24 | definition: `env[key] = value` on a plain object; every key but `__proto__` is stored, and `__proto__` goes to the prototype setter, which ignores a string |
| Env.EnvOf | firebase-config.js:16-26 | definition: the entries folded left to right into a map through `Store`, a later key replacing an earlier one; `ParseEnv` is proved against it |
| Env.ParseEnv | firebase-config.js:15-27 | the loop computes the left fold of the line entries over the split text, skipping the `__proto__` key as the object does |
| Env.EnvOfStep | firebase-config.js:24 | each further line adds its entry, if any, on top of the map so far |
| Env.SkippedLines | firebase-config.js:18-21 | blank lines, comment lines and lines without `=` define nothing |
| Env.EntryRoundTrip | firebase-config.js:20-24 | a `key=value` line with a clean key defines exactly that key and value, even when the value contains `=` |
| Env.TrimmedLineEntry | firebase-config.js:20-23 | a trimmed line is split at its first `=`, and both sides are trimmed |
| Env.AssignedKeys | firebase-config.js:24 | a key is in the folded map exactly when some entry assigns it and it is not `__proto__` |
| Env.LastAssignedValue | firebase-config.js:24 | a key's value is the one of the last entry assigning it |
| Env.KeysComeFromLines | firebase-config.js:17-25 | a key is in the parsed map exactly when some line defines it and it is not `__proto__` |
| Env.ProtoKeyNotStored | firebase-config.js:16-24 | a `__proto__=...` line never puts that key into the parsed map |
| Env.LastAssignmentWins | firebase-config.js:24 | a repeated key takes the value of the last line that defines it |

## Left out

- Firebase reads and writes, the DOM, Web Audio, toasts and confirm dialogs are left out.
  - Each `update(updates)` is an assignment to the room document.
  - A failed write is not modelled.
- Time is not modelled. `turnTimestamp`, the turn timer and the five-second `setTimeout` before the last-card penalty are left out. The penalty is the explicit step `Game.EnforceDunoPenalty`.
- `Math.random` becomes a nondeterministic choice.
  - In the Fisher-Yates shuffle it is a choice of `j` in `[0, i]`.
  - The deck and player-order shuffles are proved for every choice.
- Room creation, joining, leaving and rejoining are left out, and so are room codes and player ids.
  - The roster (`Object.keys(players)`) is a constant of the client.
  - Its limit of four players is a precondition, taken from the join check at app.js:348-351. With it the deal never runs out of cards.
- Simultaneous writes by several clients to the shared document are not modelled. Each action applies atomically to the room it read.
- `data.direction || 1` is not modelled. The invariant keeps the direction at ±1, so the fallback never fires in the model.
- Cards are stored as a colour plus a face. The source's `type` field follows from the value, so it is not stored separately.
- Leaving a room is not modelled. The program eliminates only the player who leaves, and `leaveRoom` then removes that player's entry (app.js:1132-1133, 1284, 388). The model keeps eliminated players in the roster only because leaving is left out. Client.Game.EliminatePlayer therefore accepts any player id.
- Client.Game.HandleColorChoice: requires that the pending card is still at its index and that the turn is still the client's. The source does not check this again when the colour is chosen. It also requires one of the four suit colours, the only ones the colour buttons offer; the page markup that defines those buttons is not part of this model.
- Deck.FindFirstDiscard: requires a non-empty deck. In the game, 108 cards minus at most 28 dealt always leave one.
- Client.NewGame: requires at most four players (see the roster line above).
- Client.Game.StartGame: names the shuffled deck through a ghost out-parameter instead of stating that some shuffle of a full deck was dealt.
- Client.Game.ExecutePlay: requires that it is this player's turn in a game in play. The source's `executePlay` does not check this itself; `playCard` checks it before calling (app.js:775).

## Findings

| source | as written | input that shows it | evidently intended | confidence | as-written member | corrected member |
|---|---|---|---|---|---|---|
| app.js:1169-1171 | after removing the turn holder at `eliminatedIndex`, the turn goes to `((eliminatedIndex * direction) % len + len) % len` in the shortened order | order a, b, c, d with direction -1 and the turn on b; b is eliminated, leaving a, c, d, and the turn goes to d | the comment's "next player after the eliminated position": the next seat in the current direction, which is a | not executed | Rules.RetargetBackwardExample | Rules.RetargetFixedIsNextSeat |

- The formula as written is `Turns.RetargetIndex`. `Rules.EliminationResolved` and `Client.Game.EliminatePlayer` use it, as the program does. Clockwise it is right (`Rules.RetargetForwardIsNextSeat`, `Rules.EliminationClockwisePassesTurnOn`).
- The corrected index is `Turns.RetargetIndexFixed`. The corrected move `Rules.EliminationResolvedFixed` uses it, and `Rules.EliminationFixedKeepsConsistent` and `Rules.EliminationPassesTurnOn` are proved about it.
