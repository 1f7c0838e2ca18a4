/**
 * Cards, the 108-card deck and the rule that decides whether a card may be
 * played on the discard pile.
 */
module Cards {

  /** Card colours; both kinds of wild card carry the colour `Wild`. */
  datatype Color = Red | Blue | Green | Yellow | Wild

  /**
   * What is printed on a card. The source stores a card as a colour, a type
   * and a value; the type is determined by the value (`number` for 0-9,
   * `action` for skip, reverse and draw2, `wild` for wild and wild4), so
   * the value alone carries both.
   */
  datatype Face = Number(n: int) | Skip | Reverse | Draw2 | WildCard | WildDraw4
  {
    predicate IsAction() { Skip? || Reverse? || Draw2? }
    predicate IsWild() { WildCard? || WildDraw4? }
  }

  datatype Card = Card(color: Color, face: Face)

  /** The four playing colours, in the order the deck is generated. */
  const Colors: seq<Color> := [Red, Blue, Green, Yellow]

  /** The three action values, in the order the deck is generated. */
  const ActionFaces: seq<Face> := [Skip, Reverse, Draw2]

  // ---------------------------------------------------------------------
  // The deck
  // ---------------------------------------------------------------------

  /**
   * How many copies of `card` a deck holds, stated card by card and
   * independently of the generation order.
   */
  function Copies(card: Card): nat
  {
    match card.face
    case Number(n) => if card.color != Wild && 0 <= n <= 9 then (if n == 0 then 1 else 2) else 0
    case Skip => if card.color != Wild then 2 else 0
    case Reverse => if card.color != Wild then 2 else 0
    case Draw2 => if card.color != Wild then 2 else 0
    case WildCard => if card.color == Wild then 4 else 0
    case WildDraw4 => if card.color == Wild then 4 else 0
  }

  /** A multiset holding exactly the cards of a full deck. */
  ghost predicate IsFullDeck(m: multiset<Card>)
  {
    forall card :: m[card] == Copies(card)
  }

  /**
   * The card at offset `j` of the 25-card block of colour `color`: a 0,
   * then the numbers 1-9 twice each, then the actions twice each.
   */
  function BlockCard(color: Color, j: nat): Card
    requires j < 25
  {
    if j == 0 then Card(color, Number(0))
    else if j <= 18 then Card(color, Number((j + 1) / 2))
    else Card(color, ActionFaces[(j - 19) / 2])
  }

  /**
   * The card at position `i` of the deck in generation order: four colour
   * blocks of 25, then the wild cards alternating wild and wild-draw-four.
   */
  function CardAt(i: nat): Card
    requires i < 108
  {
    if i < 100 then BlockCard(Colors[i / 25], i % 25)
    else Card(Wild, if i % 2 == 0 then WildCard else WildDraw4)
  }

  /** The position of a playing colour in `Colors`. */
  function ColorIndex(c: Color): nat
    requires c != Wild
  {
    match c
    case Red => 0
    case Blue => 1
    case Green => 2
    case Yellow => 3
  }

  /** The cards of the first `done` colour blocks, card by card. */
  function BlocksCopies(done: nat, card: Card): nat
  {
    if card.color != Wild && ColorIndex(card.color) < done && !card.face.IsWild() then Copies(card) else 0
  }

  /** Appending block `ci` at position 25 * ci keeps every card where `CardAt` puts it. */
  lemma BlockPositions(before: seq<Card>, deck: seq<Card>, ci: nat)
    requires ci < 4 && |before| == 25 * ci && |deck| == |before| + 25
    requires forall i | 0 <= i < |before| :: before[i] == CardAt(i)
    requires deck[..|before|] == before
    requires forall j | 0 <= j < 25 :: deck[|before| + j] == BlockCard(Colors[ci], j)
    ensures forall i | 0 <= i < |deck| :: deck[i] == CardAt(i)
  {
    forall i | 0 <= i < |deck|
      ensures deck[i] == CardAt(i)
    {
      if i >= |before| {
        var j := i - |before|;
        assert deck[|before| + j] == BlockCard(Colors[ci], j);
        assert i / 25 == ci && i % 25 == j;
      } else {
        assert deck[i] == deck[..|before|][i];
      }
    }
  }

  /** Pushes two cards of each number 1-9 of colour `color` onto `deck`. */
  method PushNumberPairs(deck: seq<Card>, color: Color) returns (r: seq<Card>)
    ensures |r| == |deck| + 18
    ensures r[..|deck|] == deck
    ensures forall j | 0 <= j < 18 :: r[|deck| + j] == Card(color, Number(j / 2 + 1))
    ensures forall card :: multiset(r)[card] == multiset(deck)[card] +
                             (if card.color == color && card.face.Number? && 1 <= card.face.n <= 9 then 2 else 0)
  {
    r := deck;
    for n := 1 to 10
      invariant |r| == |deck| + 2 * (n - 1)
      invariant r[..|deck|] == deck
      invariant forall j | 0 <= j < 2 * (n - 1) :: r[|deck| + j] == Card(color, Number(j / 2 + 1))
      invariant forall card :: multiset(r)[card] == multiset(deck)[card] +
                                 (if card.color == color && card.face.Number? && 1 <= card.face.n < n then 2 else 0)
    {
      var x := Card(color, Number(n));
      ghost var m := multiset(r);
      r := r + [x, x];
      assert multiset(r) == m + multiset{x, x};
    }
  }

  /** Pushes two cards of each action value of colour `color` onto `deck`. */
  method PushActionPairs(deck: seq<Card>, color: Color) returns (r: seq<Card>)
    ensures |r| == |deck| + 6
    ensures r[..|deck|] == deck
    ensures forall j | 0 <= j < 6 :: r[|deck| + j] == Card(color, ActionFaces[j / 2])
    ensures forall card :: multiset(r)[card] == multiset(deck)[card] +
                             (if card.color == color && card.face.IsAction() then 2 else 0)
  {
    r := deck;
    for ai := 0 to |ActionFaces|
      invariant |r| == |deck| + 2 * ai
      invariant r[..|deck|] == deck
      invariant forall j | 0 <= j < 2 * ai :: r[|deck| + j] == Card(color, ActionFaces[j / 2])
      invariant forall card :: multiset(r)[card] == multiset(deck)[card] +
                                 (if card.color == color && card.face in ActionFaces[..ai] then 2 else 0)
    {
      var x := Card(color, ActionFaces[ai]);
      ActionPairPositions(deck, color, r, ai);
      ActionPairCounts(deck, color, r, ai);
      r := r + [x, x];
    }
    assert ActionFaces[..|ActionFaces|] == ActionFaces;
  }

  lemma ActionPairPositions(deck: seq<Card>, color: Color, r: seq<Card>, ai: nat)
    requires ai < 3 && |r| == |deck| + 2 * ai && r[..|deck|] == deck
    requires forall j | 0 <= j < 2 * ai :: r[|deck| + j] == Card(color, ActionFaces[j / 2])
    ensures var x := Card(color, ActionFaces[ai]);
            && (r + [x, x])[..|deck|] == deck
            && forall j | 0 <= j < 2 * (ai + 1) :: (r + [x, x])[|deck| + j] == Card(color, ActionFaces[j / 2])
  {
    var x := Card(color, ActionFaces[ai]);
    var r' := r + [x, x];
    assert r'[..|deck|] == r[..|deck|];
    forall j | 0 <= j < 2 * (ai + 1) ensures r'[|deck| + j] == Card(color, ActionFaces[j / 2]) {
      if j < 2 * ai {
        assert r'[|deck| + j] == r[|deck| + j];
      }
    }
  }

  lemma ActionPairCounts(deck: seq<Card>, color: Color, r: seq<Card>, ai: nat)
    requires ai < 3
    requires forall card :: multiset(r)[card] == multiset(deck)[card] +
                              (if card.color == color && card.face in ActionFaces[..ai] then 2 else 0)
    ensures var x := Card(color, ActionFaces[ai]);
            forall card :: multiset(r + [x, x])[card] == multiset(deck)[card] +
                             (if card.color == color && card.face in ActionFaces[..ai + 1] then 2 else 0)
  {
    var x := Card(color, ActionFaces[ai]);
    assert ActionFaces[..ai + 1] == ActionFaces[..ai] + [ActionFaces[ai]];
    assert multiset(r + [x, x]) == multiset(r) + multiset{x, x};
  }

  /**
   * Pushes the 25 cards of colour `color` onto `deck`: one 0, two of each
   * 1-9, two of each action.
   */
  method PushColorBlock(deck: seq<Card>, color: Color) returns (r: seq<Card>)
    requires color != Wild
    ensures |r| == |deck| + 25
    ensures r[..|deck|] == deck
    ensures forall j | 0 <= j < 25 :: r[|deck| + j] == BlockCard(color, j)
    ensures forall card :: multiset(r)[card] == multiset(deck)[card] +
                             (if card.color == color && !card.face.IsWild() then Copies(card) else 0)
  {
    var withZero := deck + [Card(color, Number(0))];
    var withNumbers := PushNumberPairs(withZero, color);
    r := PushActionPairs(withNumbers, color);
    forall j | 0 <= j < 25
      ensures r[|deck| + j] == BlockCard(color, j)
    {
      if j == 0 {
        assert r[|deck|] == r[..|withNumbers|][..|withZero|][|deck|];
      } else if j <= 18 {
        assert r[|deck| + j] == r[..|withNumbers|][|withZero| + (j - 1)];
        assert (j - 1) / 2 + 1 == (j + 1) / 2;
      } else {
        assert r[|deck| + j] == r[|withNumbers| + (j - 19)];
      }
    }
    assert r[..|deck|] == r[..|withNumbers|][..|withZero|][..|deck|];
  }

  /**
   * Builds the deck by pushing cards colour by colour (a 0, two of each
   * 1-9, two of each action), then four wild and wild-draw-four pairs.
   */
  method GenerateDeck() returns (deck: seq<Card>)
    ensures |deck| == 108
    ensures forall i | 0 <= i < |deck| :: deck[i] == CardAt(i)
    ensures IsFullDeck(multiset(deck))
  {
    deck := [];
    for ci := 0 to |Colors|
      invariant |deck| == 25 * ci
      invariant forall i | 0 <= i < |deck| :: deck[i] == CardAt(i)
      invariant forall card :: multiset(deck)[card] == BlocksCopies(ci, card)
    {
      var color := Colors[ci];
      ghost var before := deck;
      deck := PushColorBlock(deck, color);
      BlockPositions(before, deck, ci);
      assert ColorIndex(color) == ci;
    }
    deck := PushWildPairs(deck);
  }

  /** Pushes four rounds of one wild and one wild-draw-four onto the colour blocks. */
  method PushWildPairs(deck: seq<Card>) returns (r: seq<Card>)
    requires |deck| == 100
    requires forall i | 0 <= i < |deck| :: deck[i] == CardAt(i)
    requires forall card :: multiset(deck)[card] == BlocksCopies(4, card)
    ensures |r| == 108
    ensures forall i | 0 <= i < |r| :: r[i] == CardAt(i)
    ensures IsFullDeck(multiset(r))
  {
    r := deck;
    for i := 0 to 4
      invariant |r| == 100 + 2 * i
      invariant forall k | 0 <= k < |r| :: r[k] == CardAt(k)
      invariant forall card :: multiset(r)[card] ==
                               BlocksCopies(4, card) + (if card.color == Wild && card.face.IsWild() then i else 0)
    {
      var wild, wild4 := Card(Wild, WildCard), Card(Wild, WildDraw4);
      WildPairPositions(r, i);
      WildPairCounts(r, i);
      r := r + [wild, wild4];
    }
    forall card ensures multiset(r)[card] == Copies(card) {
      if card.color != Wild {
        assert ColorIndex(card.color) < 4;
      }
    }
  }

  lemma WildPairCounts(r: seq<Card>, i: nat)
    requires forall card :: multiset(r)[card] ==
                              BlocksCopies(4, card) + (if card.color == Wild && card.face.IsWild() then i else 0)
    ensures forall card :: multiset(r + [Card(Wild, WildCard), Card(Wild, WildDraw4)])[card] ==
                             BlocksCopies(4, card) + (if card.color == Wild && card.face.IsWild() then i + 1 else 0)
  {
    var wild, wild4 := Card(Wild, WildCard), Card(Wild, WildDraw4);
    assert multiset(r + [wild, wild4]) == multiset(r) + multiset{wild, wild4};
  }

  /** Round `i` of the wild cards goes to positions 100 + 2i and 101 + 2i, where `CardAt` puts them. */
  lemma WildPairPositions(r: seq<Card>, i: nat)
    requires i < 4 && |r| == 100 + 2 * i
    requires forall k | 0 <= k < |r| :: r[k] == CardAt(k)
    ensures var r' := r + [Card(Wild, WildCard), Card(Wild, WildDraw4)];
            forall k | 0 <= k < |r'| :: r'[k] == CardAt(k)
  {
    var r' := r + [Card(Wild, WildCard), Card(Wild, WildDraw4)];
    ModOfSum2(100 + 2 * i, 50 + i, 0);
    ModOfSum2(101 + 2 * i, 50 + i, 1);
    forall k | 0 <= k < |r'| ensures r'[k] == CardAt(k) {
      if k < |r| {
        assert r'[k] == r[k];
      }
    }
  }

  /** A number that is 2q + m with m in {0, 1} leaves remainder m on division by two. */
  lemma ModOfSum2(x: int, q: int, m: int)
    requires 0 <= m < 2 && x == 2 * q + m
    ensures x % 2 == m
  {
  }

  // ---------------------------------------------------------------------
  // Play validation
  // ---------------------------------------------------------------------

  /**
   * Whether `card` may be played on `top` while `currentColor` is the active
   * colour: wild cards always; otherwise a colour match, or the same number,
   * or the same action.
   */
  function IsPlayable(card: Card, top: Card, currentColor: Color): (r: bool)
    ensures card.face.IsWild() ==> r
    ensures r <==> card.face.IsWild() || card.color == currentColor || card.face == top.face
  {
    if card.face.IsWild() then true
    else if card.color == currentColor then true
    else if card.face.Number? && top.face.Number? && card.face.n == top.face.n then true
    else if card.face.IsAction() && top.face.IsAction() && card.face == top.face then true
    else false
  }
}
