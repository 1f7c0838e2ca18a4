/**
 * Turn arithmetic over the player order. JavaScript's `%` truncates toward
 * zero, so a negative left operand gives a non-positive remainder; the
 * source adds the length and takes the remainder again to land in range.
 */
module Turns {

  /** A number that is q times n plus m, with m in [0, n), leaves remainder m. */
  lemma ModOfSum(x: int, q: int, m: int, n: int)
    requires n > 0 && 0 <= m < n && x == q * n + m
    ensures x % n == m
  {
    var d := q - x / n;
    assert x == (x / n) * n + x % n;
    assert d * n == x % n - m;
  }

  /** JavaScript's `a % n` for a positive `n`: the remainder takes the sign of `a`. */
  function JsRemainder(a: int, n: int): (r: int)
    requires n > 0
    ensures a >= 0 ==> r == a % n
    ensures a < 0 ==> r == if a % n == 0 then 0 else a % n - n
  {
    if a >= 0 then a % n
    else
      var q, m := a / n, a % n;
      if m == 0 then
        ModOfSum(-a, -q, 0, n);
        -((-a) % n)
      else
        ModOfSum(-a, -q - 1, n - m, n);
        -((-a) % n)
  }

  /** `((x % len) + len) % len` as the source writes it: the remainder in [0, len). */
  function NonNegMod(x: int, len: int): (r: int)
    requires len > 0
    ensures 0 <= r < len
    ensures r == x % len
  {
    var t := JsRemainder(x, len) + len;
    if x >= 0 then
      ModOfSum(t, 1, x % len, len);
      JsRemainder(t, len)
    else if x % len == 0 then
      ModOfSum(t, 1, 0, len);
      JsRemainder(t, len)
    else
      ModOfSum(t, 0, t, len);
      JsRemainder(t, len)
  }

  /**
   * The index `skip` seats away from `currentIndex` in the given direction,
   * wrapping around the order.
   */
  function NextPlayerIndex<T>(order: seq<T>, currentIndex: int, direction: int, skip: int): (r: int)
    requires |order| > 0
    ensures 0 <= r < |order|
    ensures r == (currentIndex + direction * skip) % |order|
  {
    NonNegMod(currentIndex + direction * skip, |order|)
  }

  /** With two players, moving two seats in either direction comes back to the same seat. */
  lemma TwoPlayersSkipTwoReturns<T>(order: seq<T>, currentIndex: int, direction: int)
    requires |order| == 2 && 0 <= currentIndex < 2
    requires direction == 1 || direction == -1
    ensures NextPlayerIndex(order, currentIndex, direction, 2) == currentIndex
  {
  }

  /** With two or more players, one seat on always leaves the current seat. */
  lemma NextSeatDiffers<T>(order: seq<T>, currentIndex: int, direction: int)
    requires |order| >= 2 && 0 <= currentIndex < |order|
    requires direction == 1 || direction == -1
    ensures NextPlayerIndex(order, currentIndex, direction, 1) != currentIndex
  {
  }

  /**
   * With three or more players, the seat one on and the seat two on are
   * different, so the player passed over by a skip is not the one who plays.
   */
  lemma OneAndTwoSeatsDiffer<T>(order: seq<T>, currentIndex: int, direction: int)
    requires |order| >= 3 && 0 <= currentIndex < |order|
    requires direction == 1 || direction == -1
    ensures NextPlayerIndex(order, currentIndex, direction, 1) != NextPlayerIndex(order, currentIndex, direction, 2)
  {
    var n, i := |order|, currentIndex;
    if direction == 1 {
      if i + 2 < n {
        ModOfSum(i + 1, 0, i + 1, n);
        ModOfSum(i + 2, 0, i + 2, n);
      } else if i + 2 == n {
        ModOfSum(i + 1, 0, i + 1, n);
        ModOfSum(i + 2, 1, 0, n);
      } else {
        ModOfSum(i + 1, 1, 0, n);
        ModOfSum(i + 2, 1, 1, n);
      }
    } else {
      if i >= 2 {
        ModOfSum(i - 1, 0, i - 1, n);
        ModOfSum(i - 2, 0, i - 2, n);
      } else if i == 1 {
        ModOfSum(i - 1, 0, 0, n);
        ModOfSum(i - 2, -1, n - 1, n);
      } else {
        ModOfSum(i - 1, -1, n - 1, n);
        ModOfSum(i - 2, -1, n - 2, n);
      }
    }
  }

  /**
   * Where the turn goes, as written, after the player at `eliminatedIndex`
   * leaves while holding it: `((eliminatedIndex * direction) % len + len) % len`
   * in the shortened order, with a fall-back to 0 that can never fire.
   */
  function RetargetIndex(eliminatedIndex: int, direction: int, len: int): (r: int)
    requires len > 0
    ensures 0 <= r < len
    ensures r == (eliminatedIndex * direction) % len
  {
    var nextIndex := NonNegMod(eliminatedIndex * direction, len);
    if nextIndex >= len then 0 else nextIndex
  }

  /**
   * Where the turn goes after the player at `eliminatedIndex` leaves while
   * holding it, so that it reaches the player who would have moved next:
   * clockwise that player has slid into the vacated index, anticlockwise
   * it is the one just before it.
   */
  function RetargetIndexFixed(eliminatedIndex: int, direction: int, len: int): (r: int)
    requires len > 0
    ensures 0 <= r < len
    ensures direction == 1 ==> r == eliminatedIndex % len
    ensures direction != 1 ==> r == (eliminatedIndex - 1) % len
  {
    if direction == 1 then NonNegMod(eliminatedIndex, len) else NonNegMod(eliminatedIndex - 1, len)
  }
}
