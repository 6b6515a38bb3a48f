/** Serpentine ("boustrophedon") addressing of an 8x8 LED matrix.

    The strip starts at the bottom-left LED and snakes upwards, one row at a
    time, alternating direction, so that consecutive wire indices are always
    physically adjacent. Row 0 is the top row of the on-screen grid. */
module Addressing {

  const ROWS: int := 8
  const COLUMNS: int := 8
  const LED_COUNT: int := ROWS * COLUMNS

  predicate InGrid(x: int, y: int) {
    0 <= x < COLUMNS && 0 <= y < ROWS
  }

  /** Wire-order index of the LED at column `x`, row `y`.

      The parity test `y % 2 == 0` agrees with JavaScript's for every integer
      `y`, negative ones included (`-1 % 2` is `-1` there and `1` here, both
      odd), so the function is modelled on all integers. */
  function LedNumber(x: int, y: int): (n: int)
    ensures InGrid(x, y) ==> 0 <= n < LED_COUNT
    ensures InGrid(x, y) ==> n / COLUMNS == ROWS - 1 - y
  {
    var total := COLUMNS * ROWS;
    var ledNumber := total - (COLUMNS * (y + 1) - x);
    var reversed := ledNumber + (COLUMNS - 1) - 2 * x;
    if y % 2 == 0 then reversed else ledNumber
  }

  /** The grid position of wire index `n`: the inverse of `LedNumber`. */
  function Position(n: int): (p: (int, int))
    requires 0 <= n < LED_COUNT
    ensures InGrid(p.0, p.1)
    ensures LedNumber(p.0, p.1) == n
  {
    var y := ROWS - 1 - n / COLUMNS;
    var x := if y % 2 == 0 then COLUMNS - 1 - n % COLUMNS else n % COLUMNS;
    (x, y)
  }

  /** No two grid positions share a wire index. */
  lemma LedNumberInjective(x1: int, y1: int, x2: int, y2: int)
    requires InGrid(x1, y1) && InGrid(x2, y2)
    requires LedNumber(x1, y1) == LedNumber(x2, y2)
    ensures x1 == x2 && y1 == y2
  {
  }

  /** `Position` undoes `LedNumber`: together with `Position`'s own contract
      this makes `LedNumber` a bijection from the 64 positions onto 0..63. */
  lemma PositionOfLedNumber(x: int, y: int)
    requires InGrid(x, y)
    ensures Position(LedNumber(x, y)) == (x, y)
  {
    var p := Position(LedNumber(x, y));
    LedNumberInjective(p.0, p.1, x, y);
  }

  /** The top-left LED is the last one on the strip. */
  lemma TopLeftIsLast()
    ensures LedNumber(0, 0) == LED_COUNT - 1
  {
  }

  /** Horizontal neighbours are neighbours on the strip: even rows run
      right-to-left and odd rows left-to-right. */
  lemma RowNeighboursAreConsecutive(x: int, y: int)
    requires InGrid(x, y) && InGrid(x + 1, y)
    ensures y % 2 == 0 ==> LedNumber(x + 1, y) == LedNumber(x, y) - 1
    ensures y % 2 == 1 ==> LedNumber(x + 1, y) == LedNumber(x, y) + 1
  {
  }

  predicate Adjacent(p: (int, int), q: (int, int)) {
    (p.0 == q.0 && (p.1 - q.1 == 1 || q.1 - p.1 == 1)) ||
    (p.1 == q.1 && (p.0 - q.0 == 1 || q.0 - p.0 == 1))
  }

  /** The point of serpentine wiring: every pair of consecutive LEDs on the
      strip sits in horizontally or vertically adjacent cells, including the
      turn at the end of each row. */
  lemma StripIsContinuous(n: int)
    requires 0 <= n < LED_COUNT - 1
    ensures Adjacent(Position(n), Position(n + 1))
  {
    if n % COLUMNS == COLUMNS - 1 {
      assert (n + 1) / COLUMNS == n / COLUMNS + 1;
      assert (n + 1) % COLUMNS == 0;
    } else {
      assert (n + 1) / COLUMNS == n / COLUMNS;
      assert (n + 1) % COLUMNS == n % COLUMNS + 1;
    }
  }
}
