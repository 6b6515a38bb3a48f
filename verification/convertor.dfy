/** The image-to-pattern decoder. The image is drawn on a 400x400 canvas at
    a user-chosen position and size; a fixed 80x80 selector at (160, 160) is
    cut into an 8x8 grid of 10x10 squares, and the centre pixel of each
    square becomes one lit LED. The canvas is an abstract function from
    coordinates to pixels. */
module Convertor {
  import opened Wrappers
  import opened Addressing
  import opened Hex
  import opened Grid
  import opened Seqs

  const SELECTOR_X: int := 160
  const SELECTOR_Y: int := 160
  const SELECTOR_SIZE: int := 80
  const CELL_SIZE: int := 10
  const CANVAS_SIZE: int := 400


  /** One canvas pixel as image data holds it: red, green, blue, alpha. */
  datatype Rgba = Rgba(r: Byte, g: Byte, b: Byte, a: Byte)

  /** The canvas point sampled for cell (x, y): the centre of the cell's
      square of the selector, which lies inside the selector and the
      canvas. */
  function SamplePoint(x: int, y: int): (p: (int, int))
    ensures InGrid(x, y) ==>
      SELECTOR_X + CELL_SIZE * x <= p.0 < SELECTOR_X + CELL_SIZE * (x + 1) &&
      SELECTOR_Y + CELL_SIZE * y <= p.1 < SELECTOR_Y + CELL_SIZE * (y + 1) &&
      2 * p.0 == (SELECTOR_X + CELL_SIZE * x) + (SELECTOR_X + CELL_SIZE * (x + 1)) &&
      2 * p.1 == (SELECTOR_Y + CELL_SIZE * y) + (SELECTOR_Y + CELL_SIZE * (y + 1)) &&
      SELECTOR_X <= p.0 < SELECTOR_X + SELECTOR_SIZE && SELECTOR_Y <= p.1 < SELECTOR_Y + SELECTOR_SIZE &&
      0 <= p.0 < CANVAS_SIZE && 0 <= p.1 < CANVAS_SIZE
  {
    (160 + x * 10 + 5, 160 + y * 10 + 5)
  }

  /** Different cells are sampled at different points. */
  lemma SamplePointsDistinct(x1: int, y1: int, x2: int, y2: int)
    requires InGrid(x1, y1) && InGrid(x2, y2) && (x1 != x2 || y1 != y2)
    ensures SamplePoint(x1, y1) != SamplePoint(x2, y2)
  {
  }

  /** The colour text of the pixel sampled for cell (x, y); alpha is
      ignored. */
  function SampledColor(pixelAt: (int, int) -> Rgba, x: int, y: int): string {
    var p := SamplePoint(x, y);
    var px := pixelAt(p.0, p.1);
    RgbToHex(px.r, px.g, px.b)
  }

  /** The lit cell decoded for column `x`, row `y`. */
  function DecodedCell(pixelAt: (int, int) -> Rgba, x: int, y: int): Led {
    Led(true, SampledColor(pixelAt, x, y), LedNumber(x, y))
  }

  function DecodedRow(pixelAt: (int, int) -> Rgba, y: int): seq<Led> {
    seq(COLUMNS, x => DecodedCell(pixelAt, x, y))
  }

  function DecodedPattern(pixelAt: (int, int) -> Rgba): Pattern {
    seq(ROWS, y => DecodedRow(pixelAt, y))
  }

  /** The inner sampling loop: row `y` of the decoded pattern, cell by
      cell from the left. */
  method DecodeRow(pixelAt: (int, int) -> Rgba, y: int) returns (leds: seq<Led>)
    requires 0 <= y < ROWS
    ensures leds == DecodedPattern(pixelAt)[y]
  {
    leds := [];
    var x := 0;
    while x < COLUMNS
      invariant 0 <= x <= COLUMNS
      invariant leds == DecodedRow(pixelAt, y)[..x]
    {
      var cell := DecodedCell(pixelAt, x, y);
      PrefixStep(DecodedRow(pixelAt, y), x);
      leds := leds + [cell];
      x := x + 1;
    }
    assert leds == DecodedRow(pixelAt, y);
  }

  /** Decodes the selector region: a grid that keeps the invariant, with
      every cell lit in the colour sampled at its centre. Its lit-LED list
      is therefore every wire index, and each cell's colour parses back to
      the sampled pixel's channels. */
  method Decode(pixelAt: (int, int) -> Rgba) returns (pattern: Pattern)
    ensures Positional(pattern)
    ensures forall y, x :: InGrid(x, y) ==>
      pattern[y][x].on && pattern[y][x].color == SampledColor(pixelAt, x, y)
    ensures ActiveLeds(pattern) == seq(LED_COUNT, i => i)
    ensures forall y, x :: InGrid(x, y) ==>
      var p := SamplePoint(x, y);
      var px := pixelAt(p.0, p.1);
      HexToRgb(pattern[y][x].color) == Some(Rgb(px.r, px.g, px.b))
  {
    pattern := [];
    var y := 0;
    while y < ROWS
      invariant 0 <= y <= ROWS
      invariant pattern == DecodedPattern(pixelAt)[..y]
    {
      var leds := DecodeRow(pixelAt, y);
      PrefixStep(DecodedPattern(pixelAt), y);
      pattern := pattern + [leds];
      y := y + 1;
    }
    assert pattern == DecodedPattern(pixelAt);
    DecodedShape(pixelAt);
    forall y, x | InGrid(x, y)
      ensures var p := SamplePoint(x, y);
        var px := pixelAt(p.0, p.1);
        HexToRgb(pattern[y][x].color) == Some(Rgb(px.r, px.g, px.b))
    {
      SampledColorParses(pixelAt, x, y);
    }
  }

  /** The decoded grid keeps the invariant and lights every cell. */
  lemma DecodedShape(pixelAt: (int, int) -> Rgba)
    ensures Positional(DecodedPattern(pixelAt))
    ensures forall y, x :: InGrid(x, y) ==>
      DecodedPattern(pixelAt)[y][x].on && DecodedPattern(pixelAt)[y][x].color == SampledColor(pixelAt, x, y)
    ensures ActiveLeds(DecodedPattern(pixelAt)) == seq(LED_COUNT, i => i)
  {
    var p := DecodedPattern(pixelAt);
    forall y, x | InGrid(x, y)
      ensures p[y][x] == DecodedCell(pixelAt, x, y)
    {
    }
    assert Positional(p);
    AllLitListsEveryLed(p);
  }

  /** A sampled colour parses back to the sampled pixel's channels. */
  lemma SampledColorParses(pixelAt: (int, int) -> Rgba, x: int, y: int)
    ensures var p := SamplePoint(x, y);
      var px := pixelAt(p.0, p.1);
      HexToRgb(SampledColor(pixelAt, x, y)) == Some(Rgb(px.r, px.g, px.b))
  {
    var p := SamplePoint(x, y);
    var px := pixelAt(p.0, p.1);
    RgbHexRoundTrip(px.r, px.g, px.b);
  }

  /** Pure red formats as the editor's default colour. */
  lemma RedIsDefaultColor()
    ensures RgbToHex(255, 0, 0) == DEFAULT_COLOR
  {
    assert NatToHex(15) == "f";
    assert NatToHex(255) == "ff";
    assert NatToHex(0) == "0";
  }

  /** Where the image is drawn and how large. */
  datatype Viewport = Viewport(x: int, y: int, width: int, height: int)

  /** A position/size button: the offset moves by (dx, dy) and both sides
      grow by ds; nothing else changes. */
  function Transform(v: Viewport, dx: int, dy: int, ds: int): (w: Viewport)
    ensures w.x - v.x == dx && w.y - v.y == dy
    ensures w.width - v.width == ds && w.height - v.height == ds
    ensures w.width - w.height == v.width - v.height
  {
    Viewport(v.x + dx, v.y + dy, v.width + ds, v.height + ds)
  }

  /** Two button presses amount to one press with the sums. */
  lemma TransformsCompose(v: Viewport, dx1: int, dy1: int, ds1: int, dx2: int, dy2: int, ds2: int)
    ensures Transform(Transform(v, dx1, dy1, ds1), dx2, dy2, ds2) == Transform(v, dx1 + dx2, dy1 + dy2, ds1 + ds2)
  {
  }

  /** The opposite button undoes a press. */
  lemma TransformUndo(v: Viewport, dx: int, dy: int, ds: int)
    ensures Transform(Transform(v, dx, dy, ds), -dx, -dy, -ds) == v
  {
  }
}
