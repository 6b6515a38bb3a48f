/** LED cells, 8x8 patterns and frames, and the two conversions between a
    pattern and its sparse form: the ascending list of lit wire indices. */
module Grid {
  import opened Wrappers
  import opened Addressing
  import opened Seqs

  const DEFAULT_COLOR: string := "#ff0000"
  const DEFAULT_WAIT: int := 1000

  /** One LED cell: whether it is lit, its colour text and its wire index. */
  datatype Led = Led(on: bool, color: string, led: int)

  /** Rows of cells, row 0 at the top. */
  type Pattern = seq<seq<Led>>

  /** One animation frame: how long it is shown, in milliseconds, and what. */
  datatype Frame = Frame(wait: int, pattern: Pattern)

  predicate Shape(p: Pattern) {
    |p| == ROWS && forall y :: 0 <= y < ROWS ==> |p[y]| == COLUMNS
  }

  /** The grid invariant: 8 rows of 8 cells, each carrying the wire index of
      its own position, so the indices are exactly 0..63, each once. */
  predicate Positional(p: Pattern) {
    Shape(p) && forall y, x :: 0 <= y < ROWS && 0 <= x < COLUMNS ==> p[y][x].led == LedNumber(x, y)
  }

  /** A fresh grid: every cell gets its serpentine index, is lit exactly when
      that index is listed in `active`, and has colour `color`. */
  function DefaultGrid(active: seq<int>, color: string): (p: Pattern)
    ensures Positional(p)
    ensures forall y, x :: InGrid(x, y) ==>
      p[y][x].on == (LedNumber(x, y) in active) && p[y][x].color == color
  {
    seq(ROWS, y => seq(COLUMNS, x => var led := LedNumber(x, y); Led(led in active, color, led)))
  }

  /** A new frame: one second long, every LED off. */
  function DefaultFrame(): (f: Frame)
    ensures f.wait == DEFAULT_WAIT
    ensures Positional(f.pattern)
    ensures forall y, x :: InGrid(x, y) ==> !f.pattern[y][x].on && f.pattern[y][x].color == DEFAULT_COLOR
    ensures ActiveLeds(f.pattern) == []
  {
    var f := Frame(DEFAULT_WAIT, DefaultGrid([], DEFAULT_COLOR));
    NoneLitListsNothing(f.pattern);
    f
  }

  /** The rows joined end to end, as the `reduce` with `concat` builds them. */
  function Flatten(p: Pattern): seq<Led> {
    if |p| == 0 then [] else Flatten(p[..|p| - 1]) + p[|p| - 1]
  }

  /** In a grid of full rows the cell of row `y`, column `x` sits at
      `8 * y + x` of the flattened list: row-major order. */
  lemma {:induction false} FlattenIndex(p: Pattern)
    requires forall y :: 0 <= y < |p| ==> |p[y]| == COLUMNS
    ensures |Flatten(p)| == COLUMNS * |p|
    ensures forall i :: 0 <= i < COLUMNS * |p| ==> Flatten(p)[i] == p[i / COLUMNS][i % COLUMNS]
  {
    if |p| > 0 {
      var init := p[..|p| - 1];
      FlattenIndex(init);
      forall i | 0 <= i < COLUMNS * |p|
        ensures Flatten(p)[i] == p[i / COLUMNS][i % COLUMNS]
      {
        if i < COLUMNS * |init| {
          assert Flatten(p)[i] == Flatten(init)[i];
        } else {
          assert i / COLUMNS == |p| - 1;
        }
      }
    }
  }

  lemma FlattenCell(p: Pattern)
    requires Shape(p)
    ensures |Flatten(p)| == LED_COUNT
    ensures forall y, x :: InGrid(x, y) ==> Flatten(p)[COLUMNS * y + x] == p[y][x]
    ensures forall i :: 0 <= i < LED_COUNT ==> Flatten(p)[i] == p[i / COLUMNS][i % COLUMNS]
  {
    FlattenIndex(p);
    forall y, x | InGrid(x, y)
      ensures Flatten(p)[COLUMNS * y + x] == p[y][x]
    {
      var i := COLUMNS * y + x;
      assert i / COLUMNS == y && i % COLUMNS == x;
    }
  }

  predicate DistinctLeds(cells: seq<Led>) {
    forall i, j :: 0 <= i < j < |cells| ==> cells[i].led != cells[j].led
  }

  /** The wire indices of the lit cells, in list order (`filter` then
      `map`). */
  function LitLeds(cells: seq<Led>): (r: seq<int>)
    ensures forall n :: n in r <==> exists i :: 0 <= i < |cells| && cells[i].on && cells[i].led == n
    ensures DistinctLeds(cells) ==> Distinct(r)
  {
    if |cells| == 0 then []
    else
      var rest := LitLeds(cells[1..]);
      var head := if cells[0].on then [cells[0].led] else [];
      LitLedsStep(cells, rest);
      head + rest
  }

  lemma LitLedsStep(cells: seq<Led>, rest: seq<int>)
    requires |cells| > 0
    requires forall n :: n in rest <==> exists i :: 0 <= i < |cells[1..]| && cells[1..][i].on && cells[1..][i].led == n
    requires DistinctLeds(cells[1..]) ==> Distinct(rest)
    ensures var r := (if cells[0].on then [cells[0].led] else []) + rest;
      (forall n :: n in r <==> exists i :: 0 <= i < |cells| && cells[i].on && cells[i].led == n) &&
      (DistinctLeds(cells) ==> Distinct(r))
  {
    var r := (if cells[0].on then [cells[0].led] else []) + rest;
    forall n
      ensures n in r <==> exists i :: 0 <= i < |cells| && cells[i].on && cells[i].led == n
    {
      if exists i :: 0 <= i < |cells| && cells[i].on && cells[i].led == n {
        var i :| 0 <= i < |cells| && cells[i].on && cells[i].led == n;
        if i > 0 {
          assert cells[1..][i - 1] == cells[i];
        }
      }
      if n in rest {
        var i :| 0 <= i < |cells[1..]| && cells[1..][i].on && cells[1..][i].led == n;
        assert cells[i + 1] == cells[1..][i];
      }
    }
    if DistinctLeds(cells) {
      forall i, j | 0 <= i < j < |cells[1..]|
        ensures cells[1..][i].led != cells[1..][j].led
      {
        assert cells[1..][i] == cells[i + 1] && cells[1..][j] == cells[j + 1];
      }
      forall n | n in rest
        ensures n != cells[0].led
      {
        var i :| 0 <= i < |cells[1..]| && cells[1..][i].on && cells[1..][i].led == n;
        assert cells[1..][i] == cells[i + 1];
      }
      forall j | 0 < j < |r|
        ensures r[0] != r[j]
      {
        if cells[0].on {
          assert r[j] == rest[j - 1];
          assert rest[j - 1] in rest;
        }
      }
    }
  }

  /** The lit wire indices of a pattern in ascending order: for a grid,
      exactly the indices of its lit cells, and for a grid that keeps the
      invariant, each index at most once. */
  function ActiveLeds(p: Pattern): (r: seq<int>)
    ensures Sorted(r)
    ensures Shape(p) ==>
      forall n :: n in r <==> exists y, x :: InGrid(x, y) && p[y][x].on && p[y][x].led == n
    ensures Positional(p) ==> StrictlyIncreasing(r)
  {
    var r := Sort(LitLeds(Flatten(p)));
    if Shape(p) then
      ActiveLedsMembers(p);
      r
    else r
  }

  lemma ActiveLedsMembers(p: Pattern)
    requires Shape(p)
    ensures forall n :: n in Sort(LitLeds(Flatten(p))) <==> exists y, x :: InGrid(x, y) && p[y][x].on && p[y][x].led == n
    ensures Positional(p) ==> StrictlyIncreasing(Sort(LitLeds(Flatten(p))))
  {
    var r := Sort(LitLeds(Flatten(p)));
    forall n
      ensures n in r <==> n in LitLeds(Flatten(p))
    {
      assert n in r <==> n in multiset(r);
    }
    LitFlattenMembers(p);
    if Positional(p) {
      PositionalLedsDistinct(p);
    }
  }

  /** For a grid, the lit indices of the flattened list are those of the lit
      cells. */
  lemma LitFlattenMembers(p: Pattern)
    requires Shape(p)
    ensures forall n :: n in LitLeds(Flatten(p)) <==>
      exists y, x :: InGrid(x, y) && p[y][x].on && p[y][x].led == n
  {
    var cells := Flatten(p);
    FlattenCell(p);
    forall n
      ensures n in LitLeds(cells) <==> exists y, x :: InGrid(x, y) && p[y][x].on && p[y][x].led == n
    {
      if exists y, x :: InGrid(x, y) && p[y][x].on && p[y][x].led == n {
        var y, x :| InGrid(x, y) && p[y][x].on && p[y][x].led == n;
        assert cells[COLUMNS * y + x] == p[y][x];
      }
      if n in LitLeds(cells) {
        var i :| 0 <= i < |cells| && cells[i].on && cells[i].led == n;
        assert InGrid(i % COLUMNS, i / COLUMNS);
        assert cells[i] == p[i / COLUMNS][i % COLUMNS];
      }
    }
  }

  /** A grid that keeps the invariant flattens to cells with distinct
      indices. */
  lemma PositionalLedsDistinct(p: Pattern)
    requires Positional(p)
    ensures DistinctLeds(Flatten(p))
  {
    var cells := Flatten(p);
    FlattenCell(p);
    forall i, j | 0 <= i < j < |cells|
      ensures cells[i].led != cells[j].led
    {
      assert cells[i] == p[i / COLUMNS][i % COLUMNS];
      assert cells[j] == p[j / COLUMNS][j % COLUMNS];
      if LedNumber(i % COLUMNS, i / COLUMNS) == LedNumber(j % COLUMNS, j / COLUMNS) {
        LedNumberInjective(i % COLUMNS, i / COLUMNS, j % COLUMNS, j / COLUMNS);
      }
    }
  }

  /** The lit pattern for a list of wire indices; a missing colour falls back
      to the default parameter, red. */
  function PatternFromActiveLeds(active: seq<int>, color: Option<string>): (p: Pattern)
    ensures Positional(p)
    ensures forall y, x :: InGrid(x, y) ==> p[y][x].color == color.GetOr(DEFAULT_COLOR)
  {
    DefaultGrid(active, color.GetOr(DEFAULT_COLOR))
  }

  /** Reference definition: the wire indices from `k` up to 63 that occur in
      `ids`, ascending, each once. */
  function ListedFrom(ids: seq<int>, k: int): (r: seq<int>)
    requires 0 <= k <= LED_COUNT
    ensures StrictlyIncreasing(r)
    ensures forall n :: n in r <==> k <= n < LED_COUNT && n in ids
    decreases LED_COUNT - k
  {
    if k == LED_COUNT then []
    else
      var rest := ListedFrom(ids, k + 1);
      if k in ids then
        assert forall j :: 0 <= j < |rest| ==> rest[j] in rest;
        [k] + rest
      else rest
  }

  /** The sorted, duplicate-free members of `ids` that are valid wire
      indices. */
  function CanonicalIds(ids: seq<int>): seq<int> {
    ListedFrom(ids, 0)
  }

  /** Building a pattern from a list of indices and reading its lit indices
      back yields the list sorted, without duplicates and without anything
      outside 0..63. */
  lemma PatternRoundTrip(ids: seq<int>, color: Option<string>)
    ensures ActiveLeds(PatternFromActiveLeds(ids, color)) == CanonicalIds(ids)
  {
    var p := PatternFromActiveLeds(ids, color);
    var r := ActiveLeds(p);
    forall n
      ensures n in r <==> n in CanonicalIds(ids)
    {
      if 0 <= n < LED_COUNT && n in ids {
        var q := Position(n);
        assert p[q.1][q.0].on && p[q.1][q.0].led == n;
      }
    }
    StrictlyIncreasingUnique(r, CanonicalIds(ids));
  }

  /** Reading a grid's lit indices and building a pattern from them restores
      every cell's on/off state and index. */
  lemma ActiveLedsRoundTrip(p: Pattern, color: Option<string>)
    requires Positional(p)
    ensures var q := PatternFromActiveLeds(ActiveLeds(p), color);
      forall y, x :: InGrid(x, y) ==> q[y][x].on == p[y][x].on && q[y][x].led == p[y][x].led
  {
    var r := ActiveLeds(p);
    forall y, x | InGrid(x, y)
      ensures (LedNumber(x, y) in r) == p[y][x].on
    {
      if LedNumber(x, y) in r {
        var y', x' :| InGrid(x', y') && p[y'][x'].on && p[y'][x'].led == LedNumber(x, y);
        LedNumberInjective(x', y', x, y);
      }
    }
  }

  /** A grid with every cell lit lists every wire index, in order. */
  lemma AllLitListsEveryLed(p: Pattern)
    requires Positional(p)
    requires forall y, x :: InGrid(x, y) ==> p[y][x].on
    ensures ActiveLeds(p) == seq(LED_COUNT, i => i)
  {
    var all := seq(LED_COUNT, i => i);
    var r := ActiveLeds(p);
    forall n
      ensures n in r <==> n in all
    {
      if 0 <= n < LED_COUNT {
        var q := Position(n);
        assert p[q.1][q.0].on && p[q.1][q.0].led == n;
        assert all[n] == n;
      }
    }
    StrictlyIncreasingUnique(r, all);
  }

  /** A grid with every cell off lists nothing. */
  lemma NoneLitListsNothing(p: Pattern)
    requires Positional(p)
    requires forall y, x :: InGrid(x, y) ==> !p[y][x].on
    ensures ActiveLeds(p) == []
  {
    StrictlyIncreasingUnique(ActiveLeds(p), []);
  }
}
