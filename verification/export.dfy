/** The Arduino export: the animation as a `[frames][65][4]` table of
    numbers (a settings record, then one record per LED in row-major order)
    and its rendering as a C array initializer. */
module Export {
  import opened Wrappers
  import opened Addressing
  import opened Seqs
  import opened Hex
  import opened Grid

  /** Written in place of the wire index of an unlit LED; no valid index
      (0..63) equals it. */
  const SENTINEL: int := 99
  const RECORD_WIDTH: int := 4
  const RECORDS_PER_FRAME: int := COLUMNS * ROWS + 1

  /** One table entry: a number, or `null`, which is what `JSON.stringify`
      writes for the `undefined` channels of an unparsable colour. */
  datatype Value = Num(x: real) | Null

  type Record = seq<Value>

  /** The three channel entries of a cell's colour. */
  function ColorValues(color: string): (v: seq<Value>)
    ensures |v| == 3
    ensures HexToRgb(color).Some? ==>
      var c := HexToRgb(color).value;
      v == [Num(c.r as real), Num(c.g as real), Num(c.b as real)]
    ensures HexToRgb(color).None? ==> v == [Null, Null, Null]
  {
    match HexToRgb(color)
    case Some(c) => [Num(c.r as real), Num(c.g as real), Num(c.b as real)]
    case None => [Null, Null, Null]
  }

  function LedRecord(cell: Led): Record {
    [Num((if cell.on then cell.led else SENTINEL) as real)] + ColorValues(cell.color)
  }

  /** Record 0 of a frame: wait in seconds, frame count, records per frame,
      record width. */
  function Settings(f: Frame, count: int): Record {
    [Num(f.wait as real / 1000.0), Num(count as real), Num(RECORDS_PER_FRAME as real), Num(RECORD_WIDTH as real)]
  }

  /** One frame's records: settings first, then the cells as they are
      visited row by row. */
  function FrameBlock(f: Frame, count: int): seq<Record> {
    var cells := Flatten(f.pattern);
    [Settings(f, count)] + seq(|cells|, i requires 0 <= i < |cells| => LedRecord(cells[i]))
  }

  /** The exported table: one block per frame, in frame order, each of 65
      records of 4 values for a full grid, whose record 0 holds the frame's
      wait in seconds, the frame count, 65 and 4, and whose record
      `1 + 8 * y + x` holds the cell at row `y`, column `x`: its wire index
      if lit and 99 if not, then its three colour channels. */
  function Table(frames: seq<Frame>): (t: seq<seq<Record>>)
    ensures |t| == |frames|
    ensures forall f :: 0 <= f < |frames| ==>
      |t[f]| >= 1 &&
      t[f][0] == [Num(frames[f].wait as real / 1000.0), Num(|frames| as real), Num(65.0), Num(4.0)]
    ensures forall f :: 0 <= f < |frames| && Shape(frames[f].pattern) ==>
      |t[f]| == 65 && forall k :: 0 <= k < 65 ==> |t[f][k]| == 4
    ensures forall f, y, x :: 0 <= f < |frames| && Shape(frames[f].pattern) && InGrid(x, y) ==>
      var cell := frames[f].pattern[y][x];
      var rec := t[f][1 + COLUMNS * y + x];
      rec[0] == Num((if cell.on then cell.led else 99) as real) && rec[1..] == ColorValues(cell.color)
  {
    var t := seq(|frames|, i requires 0 <= i < |frames| => FrameBlock(frames[i], |frames|));
    TableCells(frames, t);
    t
  }

  lemma TableCells(frames: seq<Frame>, t: seq<seq<Record>>)
    requires t == seq(|frames|, i requires 0 <= i < |frames| => FrameBlock(frames[i], |frames|))
    ensures forall f :: 0 <= f < |frames| && Shape(frames[f].pattern) ==>
      |t[f]| == 65 && forall k :: 0 <= k < 65 ==> |t[f][k]| == 4
    ensures forall f, y, x :: 0 <= f < |frames| && Shape(frames[f].pattern) && InGrid(x, y) ==>
      var cell := frames[f].pattern[y][x];
      var rec := t[f][1 + COLUMNS * y + x];
      rec[0] == Num((if cell.on then cell.led else 99) as real) && rec[1..] == ColorValues(cell.color)
  {
    forall f | 0 <= f < |frames| && Shape(frames[f].pattern)
      ensures |t[f]| == 65 && forall k :: 0 <= k < 65 ==> |t[f][k]| == 4
      ensures forall y, x :: InGrid(x, y) ==>
        var cell := frames[f].pattern[y][x];
        var rec := t[f][1 + COLUMNS * y + x];
        rec[0] == Num((if cell.on then cell.led else 99) as real) && rec[1..] == ColorValues(cell.color)
    {
      assert t[f] == FrameBlock(frames[f], |frames|);
      BlockLayout(frames[f], |frames|);
    }
  }

  /** The records of one frame of a full grid: 65 of width 4, the cell at
      row `y`, column `x` in record `1 + 8 * y + x`. */
  lemma BlockLayout(f: Frame, count: int)
    requires Shape(f.pattern)
    ensures var b := FrameBlock(f, count);
      |b| == 65 && (forall k :: 0 <= k < 65 ==> |b[k]| == 4) &&
      forall y, x :: InGrid(x, y) ==>
        b[1 + COLUMNS * y + x] == LedRecord(f.pattern[y][x])
  {
    var cells := Flatten(f.pattern);
    var b := FrameBlock(f, count);
    FlattenCell(f.pattern);
    forall k | 0 <= k < 65
      ensures |b[k]| == 4
    {
      if k > 0 {
        assert b[k] == LedRecord(cells[k - 1]);
      }
    }
    forall y, x | InGrid(x, y)
      ensures b[1 + COLUMNS * y + x] == LedRecord(f.pattern[y][x])
    {
      assert b[1 + COLUMNS * y + x] == LedRecord(cells[COLUMNS * y + x]);
    }
  }

  /** Reads the lit wire indices back out of a block's LED records: the
      first entry of every record that is a number other than 99. */
  function ReadLeds(records: seq<Record>): seq<int> {
    if |records| == 0 then []
    else
      var head := records[0];
      (if |head| > 0 && head[0].Num? && head[0] != Num(SENTINEL as real) then [head[0].x.Floor] else []) +
      ReadLeds(records[1..])
  }

  lemma {:induction false} ReadLedsOfCells(cells: seq<Led>)
    requires forall i :: 0 <= i < |cells| ==> 0 <= cells[i].led < LED_COUNT
    ensures ReadLeds(seq(|cells|, i requires 0 <= i < |cells| => LedRecord(cells[i]))) == LitLeds(cells)
  {
    if |cells| > 0 {
      var recs := seq(|cells|, i requires 0 <= i < |cells| => LedRecord(cells[i]));
      var tail := seq(|cells| - 1, i requires 0 <= i < |cells| - 1 => LedRecord(cells[1..][i]));
      assert recs[1..] == tail;
      ReadLedsOfCells(cells[1..]);
    }
  }

  /** The sentinel loses nothing: for a grid that keeps the invariant,
      reading the wire indices back out of the frame's exported block and
      sorting them gives exactly the frame's lit LEDs. */
  lemma ExportReadsBackActiveLeds(frames: seq<Frame>, f: int)
    requires 0 <= f < |frames| && Positional(frames[f].pattern)
    ensures Sort(ReadLeds(Table(frames)[f][1..])) == ActiveLeds(frames[f].pattern)
  {
    var cells := Flatten(frames[f].pattern);
    FlattenedLedsInRange(frames[f].pattern);
    ReadLedsOfCells(cells);
    BlockCells(frames, f);
  }

  /** A block without its settings record is the cells' records. */
  lemma BlockCells(frames: seq<Frame>, f: int)
    requires 0 <= f < |frames|
    ensures var cells := Flatten(frames[f].pattern);
      Table(frames)[f][1..] == seq(|cells|, i requires 0 <= i < |cells| => LedRecord(cells[i]))
  {
    var block := FrameBlock(frames[f], |frames|);
    assert Table(frames)[f] == block;
    assert block[1..] == seq(|Flatten(frames[f].pattern)|, i requires 0 <= i < |Flatten(frames[f].pattern)| => LedRecord(Flatten(frames[f].pattern)[i]));
  }

  lemma FlattenedLedsInRange(p: Pattern)
    requires Positional(p)
    ensures forall i :: 0 <= i < |Flatten(p)| ==> 0 <= Flatten(p)[i].led < LED_COUNT
  {
    var cells := Flatten(p);
    FlattenCell(p);
    forall i | 0 <= i < |cells|
      ensures 0 <= cells[i].led < LED_COUNT
    {
      assert cells[i] == p[i / COLUMNS][i % COLUMNS];
    }
  }

  /** For a colour literal, each channel entry is a number in 0..255. */
  lemma ExportedChannelsAreBytes(color: string)
    requires IsColorLiteral(color)
    ensures var v := ColorValues(color);
      forall i :: 0 <= i < 3 ==> v[i].Num? && 0.0 <= v[i].x < 256.0
  {
  }

  /** `s.split(sep)`: the pieces between occurrences of `sep`, one more
      piece than there are occurrences. */
  function Split(s: string, sep: char): (parts: seq<string>)
    ensures |parts| >= 1
  {
    if |s| == 0 then [""]
    else
      var rest := Split(s[1..], sep);
      if s[0] == sep then [""] + rest
      else [[s[0]] + rest[0]] + rest[1..]
  }

  /** `parts.join(glue)`. */
  function Join(parts: seq<string>, glue: string): string
    requires |parts| >= 1
  {
    if |parts| == 1 then parts[0] else parts[0] + glue + Join(parts[1..], glue)
  }

  /** The character map that replaces every `from` by `to`. */
  function MapChar(s: string, from: char, to: char): (r: string) {
    seq(|s|, i requires 0 <= i < |s| => if s[i] == from then to else s[i])
  }

  lemma JoinPrepend(c: char, parts: seq<string>, glue: string)
    requires |parts| >= 1
    ensures Join([[c] + parts[0]] + parts[1..], glue) == [c] + Join(parts, glue)
  {
    var ps := [[c] + parts[0]] + parts[1..];
    if |parts| > 1 {
      assert ps[1..] == parts[1..];
    }
  }

  /** Splitting on a character and joining with another replaces the one by
      the other and changes nothing else. */
  lemma {:induction false} SplitJoinIsMapChar(s: string, from: char, to: char)
    ensures Join(Split(s, from), [to]) == MapChar(s, from, to)
  {
    if |s| > 0 {
      var rest := Split(s[1..], from);
      SplitJoinIsMapChar(s[1..], from, to);
      assert MapChar(s, from, to) == [MapChar(s, from, to)[0]] + MapChar(s[1..], from, to);
      if s[0] == from {
        assert ([""] + rest)[1..] == rest;
      } else {
        JoinPrepend(s[0], rest, [to]);
      }
    }
  }

  /** `s.split(from).join(to)` for single characters. */
  function ReplaceAll(s: string, from: char, to: char): (r: string)
    ensures |r| == |s|
    ensures forall i :: 0 <= i < |s| ==> r[i] == if s[i] == from then to else s[i]
  {
    SplitJoinIsMapChar(s, from, to);
    Join(Split(s, from), [to])
  }

  function Brace(c: char): char {
    if c == '[' then '{' else if c == ']' then '}' else c
  }

  /** The bracket-to-brace substitution: the same text with every square
      bracket replaced by the matching curly brace, and nothing else
      changed. */
  function SwapBrackets(json: string): (r: string)
    ensures |r| == |json|
    ensures forall i :: 0 <= i < |json| ==> r[i] == Brace(json[i])
    ensures '[' !in r && ']' !in r
  {
    ReplaceAll(ReplaceAll(json, '[', '{'), ']', '}')
  }

  function DecimalDigit(d: int): char
    requires 0 <= d < 10
  {
    ('0' as int + d) as char
  }

  predicate IsDecimalDigit(c: char) {
    '0' <= c <= '9'
  }

  function DecimalValue(s: string): int
    requires forall i :: 0 <= i < |s| ==> IsDecimalDigit(s[i])
  {
    if |s| == 0 then 0 else DecimalValue(s[..|s| - 1]) * 10 + (s[|s| - 1] as int - '0' as int)
  }

  /** The decimal numeral of a frame count in the template string: the
      shortest one, without a leading zero (which C would read as octal). */
  function Decimal(n: nat): (r: string)
    ensures |r| >= 1 && forall i :: 0 <= i < |r| ==> IsDecimalDigit(r[i])
    ensures DecimalValue(r) == n
    ensures |r| == 1 <==> n < 10
    ensures |r| > 1 ==> r[0] != '0'
  {
    if n < 10 then
      var r := [DecimalDigit(n)];
      assert r[..0] == [];
      r
    else
      var h := Decimal(n / 10);
      var r := h + [DecimalDigit(n % 10)];
      assert r[..|r| - 1] == h;
      r
  }

  const HEADER_START: string := "const unsigned char PROGMEM anim["
  const HEADER_END: string := "][65][4] = "

  /** The export text around a serialised table `json`: a declaration whose
      first dimension is the frame count, then the table with braces for
      brackets, then `;`. */
  function Render(frameCount: nat, json: string): (text: string)
    ensures var head := HEADER_START + Decimal(frameCount) + HEADER_END;
      |text| == |head| + |json| + 1 && text[..|head|] == head && text[|text| - 1] == ';' &&
      forall i :: 0 <= i < |json| ==> text[|head| + i] == Brace(json[i])
  {
    HEADER_START + Decimal(frameCount) + HEADER_END + SwapBrackets(json) + ";"
  }
}
