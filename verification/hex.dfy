/** Colour text: the `#rrggbb` strings stored in LED cells, the parser that
    turns them into channel bytes for the export, and the formatter that turns
    sampled pixels back into text. */
module Hex {
  import opened Wrappers

  datatype Rgb = Rgb(r: int, g: int, b: int)

  predicate IsByte(v: int) {
    0 <= v < 256
  }

  /** A colour channel, as held by a canvas pixel. */
  type Byte = v: int | IsByte(v)

  /** `[a-f\d]` under the case-insensitive flag. JavaScript's `\d` is ASCII
      only, and without the unicode flag no non-ASCII letter folds onto
      `a`..`f`. */
  predicate IsHexDigit(c: char) {
    '0' <= c <= '9' || 'a' <= c <= 'f' || 'A' <= c <= 'F'
  }

  predicate IsLowerHexDigit(c: char) {
    '0' <= c <= '9' || 'a' <= c <= 'f'
  }

  predicate AllHex(s: string) {
    forall i :: 0 <= i < |s| ==> IsHexDigit(s[i])
  }

  predicate AllLowerHex(s: string) {
    forall i :: 0 <= i < |s| ==> IsLowerHexDigit(s[i])
  }

  function DigitValue(c: char): (v: int)
    requires IsHexDigit(c)
    ensures 0 <= v < 16
  {
    if c <= '9' then c as int - '0' as int
    else if c >= 'a' then c as int - 'a' as int + 10
    else c as int - 'A' as int + 10
  }

  /** The lower-case digit `Number.prototype.toString(16)` writes for `v`. */
  function DigitChar(v: int): (c: char)
    requires 0 <= v < 16
    ensures IsLowerHexDigit(c) && IsHexDigit(c)
    ensures DigitValue(c) == v
  {
    if v < 10 then ('0' as int + v) as char else ('a' as int + v - 10) as char
  }

  /** `parseInt(s, 16)` of a non-empty run of hex digits, read most
      significant digit first. */
  function HexValue(s: string): nat
    requires AllHex(s)
  {
    if |s| == 0 then 0 else HexValue(s[..|s| - 1]) * 16 + DigitValue(s[|s| - 1])
  }

  /** Two hex digits as one byte, high digit first. */
  function ParseByte(hi: char, lo: char): (v: int)
    requires IsHexDigit(hi) && IsHexDigit(lo)
    ensures IsByte(v)
  {
    DigitValue(hi) * 16 + DigitValue(lo)
  }

  /** `parseInt` of a two-digit numeral is the byte those digits spell. */
  lemma TwoDigitValue(h: string)
    requires |h| == 2 && AllHex(h)
    ensures HexValue(h) == ParseByte(h[0], h[1])
  {
    assert h[..1][..0] == [];
    assert HexValue(h[..1]) == DigitValue(h[0]);
  }

  /** `n.toString(16)` for a non-negative integer `n`: the shortest
      lower-case hex numeral of `n`. */
  function NatToHex(n: nat): (r: string)
    ensures |r| >= 1 && AllLowerHex(r) && AllHex(r)
    ensures HexValue(r) == n
    ensures |r| == 1 <==> n < 16
    ensures n < 256 ==> |r| <= 2
    ensures |r| > 1 ==> r[0] != '0'
    decreases n
  {
    if n < 16 then
      var r := [DigitChar(n)];
      assert r[..0] == [];
      r
    else
      var h := NatToHex(n / 16);
      var r := h + [DigitChar(n % 16)];
      assert r[..|r| - 1] == h;
      r
  }

  /** `c.toString(16)` for any integer `c`, with the minus sign JavaScript
      writes for negative numbers. */
  function ToHexString(c: int): (r: string)
    ensures c >= 0 ==> r == NatToHex(c)
    ensures c < 0 ==> |r| >= 2 && r[0] == '-' && r[1..] == NatToHex(-c)
  {
    if c < 0 then "-" + NatToHex(-c) else NatToHex(c)
  }

  /** Pads a one-character hex numeral to two characters. For every byte the
      result is exactly two lower-case digits worth the byte. */
  function ComponentToHex(c: int): (r: string)
    ensures IsByte(c) ==> |r| == 2 && AllLowerHex(r) && AllHex(r) && HexValue(r) == c
    ensures c >= 0 ==> AllHex(r) && HexValue(r) == c
    ensures c < 0 ==> |r| >= 2 && r[0] == '-'
  {
    var hex := ToHexString(c);
    if |hex| == 1 then
      var r := "0" + hex;
      assert r[..1] == "0";
      assert r[..1][..0] == [];
      r
    else hex
  }

  /** The two characters written for a byte spell that byte. */
  lemma ComponentDigits(c: int)
    requires IsByte(c)
    ensures var h := ComponentToHex(c); |h| == 2 && AllLowerHex(h) && AllHex(h) && ParseByte(h[0], h[1]) == c
  {
    TwoDigitValue(ComponentToHex(c));
  }

  /** `#` followed by the three padded channels. For byte channels the text
      is seven characters: `#` and then lower-case digit pairs that spell the
      channels in order. */
  function RgbToHex(r: int, g: int, b: int): (s: string)
    ensures IsByte(r) && IsByte(g) && IsByte(b) ==>
      |s| == 7 && s[0] == '#' && AllLowerHex(s[1..]) && AllHex(s[1..]) &&
      ParseByte(s[1], s[2]) == r && ParseByte(s[3], s[4]) == g && ParseByte(s[5], s[6]) == b
  {
    var x, y, z := ComponentToHex(r), ComponentToHex(g), ComponentToHex(b);
    if IsByte(r) && IsByte(g) && IsByte(b) then
      HexTriple(x, y, z, r, g, b);
      "#" + x + y + z
    else "#" + x + y + z
  }

  lemma HexTriple(x: string, y: string, z: string, r: int, g: int, b: int)
    requires IsByte(r) && IsByte(g) && IsByte(b)
    requires x == ComponentToHex(r) && y == ComponentToHex(g) && z == ComponentToHex(b)
    ensures var s := "#" + x + y + z;
      |s| == 7 && s[0] == '#' && AllLowerHex(s[1..]) && AllHex(s[1..]) &&
      ParseByte(s[1], s[2]) == r && ParseByte(s[3], s[4]) == g && ParseByte(s[5], s[6]) == b
  {
    ComponentDigits(r);
    ComponentDigits(g);
    ComponentDigits(b);
    SixDigits(x, y, z);
  }

  lemma SixDigits(x: string, y: string, z: string)
    requires |x| == 2 && |y| == 2 && |z| == 2
    requires AllLowerHex(x) && AllLowerHex(y) && AllLowerHex(z)
    ensures var s := "#" + x + y + z;
      |s| == 7 && s[0] == '#' && AllLowerHex(s[1..]) && AllHex(s[1..]) &&
      s[1] == x[0] && s[2] == x[1] && s[3] == y[0] && s[4] == y[1] && s[5] == z[0] && s[6] == z[1]
  {
    var s := "#" + x + y + z;
    assert s[1..] == [x[0], x[1], y[0], y[1], z[0], z[1]];
  }

  /** Removes the optional leading `#` of both colour patterns. A pattern
      `^#?X$` whose `X` cannot begin with `#` matches `s` exactly when `X`
      matches `s` with one leading `#` removed. */
  function StripHash(s: string): string {
    if |s| > 0 && s[0] == '#' then s[1..] else s
  }

  /** The shorthand rewrite: a whole-string match of `#?hhh` is replaced by
      each digit doubled (the `#` is consumed by the match and not written
      back); any other string is left as it is. */
  function ExpandShorthand(s: string): string {
    var t := StripHash(s);
    if |t| == 3 && AllHex(t) then [t[0], t[0], t[1], t[1], t[2], t[2]] else s
  }

  /** What the parser accepts: an optional `#` and then exactly three or six
      hex digits of either case. */
  predicate IsColorLiteral(s: string) {
    ((|s| == 3 || |s| == 6) && AllHex(s)) ||
    ((|s| == 4 || |s| == 7) && s[0] == '#' && AllHex(s[1..]))
  }

  /** Parses a colour literal into its three channels, or `None` (the
      source's `null`) for anything else. */
  function HexToRgb(s: string): (o: Option<Rgb>)
    ensures o.Some? <==> IsColorLiteral(s)
    ensures o.Some? ==> IsByte(o.value.r) && IsByte(o.value.g) && IsByte(o.value.b)
    ensures var t := StripHash(s); |t| == 6 && AllHex(t) ==>
      AllHex(t[..2]) && AllHex(t[2..4]) && AllHex(t[4..]) &&
      o == Some(Rgb(HexValue(t[..2]), HexValue(t[2..4]), HexValue(t[4..])))
    ensures var t := StripHash(s); |t| == 3 && AllHex(t) ==>
      o == Some(Rgb(17 * DigitValue(t[0]), 17 * DigitValue(t[1]), 17 * DigitValue(t[2])))
  {
    var t := StripHash(ExpandShorthand(s));
    if |t| == 6 && AllHex(t) then
      assert AllHex(t[..2]) && AllHex(t[2..4]) && AllHex(t[4..]);
      TwoDigitValue(t[..2]);
      TwoDigitValue(t[2..4]);
      TwoDigitValue(t[4..]);
      Some(Rgb(ParseByte(t[0], t[1]), ParseByte(t[2], t[3]), ParseByte(t[4], t[5])))
    else None
  }

  /** Formatting a colour and parsing it back gives the same channels. */
  lemma RgbHexRoundTrip(r: int, g: int, b: int)
    requires IsByte(r) && IsByte(g) && IsByte(b)
    ensures HexToRgb(RgbToHex(r, g, b)) == Some(Rgb(r, g, b))
  {
    var s := RgbToHex(r, g, b);
    assert StripHash(s) == s[1..];
    assert ExpandShorthand(s) == s;
  }

  /** A three-digit colour means the six-digit colour with every digit
      doubled, with or without the `#`. */
  lemma ShorthandDoublesDigits(a: char, b: char, c: char)
    requires IsHexDigit(a) && IsHexDigit(b) && IsHexDigit(c)
    ensures HexToRgb([a, b, c]) == HexToRgb(['#', a, a, b, b, c, c])
    ensures HexToRgb(['#', a, b, c]) == HexToRgb(['#', a, a, b, b, c, c])
    ensures HexToRgb([a, b, c]) ==
      Some(Rgb(17 * DigitValue(a), 17 * DigitValue(b), 17 * DigitValue(c)))
  {
    assert StripHash(['#', a, b, c]) == [a, b, c];
    assert StripHash(['#', a, a, b, b, c, c]) == [a, a, b, b, c, c];
  }

  function LowerChar(c: char): char {
    if 'A' <= c <= 'Z' then (c as int - 'A' as int + 'a' as int) as char else c
  }

  function LowerAscii(s: string): (r: string)
    ensures |r| == |s|
    ensures forall i :: 0 <= i < |s| ==> r[i] == LowerChar(s[i])
  {
    seq(|s|, i requires 0 <= i < |s| => LowerChar(s[i]))
  }

  lemma LowerDigit(c: char)
    ensures IsHexDigit(LowerChar(c)) <==> IsHexDigit(c)
    ensures IsHexDigit(c) ==> DigitValue(LowerChar(c)) == DigitValue(c)
  {
  }

  lemma LowerAllHex(s: string)
    ensures AllHex(LowerAscii(s)) <==> AllHex(s)
  {
    var l := LowerAscii(s);
    forall i | 0 <= i < |s|
      ensures IsHexDigit(l[i]) <==> IsHexDigit(s[i])
    {
      LowerDigit(s[i]);
    }
  }

  lemma LowerStripHash(s: string)
    ensures StripHash(LowerAscii(s)) == LowerAscii(StripHash(s))
  {
  }

  lemma LowerExpandShorthand(s: string)
    ensures ExpandShorthand(LowerAscii(s)) == LowerAscii(ExpandShorthand(s))
  {
    LowerStripHash(s);
    LowerAllHex(StripHash(s));
  }

  /** The parser ignores the case of the hex letters. */
  lemma HexToRgbIgnoresCase(s: string)
    ensures HexToRgb(LowerAscii(s)) == HexToRgb(s)
  {
    var e := ExpandShorthand(s);
    LowerExpandShorthand(s);
    LowerStripHash(e);
    var t := StripHash(e);
    var u := StripHash(ExpandShorthand(LowerAscii(s)));
    assert u == LowerAscii(t);
    LowerAllHex(t);
    if |t| == 6 && AllHex(t) {
      LowerDigit(t[0]);
      LowerDigit(t[1]);
      LowerDigit(t[2]);
      LowerDigit(t[3]);
      LowerDigit(t[4]);
      LowerDigit(t[5]);
    }
  }
}
