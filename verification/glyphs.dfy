/** The compact 3x5 digit font and what stamping one glyph lights. */
module Glyphs {

  /** A glyph: rows from top to bottom, each a string of '0' (dark) and '1' (lit). */
  type Glyph = seq<string>

  /** The font, keyed by digit character. */
  const Digits: map<char, Glyph> := map[
    '0' := ["111", "101", "101", "101", "111"],
    '1' := ["010", "110", "010", "010", "111"],
    '2' := ["111", "001", "111", "100", "111"],
    '3' := ["111", "001", "111", "001", "111"],
    '4' := ["101", "101", "111", "001", "001"],
    '5' := ["111", "100", "111", "001", "111"],
    '6' := ["111", "100", "111", "101", "111"],
    '7' := ["111", "001", "001", "001", "001"],
    '8' := ["111", "101", "111", "101", "111"],
    '9' := ["111", "101", "111", "001", "111"]
  ]

  const GlyphRows: int := 5
  const GlyphColumns: int := 3

  predicate IsDigitChar(c: char)
  {
    '0' <= c <= '9'
  }

  /** Exactly five rows of exactly three characters, each '0' or '1'. */
  predicate WellFormed(g: Glyph)
  {
    |g| == GlyphRows &&
    forall r :: 0 <= r < |g| ==>
      |g[r]| == GlyphColumns && forall c :: 0 <= c < |g[r]| ==> g[r][c] == '0' || g[r][c] == '1'
  }

  /** The font has a glyph for each decimal digit and nothing else, and every glyph is 3x5. */
  lemma DigitTableWellFormed()
    ensures forall d :: d in Digits <==> IsDigitChar(d)
    ensures forall d :: d in Digits ==> WellFormed(Digits[d])
  {
  }

  /** No two digits share a glyph, so a stamped glyph identifies its digit. */
  lemma GlyphsDistinct(d1: char, d2: char)
    requires d1 in Digits && d2 in Digits && d1 != d2
    ensures Digits[d1] != Digits[d2]
  {
  }

  /** The character for the decimal digit n. */
  function DigitChar(n: int): (c: char)
    requires 0 <= n <= 9
    ensures IsDigitChar(c) && c in Digits
    ensures DigitValue(c) == n
  {
    DigitTableWellFormed();
    ('0' as int + n) as char
  }

  /** The value of a digit character. */
  function DigitValue(c: char): int
  {
    c as int - '0' as int
  }

  /** Stamping glyph d with its top-left corner at column x lights pixel (i, j):
      glyph row j - 1, column i - x exists and is '1' (glyphs start on row 1). */
  predicate Lights(d: char, x: int, i: int, j: int)
    requires d in Digits
  {
    var r, c := j - 1, i - x;
    0 <= r < |Digits[d]| && 0 <= c < |Digits[d][r]| && Digits[d][r][c] == '1'
  }

  /** A stamped glyph lights only rows 1..5 and columns x..x+2. */
  lemma LightsWithinCell(d: char, x: int, i: int, j: int)
    requires d in Digits && Lights(d, x, i, j)
    ensures 1 <= j <= GlyphRows && x <= i < x + GlyphColumns
  {
    DigitTableWellFormed();
  }
}
