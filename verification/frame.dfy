/** The framebuffer the clock draws into, and the drawing operations that
    stamp glyphs, the colon and the seconds bar onto it. */
module Frame {
  import opened Display
  import opened Glyphs
  import opened Progress
  import opened Layout

  datatype Option<T> = None | Some(value: T)

  /** The colon lights (7, 2) and (7, 4). */
  predicate ColonLights(i: int, j: int)
  {
    i == ColonColumn && (j == 2 || j == 4)
  }

  /** What the seconds bar writes at (i, j) for second s: full brightness on
      the first FullLeds(s) columns of the bottom row, the partial level on the
      next column when there is one and the level is above zero, and nothing
      elsewhere. */
  function BarPixel(s: int, i: int, j: int): Option<int>
    requires ValidSecond(s)
  {
    if j != BarRow then None
    else if 0 <= i < FullLeds(s) then Some(BRIGHTNESS)
    else if i == FullLeds(s) && FullLeds(s) < Width && Level(s) > 0 then Some(Level(s))
    else None
  }

  /** Some glyph of the sequence lights (i, j). */
  predicate AnyLights(p: seq<Placement>, i: int, j: int)
    requires forall k :: 0 <= k < |p| ==> p[k].digit in Digits
  {
    p != [] && (Lights(p[0].digit, p[0].x, i, j) || AnyLights(p[1..], i, j))
  }

  /** The clock face for a time: the bar on the bottom row, the digits of the
      layout and the colon at full brightness, everything else dark. */
  function TimePixel(now: Instant, i: int, j: int): int
    requires ValidInstant(now)
  {
    match BarPixel(now.second, i, j)
    case Some(v) => v
    case None => if AnyLights(Placements(now), i, j) || ColonLights(i, j) then BRIGHTNESS else 0
  }

  /** The bar writes only on the bottom row and on the matrix, with a value
      in 1..BRIGHTNESS, and the partial LED is strictly dimmer than a full one. */
  lemma BarWithinBottomRow(s: int, i: int, j: int)
    requires ValidSecond(s) && BarPixel(s, i, j).Some?
    ensures j == BarRow && InBounds(i, j)
    ensures 0 < BarPixel(s, i, j).value <= BRIGHTNESS
    ensures BarPixel(s, i, j).value < BRIGHTNESS ==>
      i == FullLeds(s) && FullLeds(s) < Width && Level(s) > 0
  {
  }

  /** At second 0 the bar writes nothing: the bottom row stays dark. */
  lemma BarDarkAtStart(i: int, j: int)
    ensures BarPixel(0, i, j) == None
  {
  }

  /** Glyph cells follow each other left to right without overlapping. */
  predicate Ordered(p: seq<Placement>)
  {
    forall k, l :: 0 <= k < l < |p| ==> p[k].x + GlyphColumns <= p[l].x
  }

  /** No glyph of the sequence lights a pixel left of all their cells or
      outside the glyph rows. */
  lemma {:induction false} NoneLights(p: seq<Placement>, i: int, j: int)
    requires forall k :: 0 <= k < |p| ==> p[k].digit in Digits
    requires (forall k :: 0 <= k < |p| ==> i < p[k].x) || j < 1 || GlyphRows < j
    ensures !AnyLights(p, i, j)
  {
    if p != [] {
      if Lights(p[0].digit, p[0].x, i, j) {
        LightsWithinCell(p[0].digit, p[0].x, i, j);
      }
      NoneLights(p[1..], i, j);
    }
  }

  /** Within the cell of the k-th glyph of an ordered sequence, only that
      glyph can light a pixel. */
  lemma {:induction false} OnlyOwnerLights(p: seq<Placement>, k: int, i: int, j: int)
    requires forall l :: 0 <= l < |p| ==> p[l].digit in Digits
    requires Ordered(p) && 0 <= k < |p| && p[k].x <= i < p[k].x + GlyphColumns
    ensures AnyLights(p, i, j) <==> Lights(p[k].digit, p[k].x, i, j)
  {
    if k == 0 {
      NoneLights(p[1..], i, j);
    } else {
      if Lights(p[0].digit, p[0].x, i, j) {
        LightsWithinCell(p[0].digit, p[0].x, i, j);
      }
      OnlyOwnerLights(p[1..], k - 1, i, j);
    }
  }

  /** Inside the cell of the k-th glyph the face shows exactly that glyph:
      its '1' cells at full brightness, its '0' cells dark. */
  lemma FaceShowsGlyph(now: Instant, k: int, r: int, c: int)
    requires ValidInstant(now)
    requires 0 <= k < |Placements(now)| && 0 <= r < GlyphRows && 0 <= c < GlyphColumns
    ensures var g := Placements(now)[k];
      TimePixel(now, g.x + c, r + 1) == if Digits[g.digit][r][c] == '1' then BRIGHTNESS else 0
  {
    var p := Placements(now);
    var g := p[k];
    DigitTableWellFormed();
    assert WellFormed(Digits[g.digit]);
    LayoutColumnsDisjoint(now);
    OnlyOwnerLights(p, k, g.x + c, r + 1);
  }

  /** The bottom row of the face is exactly the seconds bar. */
  lemma FaceBottomRowIsBar(now: Instant, i: int)
    requires ValidInstant(now)
    ensures TimePixel(now, i, BarRow) ==
      match BarPixel(now.second, i, BarRow) case Some(v) => v case None => 0
  {
    NoneLights(Placements(now), i, BarRow);
  }

  /** The colon is always on: both of its dots are lit on the face. */
  lemma FaceColonLit(now: Instant)
    requires ValidInstant(now)
    ensures TimePixel(now, ColonColumn, 2) == BRIGHTNESS
    ensures TimePixel(now, ColonColumn, 4) == BRIGHTNESS
  {
  }

  /** Outside the 3x5 glyph cells, the colon and the bar the face is dark. */
  lemma FaceDarkElsewhere(now: Instant, i: int, j: int)
    requires ValidInstant(now)
    requires forall k :: 0 <= k < |Placements(now)| ==>
      !(Placements(now)[k].x <= i < Placements(now)[k].x + GlyphColumns && 1 <= j <= GlyphRows)
    requires !ColonLights(i, j) && j != BarRow
    ensures TimePixel(now, i, j) == 0
  {
    var p := Placements(now);
    if AnyLights(p, i, j) {
      var k := OwnerOf(p, i, j);
      LightsWithinCell(p[k].digit, p[k].x, i, j);
    }
  }

  /** A glyph of the sequence that lights the pixel. */
  lemma {:induction false} OwnerOf(p: seq<Placement>, i: int, j: int) returns (k: int)
    requires forall l :: 0 <= l < |p| ==> p[l].digit in Digits
    requires AnyLights(p, i, j)
    ensures 0 <= k < |p| && Lights(p[k].digit, p[k].x, i, j)
  {
    if Lights(p[0].digit, p[0].x, i, j) {
      k := 0;
    } else {
      k := OwnerOf(p[1..], i, j);
      k := k + 1;
    }
  }

  /** AnyLights over three and four glyphs, spelled out. */
  lemma AnyLightsOfThree(a: Placement, b: Placement, c: Placement, i: int, j: int)
    requires a.digit in Digits && b.digit in Digits && c.digit in Digits
    ensures AnyLights([a, b, c], i, j) <==>
      Lights(a.digit, a.x, i, j) || Lights(b.digit, b.x, i, j) || Lights(c.digit, c.x, i, j)
  {
    assert [c][1..] == [];
    assert AnyLights([c], i, j) <==> Lights(c.digit, c.x, i, j);
    assert [b, c][1..] == [c];
    assert AnyLights([b, c], i, j) <==> Lights(b.digit, b.x, i, j) || AnyLights([c], i, j);
    assert [a, b, c][1..] == [b, c];
  }

  lemma AnyLightsOfFour(a: Placement, b: Placement, c: Placement, d: Placement, i: int, j: int)
    requires a.digit in Digits && b.digit in Digits && c.digit in Digits && d.digit in Digits
    ensures AnyLights([a, b, c, d], i, j) <==>
      Lights(a.digit, a.x, i, j) || Lights(b.digit, b.x, i, j) ||
      Lights(c.digit, c.x, i, j) || Lights(d.digit, d.x, i, j)
  {
    assert [a, b, c, d][1..] == [b, c, d];
    AnyLightsOfThree(b, c, d, i, j);
  }

  /** The LED matrix image: brightness per pixel, indexed [column, row]. */
  class Framebuffer {
    const pixels: array2<int>

    ghost predicate Valid()
    {
      pixels.Length0 == Width && pixels.Length1 == Height
    }

    /** A new image with every LED off. */
    constructor ()
      ensures Valid() && fresh(pixels)
      ensures forall i, j :: InBounds(i, j) ==> pixels[i, j] == 0
    {
      pixels := new int[Width, Height]((i, j) => 0);
    }

    /** Set one pixel; a point off the image is ignored, as the imaging
        library's point drawing does. */
    method Point(x: int, y: int, fill: int)
      requires Valid()
      modifies pixels
      ensures forall i, j :: InBounds(i, j) ==>
        pixels[i, j] == if i == x && j == y then fill else old(pixels[i, j])
    {
      if InBounds(x, y) {
        pixels[x, y] := fill;
      }
    }

    /** Stamp glyph d with its top-left corner at (x, 1): every '1' of glyph
        row r, column c sets (x + c, r + 1) to BRIGHTNESS; nothing else changes. */
    method DrawDigit(d: char, x: int)
      requires Valid() && d in Digits
      modifies pixels
      ensures forall i, j :: InBounds(i, j) ==>
        pixels[i, j] == if Lights(d, x, i, j) then BRIGHTNESS else old(pixels[i, j])
    {
      var glyph := Digits[d];
      for r := 0 to |glyph|
        invariant forall i, j :: InBounds(i, j) ==>
          pixels[i, j] == if Lights(d, x, i, j) && j - 1 < r then BRIGHTNESS else old(pixels[i, j])
      {
        var row := glyph[r];
        for c := 0 to |row|
          invariant forall i, j :: InBounds(i, j) ==>
            pixels[i, j] ==
              if Lights(d, x, i, j) && (j - 1 < r || (j - 1 == r && i - x < c)) then BRIGHTNESS
              else old(pixels[i, j])
        {
          if row[c] == '1' {
            Point(x + c, r + 1, BRIGHTNESS);
          }
        }
      }
    }

    /** When visible, light the two colon dots; otherwise change nothing. */
    method DrawColon(visible: bool)
      requires Valid()
      modifies pixels
      ensures forall i, j :: InBounds(i, j) ==>
        pixels[i, j] == if visible && ColonLights(i, j) then BRIGHTNESS else old(pixels[i, j])
    {
      if visible {
        Point(ColonColumn, 2, BRIGHTNESS);
        Point(ColonColumn, 4, BRIGHTNESS);
      }
    }

    /** Draw the seconds bar for second s on the bottom row. */
    method DrawProgress(s: int)
      requires Valid() && ValidSecond(s)
      modifies pixels
      ensures forall i, j :: InBounds(i, j) ==>
        pixels[i, j] == match BarPixel(s, i, j) case Some(v) => v case None => old(pixels[i, j])
    {
      var fullLeds := FullLeds(s);
      for x := 0 to fullLeds
        invariant forall i, j :: InBounds(i, j) ==>
          pixels[i, j] == if j == BarRow && 0 <= i < x then BRIGHTNESS else old(pixels[i, j])
      {
        assert InBounds(x, BarRow);
        Point(x, BarRow, BRIGHTNESS);
      }
      if fullLeds < Width {
        var level := Level(s);
        if level > 0 {
          assert InBounds(fullLeds, BarRow);
          Point(fullLeds, BarRow, level);
        }
      }
    }
  }

  /** Draw the clock face for a time into a new image: the hour digits (one
      at column 2, or two at columns 0 and 4), the colon, the minute digits at
      columns 9 and 13, then the seconds bar. */
  method DrawTime(now: Instant) returns (fb: Framebuffer)
    requires ValidInstant(now)
    ensures fresh(fb) && fresh(fb.pixels) && fb.Valid()
    ensures forall i, j :: InBounds(i, j) ==> fb.pixels[i, j] == TimePixel(now, i, j)
  {
    fb := new Framebuffer();
    var hour := HourText(now.hour);
    var minute := TwoDigits(now.minute);
    var p := Placements(now);
    if |hour| == 1 {
      fb.DrawDigit(hour[0], 2);
      fb.DrawColon(true);
      fb.DrawDigit(minute[0], 9);
      fb.DrawDigit(minute[1], 13);
      assert p == [Placement(hour[0], 2), Placement(minute[0], 9), Placement(minute[1], 13)];
      forall i, j {
        AnyLightsOfThree(p[0], p[1], p[2], i, j);
      }
    } else {
      fb.DrawDigit(hour[0], 0);
      fb.DrawDigit(hour[1], 4);
      fb.DrawColon(true);
      fb.DrawDigit(minute[0], 9);
      fb.DrawDigit(minute[1], 13);
      assert p == [Placement(hour[0], 0), Placement(hour[1], 4),
                   Placement(minute[0], 9), Placement(minute[1], 13)];
      forall i, j {
        AnyLightsOfFour(p[0], p[1], p[2], p[3], i, j);
      }
    }
    fb.DrawProgress(now.second);
  }

  /** One frame of the hourly explosion: a new image with every particle
      whose truncated position (x, y) lies on the matrix lit at full
      brightness; particles off the matrix are skipped. */
  method DrawParticles(cells: seq<(int, int)>) returns (fb: Framebuffer)
    ensures fresh(fb) && fresh(fb.pixels) && fb.Valid()
    ensures forall i, j :: InBounds(i, j) ==>
      fb.pixels[i, j] == if (i, j) in cells then BRIGHTNESS else 0
  {
    fb := new Framebuffer();
    for n := 0 to |cells|
      invariant forall i, j :: InBounds(i, j) ==>
        fb.pixels[i, j] == if (i, j) in cells[..n] then BRIGHTNESS else 0
    {
      var (x, y) := cells[n];
      if 0 <= x < Width && 0 <= y < Height {
        fb.Point(x, y, BRIGHTNESS);
      }
      assert cells[..n + 1] == cells[..n] + [cells[n]];
    }
    assert cells[..|cells|] == cells;
  }

  /** The hourly explosion shown frame by frame: path[n] holds the truncated
      particle positions of frame n, and frame n lights exactly those of them
      that lie on the matrix. */
  method Explosion(path: seq<seq<(int, int)>>) returns (frames: seq<Framebuffer>)
    ensures |frames| == |path|
    ensures forall n :: 0 <= n < |frames| ==>
      fresh(frames[n].pixels) && frames[n].Valid() &&
      forall i, j :: InBounds(i, j) ==>
        frames[n].pixels[i, j] == if (i, j) in path[n] then BRIGHTNESS else 0
  {
    frames := [];
    for n := 0 to |path|
      invariant |frames| == n
      invariant forall m :: 0 <= m < n ==>
        fresh(frames[m].pixels) && frames[m].Valid() &&
        forall i, j :: InBounds(i, j) ==>
          frames[m].pixels[i, j] == if (i, j) in path[m] then BRIGHTNESS else 0
    {
      var frame := DrawParticles(path[n]);
      frames := frames + [frame];
    }
  }
}
