/** Where the clock face puts its digits: the 12-hour text of the hour, the
    two-digit minute, and the column of each stamped glyph. */
module Layout {
  import opened Display
  import opened Glyphs
  import opened Progress

  /** The fields of the local time the clock face reads. */
  datatype Instant = Instant(hour: int, minute: int, second: int)

  /** A time as the system clock reports it: tm_hour 0..23, tm_min 0..59, tm_sec 0..61. */
  predicate ValidInstant(now: Instant)
  {
    0 <= now.hour <= 23 && 0 <= now.minute <= 59 && ValidSecond(now.second)
  }

  /** One glyph to stamp: the digit and the column of its left edge. */
  datatype Placement = Placement(digit: char, x: int)

  /** The hour on a 12-hour dial, as strftime's %I gives it: 1..12, with
      midnight and noon shown as 12. */
  function Hour12(h: int): (t: int)
    requires 0 <= h <= 23
    ensures 1 <= t <= 12
    ensures t % 12 == h % 12
  {
    (h + 11) % 12 + 1
  }

  /** A number 0..99 written with two digits, leading zero included (%I, %M). */
  function TwoDigits(n: int): (s: string)
    requires 0 <= n <= 99
    ensures |s| == 2 && s[0] in Digits && s[1] in Digits
    ensures DigitValue(s[0]) * 10 + DigitValue(s[1]) == n
  {
    [DigitChar(n / 10), DigitChar(n % 10)]
  }

  /** The hour text drawn on the face: %I with a leading zero removed. */
  function HourText(h: int): (s: string)
    requires 0 <= h <= 23
    ensures |s| == 1 || |s| == 2
    ensures forall k :: 0 <= k < |s| ==> s[k] in Digits
  {
    var hour := TwoDigits(Hour12(h));
    if hour[0] == '0' then [hour[1]] else hour
  }

  /** The glyphs of the clock face in drawing order: the hour digits, then the
      two minute digits at columns 9 and 13. */
  function Placements(now: Instant): (p: seq<Placement>)
    requires ValidInstant(now)
    ensures forall k :: 0 <= k < |p| ==> p[k].digit in Digits
  {
    var hour := HourText(now.hour);
    var minute := TwoDigits(now.minute);
    (if |hour| == 1 then [Placement(hour[0], 2)]
     else [Placement(hour[0], 0), Placement(hour[1], 4)])
    + [Placement(minute[0], 9), Placement(minute[1], 13)]
  }

  /** The value of a run of glyphs read left to right as a decimal number. */
  function Reading(p: seq<Placement>): int
  {
    if p == [] then 0 else Reading(p[..|p| - 1]) * 10 + DigitValue(p[|p| - 1].digit)
  }

  /** A one-digit hour (1..9) is drawn alone at column 2; 10..12 is drawn as
      '1' at column 0 and its second digit at column 4. The minute's tens and
      units are always at columns 9 and 13. */
  lemma LayoutPositions(now: Instant)
    requires ValidInstant(now)
    ensures var t := Hour12(now.hour);
      var minutes := [Placement(DigitChar(now.minute / 10), 9), Placement(DigitChar(now.minute % 10), 13)];
      Placements(now) ==
        if t <= 9 then [Placement(DigitChar(t), 2)] + minutes
        else [Placement('1', 0), Placement(DigitChar(t - 10), 4)] + minutes
  {
  }

  /** The glyphs left of the colon read as the 12-hour hour, the last two as
      the minute, so the face shows the time. */
  lemma {:induction false} LayoutShowsTime(now: Instant)
    requires ValidInstant(now)
    ensures var p := Placements(now);
      |p| >= 2 &&
      Reading(p[..|p| - 2]) == Hour12(now.hour) &&
      Reading(p[|p| - 2..]) == now.minute
  {
    var p := Placements(now);
    var t := Hour12(now.hour);
    var k := |p| - 2;
    LayoutPositions(now);
    if t <= 9 {
      assert p[..k] == [Placement(DigitChar(t), 2)];
      assert Reading(p[..k][..0]) == 0;
    } else {
      assert p[..k] == [Placement('1', 0), Placement(DigitChar(t - 10), 4)];
      assert p[..k][..1] == [Placement('1', 0)];
      assert Reading(p[..k][..1][..0]) == 0;
    }
    var m := p[k..];
    assert m[..1] == [m[0]] && m[..1][..0] == [];
  }

  /** Every glyph cell lies on the matrix, left of or right of the colon
      column, and the cells follow each other left to right without overlap. */
  lemma LayoutColumnsDisjoint(now: Instant)
    requires ValidInstant(now)
    ensures var p := Placements(now);
      (forall k :: 0 <= k < |p| ==>
         0 <= p[k].x && p[k].x + GlyphColumns <= Width &&
         (p[k].x + GlyphColumns <= ColonColumn || ColonColumn < p[k].x)) &&
      (forall k, l :: 0 <= k < l < |p| ==> p[k].x + GlyphColumns <= p[l].x)
  {
  }
}
