/** The seconds sweep on the bottom row: how many LEDs are fully lit and how
    bright the leading, partially lit LED is, for a given tm_sec. */
module Progress {
  import opened Display

  /** tm_sec ranges over 0..61 (60 and 61 are leap seconds). */
  predicate ValidSecond(s: int)
  {
    0 <= s <= 61
  }

  /** The source's progress, (s + s / 60) / 60 * 16, is the exact fraction
      ProgressNumerator(s) / ProgressDenominator. */
  function ProgressNumerator(s: int): int
  {
    (60 * s + s) * Width
  }

  const ProgressDenominator: int := 60 * 60

  /** full_leds: the number of fully lit LEDs, int(progress) = floor(61 * s / 225). */
  function FullLeds(s: int): (n: int)
    requires ValidSecond(s)
    ensures 0 <= n <= Width
    ensures n == Width <==> s >= 60
  {
    (61 * s) / 225
  }

  /** level: the leading LED's brightness, int(BRIGHTNESS * partial) where partial
      is the fractional part of progress; always darker than a full LED. */
  function Level(s: int): (v: int)
    requires ValidSecond(s)
    ensures 0 <= v < BRIGHTNESS
  {
    (BRIGHTNESS * ((61 * s) % 225)) / 225
  }

  /** The integer formulas are the truncations the source takes of its exact
      progress: full_leds = int(progress) and level = int(BRIGHTNESS * partial). */
  lemma ExactTruncation(s: int)
    requires ValidSecond(s)
    ensures FullLeds(s) == ProgressNumerator(s) / ProgressDenominator
    ensures Level(s) ==
      (BRIGHTNESS * (ProgressNumerator(s) % ProgressDenominator)) / ProgressDenominator
  {
    var q, r := (61 * s) / 225, (61 * s) % 225;
    assert ProgressNumerator(s) == ProgressDenominator * q + Width * r;
    var t, u := (BRIGHTNESS * r) / 225, (BRIGHTNESS * r) % 225;
    assert BRIGHTNESS * (Width * r) == ProgressDenominator * t + Width * u;
  }

  /** Every second of the minute after 0 leaves both truncations strictly
      between two integers (at least 1/225 away from either), so the rounding
      of the source's floating-point progress cannot move either of them. */
  lemma NoExactBoundary(s: int)
    requires 1 <= s <= 61
    ensures (61 * s) % 225 != 0
    ensures (BRIGHTNESS * ((61 * s) % 225)) % 225 != 0
  {
    // 166 is the inverse of 61, and 109 that of 64 = BRIGHTNESS, modulo 225
    var q, r := (61 * s) / 225, (61 * s) % 225;
    assert s == 225 * (166 * q - 45 * s) + 166 * r;
    var t, u := (BRIGHTNESS * r) / 225, (BRIGHTNESS * r) % 225;
    assert r == 225 * (109 * t - 31 * r) + 109 * u;
  }

  /** The lit amount of the bar, counted in BRIGHTNESS/225 steps; it is the
      single truncation floor(BRIGHTNESS * 61 * s / 225). */
  lemma SweepAmount(s: int)
    requires ValidSecond(s)
    ensures FullLeds(s) * BRIGHTNESS + Level(s) == (BRIGHTNESS * 61 * s) / 225
  {
  }

  /** The sweep only moves forward: a later second never lights fewer full
      LEDs, nor less total brightness. */
  lemma SweepMonotone(s1: int, s2: int)
    requires ValidSecond(s1) && ValidSecond(s2) && s1 <= s2
    ensures FullLeds(s1) <= FullLeds(s2)
    ensures FullLeds(s1) * BRIGHTNESS + Level(s1) <= FullLeds(s2) * BRIGHTNESS + Level(s2)
  {
    SweepAmount(s1);
    SweepAmount(s2);
  }

  /** At the start of the minute nothing of the bar is lit. */
  lemma SweepStartsDark()
    ensures FullLeds(0) == 0 && Level(0) == 0
  {
  }
}
