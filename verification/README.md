# LED clock face, modelled in Dafny

A model of the drawing logic of a Raspberry Pi LED clock (`clock_function.py`).
The clock draws on a 16x8 greyscale LED matrix. Each frame starts all dark. It then shows:

- the 12-hour time in a compact 3x5 digit font;
- a two-dot colon;
- a seconds bar on the bottom row, whose leading LED is partly lit so that the sweep looks smooth.

Once per hour, at minute 0 and second 0, the main loop plays a short particle explosion
before it redraws the face. It keeps the last celebrated hour in `last_hour` so that
the many polls within that second do not replay it.

Modules:

- `Display` (display.dfy): matrix size, `BRIGHTNESS` = 64, the colon column and the bar row.
- `Glyphs` (glyphs.dfy): the digit font as a `map<char, seq<string>>`, and which pixels a stamped glyph lights.
- `Progress` (progress.dfy): the integer form of the seconds-bar arithmetic and its properties.
- `Layout` (layout.dfy): the `%I` / `%M` text of the time and the column of every digit glyph.
- `Frame` (frame.dfy): the `Framebuffer` class, a 16x8 `array2<int>` changed in place by `Point`,
  `DrawDigit`, `DrawColon` and `DrawProgress`; `DrawTime`, which composes a whole face and is proved
  equal to the pure face function `TimePixel`; and the clipped rendering of explosion frames.
- `MainLoop` (mainloop.dfy): the `Clock` class holding `lastHour`, one loop pass (`Poll`),
  and lemmas about runs of polls.

The seconds bar is computed in floating point in the source. The model works with the exact fraction
`progress = (s + s/60)/60*16 = 16*61*s/3600`. `ExactTruncation` shows that its two truncations are
`full_leds = (61*s)/225` and `level = (64*((61*s)%225))/225`. `NoExactBoundary` shows that for
`s` in 1..61 neither value being truncated (`progress` and `BRIGHTNESS*partial`) is an integer:
each is at least 1/225 away from the nearest integer.
Floating-point rounding error is far smaller than that, so the float code truncates to the same integers.

## Model

| member | source | states |
|---|---|---|
| Glyphs.DigitTableWellFormed | clock_function.py:13-24 | the font has a glyph for exactly the characters '0'..'9', each 5 rows of exactly 3 characters, each '0' or '1' |
| Glyphs.GlyphsDistinct | clock_function.py:13-24 | no two digits share a glyph, so a stamped glyph identifies its digit |
| Glyphs.DigitChar | clock_function.py:58-59 | the digit character strftime writes for 0..9 is a key of the font and reads back as that number |
| Glyphs.LightsWithinCell | clock_function.py:26-30 | a glyph stamped at column x lights only rows 1..5 and columns x..x+2 |
| Progress.FullLeds | clock_function.py:39-41 | full_leds lies in 0..16 and reaches 16 exactly in the leap seconds 60 and 61 |
| Progress.Level | clock_function.py:42-50 | the leading LED's level lies in 0..63, strictly below BRIGHTNESS |
| Progress.ExactTruncation | clock_function.py:39-50 | the integer formulas equal int(progress) and int(BRIGHTNESS*partial) of the exact progress (s + s/60)/60*16 |
| Progress.NoExactBoundary | clock_function.py:39-50 | for seconds 1..61 neither progress nor BRIGHTNESS*partial is an integer, so float rounding cannot change their truncations |
| Progress.SweepAmount | clock_function.py:41-52 | full_leds*BRIGHTNESS + level is the single truncation of 64*61*s/225 |
| Progress.SweepMonotone | clock_function.py:37-52 | as tm_sec increases neither full_leds nor full_leds*BRIGHTNESS + level decreases |
| Progress.SweepStartsDark | clock_function.py:39-52 | at second 0 no LED of the bar is full and the leading level is 0 |
| Layout.Hour12 | clock_function.py:58 | %I gives 1..12, congruent to tm_hour modulo 12 (0 and 12 show as 12) |
| Layout.TwoDigits | clock_function.py:58-59 | the two-digit text of 0..99 consists of font keys and reads back as the number |
| Layout.HourText | clock_function.py:58-62 | the hour text after the leading zero is dropped has one or two characters, all font keys |
| Layout.Placements | clock_function.py:64-74 | every digit that draw_time stamps is a key of the font |
| Layout.LayoutPositions | clock_function.py:61-74 | hours 1..9 are one glyph at x=2; 10..12 are '1' at x=0 and the units at x=4; minute tens and units at x=9 and x=13 |
| Layout.LayoutShowsTime | clock_function.py:58-74 | the glyphs before the minutes read as the 12-hour hour and the last two as the minute |
| Layout.LayoutColumnsDisjoint | clock_function.py:64-74 | every glyph cell lies within columns 0..15, misses colon column 7, and the cells are pairwise disjoint, left to right |
| Frame.BarWithinBottomRow | clock_function.py:44-52 | the bar writes only in row 7 at columns 0..15, with values in 1..BRIGHTNESS; a value below BRIGHTNESS only on the leading LED, and only when full_leds < 16 and level > 0 |
| Frame.BarDarkAtStart | clock_function.py:37-52 | at tm_sec 0 the bar writes nothing: the bottom row stays dark |
| Frame.OnlyOwnerLights | clock_function.py:64-74 | within a glyph's cell of the layout, only that glyph can light a pixel |
| Frame.FaceShowsGlyph | clock_function.py:54-76 | in each glyph cell the face shows exactly that glyph: '1' at BRIGHTNESS, '0' dark |
| Frame.FaceBottomRowIsBar | clock_function.py:54-76 | the bottom row of the face is exactly the seconds bar |
| Frame.FaceColonLit | clock_function.py:66-72 | the colon is always on: (7,2) and (7,4) of the face are at BRIGHTNESS |
| Frame.FaceDarkElsewhere | clock_function.py:54-76 | outside the 3x5 glyph cells, the colon and the bar row the face is dark |
| Frame.Framebuffer.constructor | clock_function.py:55 | a new 16x8 image is all zero |
| Frame.Framebuffer.Point | clock_function.py:30 | draw.point sets exactly the one pixel, and ignores points off the image |
| Frame.Framebuffer.DrawDigit | clock_function.py:26-30 | pixel (x+c, r+1) becomes BRIGHTNESS exactly where glyph row r, column c is '1'; every other pixel is unchanged |
| Frame.Framebuffer.DrawColon | clock_function.py:32-35 | when visible, exactly (7,2) and (7,4) become BRIGHTNESS; when not, nothing changes |
| Frame.Framebuffer.DrawProgress | clock_function.py:37-52 | columns 0..full_leds-1 of row 7 become BRIGHTNESS, column full_leds becomes level when full_leds < 16 and level > 0, nothing else changes |
| Frame.DrawTime | clock_function.py:54-76 | the image handed to the display is, pixel for pixel, the face function TimePixel of the time |
| Frame.DrawParticles | clock_function.py:92-101 | an explosion frame lights exactly the particle positions that lie on the matrix; the others are skipped |
| Frame.Explosion | clock_function.py:91-104 | one image per frame of the animation, each showing that frame's on-matrix particles |
| MainLoop.Clock.constructor | clock_function.py:106 | last_hour starts at -1 |
| MainLoop.Clock.Poll | clock_function.py:108-116 | the explosion plays exactly when tm_min = 0, tm_sec = 0 and tm_hour differs from last_hour; last_hour then becomes tm_hour and is otherwise unchanged; the face is drawn afterwards |
| MainLoop.Run | clock_function.py:108-119 | a run of loop passes plays exactly Firings explosions and leaves last_hour at LastHourAfter, the functions the hourly lemmas are about |
| MainLoop.NoRefireWithinHour | clock_function.py:112-114 | after an explosion last_hour equals the hour, so no later poll of that hour fires |
| MainLoop.QuietPollKeepsHour | clock_function.py:112-114 | a poll that does not fire leaves last_hour unchanged |
| MainLoop.FirstTopOfHourFires | clock_function.py:106-114 | with last_hour = -1 the first top of an hour observed always fires |
| MainLoop.FiringsSplit | clock_function.py:108-119 | explosions over consecutive runs of polls add up, with last_hour threaded from one run to the next |
| MainLoop.OncePerHour | clock_function.py:106-114 | within any run of polls in one hour the explosion plays at most once, and exactly once when that hour is not yet celebrated and the run reaches minute 0, second 0; last_hour is then that hour |

## Left out

- The display driver (`board.I2C()`, `CharlieBonnet`, `display.image`): the model ends with the framebuffer that would be handed to it.
- The imaging library: `Image.new` becomes a zero-filled 16x8 `array2<int>` and `draw.point` a single array write that ignores points off the image. Mode "L" stores a byte per pixel; every value the clock writes is in 1..64, so no clamping is modelled.
- `time.localtime`, `time.strftime` and `time.sleep`, and the endless `while True` loop. The time of a poll is an `Instant` parameter. `%I` is modelled as `((h + 11) % 12) + 1` and `%M` as two decimal digits. One pass of the loop is `Clock.Poll`. A finite run of passes is `Run`, specified by the functions `Firings` and `LastHourAfter`; the loop's endlessness is not modelled.
- The particle physics of `explosion`: random initial velocities (`random.uniform`), float Euler steps, and the truncation `int(p[0])`, `int(p[1])`. The truncated positions of every frame are an input of `Explosion` and `Poll`. Only the clipping and drawing of each frame is modelled, not that there are 25 particles and 25 frames, nor the 0.03 s pause between frames.
- Floating point in `draw_progress` is modelled by the exact fraction. The step from the fraction to the float result is argued in prose above (through `NoExactBoundary`), not proved.
- `Framebuffer.DrawDigit`: a character missing from the font raises `KeyError` in the source. Here it is excluded by `requires d in Digits`. `draw_time` only ever passes digit characters (`Layout.Placements`).
