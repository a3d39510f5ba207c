# Clock face digit formatting, glyph rendering and colour-config translation

A Dafny model of the two pure cores of a digital clock face for a wearable
watch platform:

1. **The watch side** (`src/cleanface.c`). A minute tick converts the hour to
   the user's 12- or 24-hour style. It then splits hour and minute into four
   digit slots: hour tens, hour ones, minute tens and minute ones. The hour
   tens slot becomes blank (-1) when its digit is 0 and the hour's leading
   zero is turned off. Each slot draws its digit from a bitmap font. The font
   has one row pattern per glyph row, and the leftmost column reads the
   pattern's most significant used bit. The slot draws one filled texel
   rectangle per set bit, with texel sizes from the slot's inset size by
   truncating division. When the window loads, the digit group is placed at
   the top, middle or bottom of the screen.
2. **The phone side** (`src/js/pebble-js-app.js`). When the configuration
   page closes, every setting whose key contains `_COLOR` is rewritten. Its
   value is a `0x` code of a sunlight-adjusted colour. The rewrite maps it
   back to the original palette colour by inverting the sunlight palette,
   and parses the result as hex.

Modules, one per component:

- `ClockDigits` (`clock_digits.dfy`): `handle_12_24`, `display_value` (a
  function, plus a method that follows the C loop and is proved equal to it),
  and the digit part of `tick_handler`.
- `GlyphRender` (`glyph_render.dfy`): `update_digit_slot` as a function
  returning the rectangles it fills, in fill order. It is specified against a
  set comprehension of lit-cell rectangles.
- `Layout` (`layout.dfy`): the alignment arithmetic and slot placement of
  `window_load`, and the digits shown before the first tick.
- `JsObject` (`js_object.dfy`): a JavaScript object as its own properties in
  enumeration order, property access, and `invert`.
- `ColorConfig` (`color_config.dfy`): `indexOf("_COLOR")`, `substring(2)`,
  `parseInt(…, 16)`, and the rewrite loop.
- `Wrappers` (`wrappers.dfy`): `Option`.

The header `cleanface.h` is not part of this model. The font table `digits`
and the constants `TIME_DIGIT_ROWS`, `TIME_DIGIT_COLS`, `TIME_DIGIT_W`,
`TIME_DIGIT_H`, `WIDGET_BORDER`, `BORDER_OFFSET` and `TIME_WIDGET_H` are
parameters: `GlyphRender.Geometry`, `GlyphRender.Font` and the arguments of
`Layout.WindowLoad`. They carry only positivity and size conditions
(`ValidGeometry`, `ValidFont`). The 12/24-hour preference and the current
hour and minute are parameters too; on the device they come from
`clock_is_24h_style` and `localtime`.

Modelling choices:

- Dafny's `/` and `%` are Euclidean. C truncates toward zero, so the texel
  sizes and the middle alignment use `GlyphRender.CDiv`.
- The C bit test `v & (1 << k)` is `GlyphRender.Lit`. It shifts right by
  floor division and reads bit `k` in two's complement. Row patterns are
  `char`s, which are unsigned on the watch's ARM target, so they lie in
  0..255.
- A digit slot's `curDigit` is modelled as a value in -1..9, and
  `update_digit_slot` paints nothing for any negative value.
- A lookup that misses the inverted palette reads as `JsNaN`. In JavaScript,
  `parseInt("0xundefined", 16)` is `NaN`, and `ColorConfig.MissingCodeIsNaN`
  shows that the model's `parseInt` agrees.
- A `_COLOR` setting that does not hold a string makes `.substring` throw,
  so the rewrite returns `None` for the whole dictionary.

## Model

| member | source | states |
|---|---|---|
| ClockDigits.HourForClockStyle | src/cleanface.c:59-66 | 24-hour style returns the hour unchanged; 12-hour style returns a value in 1..12 that agrees with the hour modulo 12, so 0 and 12 both give 12 |
| ClockDigits.DisplayValue | src/cleanface.c:49-57 | only slots `offset` and `offset+1` change; the ones slot is always a digit; the tens slot is -1 exactly when the tens digit is 0 and leading zeros are off; otherwise tens*10+ones reconstructs the value modulo 100 |
| ClockDigits.DisplayValueLoop | src/cleanface.c:49-57 | the two-iteration C loop (column 1 then 0, `value % 10` then `value /= 10`, blanking only in column 0) computes exactly DisplayValue |
| ClockDigits.TickDigits | src/cleanface.c:68-73 | after a tick, slots 1-3 are digits and slot 0 is a digit or -1; the minute slots spell the minute; slot 0 is -1 exactly when the hour's leading zero is off and the shown hour is below 10; the hour slots spell the shown hour |
| ClockDigits.TwentyFourHourRoundTrip | src/cleanface.c:68-71 | in 24-hour style with the leading zero on, all four slots are digits spelling the hour and the minute |
| ClockDigits.ShownHourIsClockStyleHour | src/cleanface.c:68-71 | whatever the style and leading-zero setting, the hour slots read back to the converted hour, and no slot other than 0 is -1 |
| ClockDigits.TwelveHourTens | src/cleanface.c:59-71 | in 12-hour style the hour tens is 1 for hours 10-12, and for hours 1-9 it is 0 or -1 according to the leading-zero setting |
| ClockDigits.TickForgetsPreviousSlots | src/cleanface.c:68-71 | a tick overwrites every slot, so the earlier slot values do not affect the result |
| ClockDigits.TickExamples | src/cleanface.c:59-71 | 00:30 in 12-hour style shows 12 30; 13:05 in 12-hour style without leading zero shows blank,1,0,5; 05:05 in 24-hour style without leading zero shows blank,5,0,5 |
| GlyphRender.RowCells | src/cleanface.c:33-45 | the cells lit in one row are those whose bit `cols-1-col` is set, left to right; there is one per set bit |
| GlyphRender.GlyphCells | src/cleanface.c:32-46 | the cells the nested loops visit and find lit: exactly the set bits of all rows, in row-major order, one per set bit |
| GlyphRender.PaintDigit | src/cleanface.c:21-47 | a negative digit fills nothing; otherwise exactly one rectangle is filled per set bit among the low `cols` bits of the glyph's rows |
| GlyphRender.CDiv | src/cleanface.c:24-25 | C's `/` truncates toward zero: for a positive divisor the remainder `a - q*b` lies in `0..b-1` for a non-negative dividend and in `-(b-1)..0` for a negative one, so `CDiv(-1, 2) == 0` where floor division gives -1 |
| GlyphRender.TexelsOf | src/cleanface.c:24-25 | the texel width is the largest `w` with `w * TIME_DIGIT_COLS` within the inset width `TIME_DIGIT_W - 2 * WIDGET_BORDER` (likewise the height with `TIME_DIGIT_ROWS`), non-negative when the slot fits its borders, and the inset is `WIDGET_BORDER` |
| GlyphRender.LitIsBitTest | src/cleanface.c:35 | for a non-negative row pattern `v`, `Lit(v, k)` holds exactly when C's `v & (1 << k)` is non-zero, with `&` and `<<` defined bit by bit independently of `Lit` |
| GlyphRender.CellAt | src/cleanface.c:36-41 | the rectangle filled for cell (row, col) is `(WIDGET_BORDER + col * texel_w, WIDGET_BORDER + row * texel_h, texel_w, texel_h)` |
| GlyphRender.PaintedWithinInset | src/cleanface.c:24-41 | when the slot is at least twice the border in each direction, every filled rectangle stays inside the border inset |
| GlyphRender.BlankPaintsNothing | src/cleanface.c:27-28 | the blank slot value -1 paints nothing |
| GlyphRender.CellWithinInset | src/cleanface.c:24-41 | cell (row, col) at `(B+col*tw, B+row*th)` of size tw x th lies inside `[B, W-B] x [B, H-B]` when W, H >= 2B, despite the truncating texel division |
| GlyphRender.PaintedSetIsLitCells | src/cleanface.c:32-46 | the set of filled rectangles equals the set comprehension of lit-cell rectangles: every lit cell is filled and nothing else is |
| GlyphRender.PaintedIffLit | src/cleanface.c:33-41 | with texels of positive size, cell (row, col) is filled if and only if bit `cols-1-col` of the row pattern is set |
| GlyphRender.PaintedCountIsPopcount | src/cleanface.c:32-46 | with texels of positive size, the number of distinct rectangles filled is the popcount of the low `cols` bits over all rows |
| GlyphRender.PaintedPairwiseDisjoint | src/cleanface.c:24-41 | with texels of positive size, no two filled rectangles overlap |
| Layout.AlignmentOf | src/cleanface.c:85-94 | `align` -1 selects top, 0 selects middle, and any other value selects bottom |
| Layout.DigitsLayerPos | src/cleanface.c:85-94 | top leaves `BORDER_OFFSET` above the group; bottom leaves `BORDER_OFFSET` below it; middle leaves gaps above and below that differ by at most one pixel, the gap below being larger by the screen height's parity and smaller by the group height's parity |
| Layout.DigitsLayerOnScreen | src/cleanface.c:85-94 | when the screen is at least the group height plus two offsets tall, the group lies on the screen in every alignment |
| Layout.SlotFramesTile | src/cleanface.c:96-113 | the four slot frames sit side by side without overlap, and each fills the group between its top and bottom border strips |
| Layout.DigitsLayerFrame | src/cleanface.c:96-100 | the group frame is full-width at the computed position, and its height is one slot height with a `WIDGET_BORDER` strip above and below every slot |
| Layout.SlotFrame | src/cleanface.c:109-111 | slot `i` is a `TIME_DIGIT_W` x `TIME_DIGIT_H` frame `WIDGET_BORDER` below the group's top, `i` slot widths from the left edge |
| Layout.SlotFrames | src/cleanface.c:104-113 | the loop creates four slot frames in order, slot `i` at `(i * TIME_DIGIT_W, WIDGET_BORDER)`, and with a positive digit width no two overlap |
| Layout.WindowLoad | src/cleanface.c:75-126 | the group frame is full-width and `TIME_DIGIT_H + 2 * WIDGET_BORDER` tall; its y is `BORDER_OFFSET` for top alignment, leaves `BORDER_OFFSET` below a `TIME_WIDGET_H` band for bottom, and for middle splits the remaining height with the parity rule of the truncating halves; the frame lies on screen when the screen fits it and both margins; slot `i` is at `(i * TIME_DIGIT_W, WIDGET_BORDER)` and no two overlap; the initial digits are exactly what a tick writes: slots 1-3 are digits, slot 0 is blank exactly when the leading zero is off and the hour is below 10, and they read back to the current hour and minute |
| JsObject.Get | src/js/pebble-js-app.js:44-45 | a property read succeeds exactly for an own key and returns that key's value |
| JsObject.Invert | src/js/pebble-js-app.js:40-50 | the keys of the inverted object are exactly the object's values, and each maps back to a property holding that value |
| JsObject.InvertRoundTrip | src/js/pebble-js-app.js:43-47 | for every value v, reading the object at the inverted key gives v |
| JsObject.InvertOfValueIsKey | src/js/pebble-js-app.js:43-47 | when values are pairwise distinct, inverting a property's value gives back the property |
| JsObject.InvertLastWins | src/js/pebble-js-app.js:43-47 | for a value held by several properties, the property enumerated last wins |
| ColorConfig.IndexOfFrom | src/js/pebble-js-app.js:56 | `indexOf` returns the first occurrence of the pattern, or -1 exactly when it occurs nowhere |
| ColorConfig.ColorKeyIffContainsMarker | src/js/pebble-js-app.js:56 | a key is a colour key if and only if `_COLOR` occurs in it |
| ColorConfig.DropPrefix2 | src/js/pebble-js-app.js:57 | `substring(2)` removes the first two characters, or gives the empty string when there are fewer than two (characters are Unicode scalar values here; see Left out) |
| ColorConfig.HexValue | src/js/pebble-js-app.js:57 | n hex digits denote a number below 16^n |
| ColorConfig.HexRun | src/js/pebble-js-app.js:57 | the longest prefix made of hex digits, which is what `parseInt` reads |
| ColorConfig.ParseInt16 | src/js/pebble-js-app.js:57 | `parseInt(s, 16)` is NaN exactly when no hex digit follows the optional sign and `0x` prefix |
| ColorConfig.ParseHexColorRoundTrip | src/js/pebble-js-app.js:57 | `parseInt("0x" + six hex digits of n, 16)` gives back n for every 24-bit n |
| ColorConfig.ParseHexColor | src/js/pebble-js-app.js:57 | `parseInt` of `0x` followed by a six-hex-digit code gives the number the code denotes, which lies in 0..0xFFFFFF |
| ColorConfig.MissingCodeIsNaN | src/js/pebble-js-app.js:57 | `parseInt("0xundefined", 16)`, what a palette miss produces, is NaN |
| ColorConfig.TranslateColor | src/js/pebble-js-app.js:57 | a code missing from the inverted palette gives NaN; a code found there gives the number denoted by the six-hex-digit palette key, in 0..0xFFFFFF |
| ColorConfig.RewriteEntry | src/js/pebble-js-app.js:56-57 | one loop step: it throws exactly for a colour key whose value is not a string; a non-colour setting is kept; a colour string becomes NaN on a palette miss and the number of the six-digit palette key on a hit |
| ColorConfig.TranslateUndoesPalette | src/js/pebble-js-app.js:17-57 | for a palette with distinct sunlight codes and hex-colour keys, a setting reporting the sunlight code of palette colour c translates to the number c denotes |
| ColorConfig.RewriteColors | src/js/pebble-js-app.js:54-59 | the rewrite succeeds exactly when every colour setting holds a string; it keeps every key in order, leaves every non-colour setting untouched, and translates every colour setting |
| ColorConfig.RewriteKeepsKeys | src/js/pebble-js-app.js:54-59 | the rewritten dictionary has the same key set as the original |

## Left out

- Window, layer and tick-service lifecycle (`window_load` apart from its layout arithmetic, `window_unload`, `init`, `deinit`, `main`, `app_event_loop`, `layer_mark_dirty`): host runtime plumbing with no logic of its own.
- `update_digits_layer` (group background fill and the two border strips) and all colour setting: these are graphics calls. The renderer is modelled as the list of rectangles `update_digit_slot` fills.
- `clock_is_24h_style`, `time` and `localtime`: their results are parameters. `ClockDigits.TickDigits` requires the hour in 0..23 and the minute in 0..59, the ranges the C library guarantees for `tm_hour` and `tm_min`.
- `cleanface.h` (the `digits` font table and the size constants) is not part of this model. Those values are parameters with positivity and size conditions only.
- The 16-bit range of the platform's rectangle coordinates: pixel coordinates are unbounded integers.
- `Layout.DigitsLayerPos`: the "gaps differ by at most one pixel" promise for middle alignment is stated only for non-negative screen and group heights. A negative height cannot come from the screen bounds.
- JavaScript event plumbing (`Pebble.addEventListener`, `openURL`, `sendAppMessage`, `console.log`, `JSON.parse`, `decodeURIComponent`): foreign calls and I/O. The parsed configuration is the `dict` parameter of `ColorConfig.RewriteColors`.
- The literal 64-entry `mappingSunny` table: the palette is a parameter. `ColorConfig.TranslateUndoesPalette` takes as preconditions that its keys are six-digit hex codes and its values are pairwise distinct, which is true of the literal table.
- JavaScript's enumeration order: objects are sequences of own properties in the order a `for … in` loop visits them, taken as given. In JavaScript, integer-like keys come first.
- Inherited (prototype) properties: objects have only own properties, so the `hasOwnProperty` filter always passes. A code such as `constructor` that would read an inherited property of `invertMapping` is not modelled.
- `parseInt`'s leading-whitespace skipping and its floating-point precision limit: the strings parsed here are `0x` followed by a palette key or by `undefined`.
- ColorConfig.DropPrefix2: strings are sequences of Unicode scalar values, not of UTF-16 code units, so the model drops two characters where JavaScript's `substring(2)` drops two code units. The two differ only when one of the first two characters lies outside the Basic Multilingual Plane (a surrogate pair in JavaScript).
- Layout.WindowLoad: the group is positioned with `TIME_WIDGET_H` but its frame is `TIME_DIGIT_H + 2 * WIDGET_BORDER` tall; since `cleanface.h` is not part of this model, the frame is promised to stay on screen only when the two heights are equal.
- JSON values other than strings and integers are one case, `JsOther`.
