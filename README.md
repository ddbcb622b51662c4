# PatternMaker, modelled in Dafny

PatternMaker is two small WebGL demos. Both draw a full-window canvas with a fragment shader.

- **Mandelbrot demo** (`src/fundamentals.js`). Each pixel is mapped to a complex point `c` using the uniforms `u_resolution`, `u_zoom` and `u_center`. The shader's `get_iterations` runs an unrolled `z := z^2 + c` loop, capped at 1000 iterations. `return_color` then paints the pixel black, or with one of 12 palette colours picked by the escape count modulo 12. On the host, a keydown handler keeps the zoom and centre: four arrow keys pan, and `w`/`s` zoom in and out. Every keydown redraws once.
- **Tiled-pattern demo** (`src/main.js`). Each pixel's coordinates are truncated and quantised. `get_value` computes the distance product `(|x - hsx| + 1) * (|y - hsy| + 1) * multi^2 / 100` from the canvas middle `(hsx, hsy)`. `return_color(number)` picks palette entry `int(number) % modVal`, or black when that index is 12 or more. A timer redraws with the current phase `multi` and then adds `0.01` to it.

The model uses these modules:

- `Common`: the shaders' `vec2` as `Vec2` and the palette as a `Color` enumeration.
- `MandelbrotShader`: the pixel mapping, the orbit and its first-escape specification, the loop, and the colouring.
- `MandelbrotControls`: the key transforms as a function on views, and the keydown handler as the class `Controller`. The class holds the `zoom` and `center` fields and a log of the uniforms each redraw uploads.
- `TileShader`: GLSL truncation and integer division, quantisation, `get_value`, the palette with its black fallback, and the fragment colour.
- `TileTimer`: the phase tick as the class `Animation`, with a log of the `u_mod_val` uploads.

GLSL and JavaScript floats are modelled as exact reals. GLSL `int(f)` is truncation toward zero (`TruncToInt`). GLSL integer `/` with a positive divisor also truncates toward zero (`TruncDiv`). GLSL leaves `%` undefined for negative operands, so `ColorIndex` requires a non-negative value and a positive period. Both the value and the period are always non-negative in the program.

`get_iterations` is modelled as two parts:

- `GetIterations` maps the pixel to `c`.
- `CountIterations` runs the loop, with the update order and the saved squares of the shader.

Both are proved against `IsEscapeCount`. `IsEscapeCount` encodes one detail of the code: the loop tests the iterates `z_1 .. z_1000`, and `z_0 = c` itself is never tested. A point with `|c| > 2` therefore gets count 0 because `z_1` escapes, and `FarPointEscapesAtOnce` proves that `z_1` does escape. The palette index in the tiled demo uses `int()`, which truncates. For the non-negative values the shader produces, truncation equals the floor (`TruncIsFloorWhenNonNegative`).

## Model

| member | source | states |
|---|---|---|
| MandelbrotShader.PixelToComplex | src/fundamentals.js:44 | `c = (frag - res/2) / (res.y / u_zoom.y) + u_center`. Its properties are stated by PixelToComplexInverse, PixelToComplexAffine, CenterPixelShowsCenter and ZoomFirstComponentIgnored below |
| MandelbrotShader.PixelToComplexInverse | src/fundamentals.js:44 | `(c - center) * res.y == (p - res/2) * u_zoom.y` per axis, so the pixel fixes `c` uniquely |
| MandelbrotShader.PixelToComplexAffine | src/fundamentals.js:44 | the mapping commutes with linear interpolation between any two pixels (it is affine in the pixel) |
| MandelbrotShader.CenterPixelShowsCenter | src/fundamentals.js:44 | the pixel at half the resolution maps exactly to `u_center` |
| MandelbrotShader.ZoomFirstComponentIgnored | src/fundamentals.js:44 | only `u_zoom.y` matters, so the host's `(zoom, zoom)` upload acts as one scalar zoom |
| MandelbrotShader.UnrolledStep | src/fundamentals.js:57-60 | imaginary part first from `real + real`, then the real part from the saved squares, equals `z^2 + c` |
| MandelbrotShader.EscapeTimeIsEscapeCount | src/fundamentals.js:55-65 | the reference escape count is in `[0, 1000]`, no tested iterate up to it escapes, and the next one does when it is below 1000 |
| MandelbrotShader.EscapeCountUnique | src/fundamentals.js:55-65 | the first-escape specification admits only one count |
| MandelbrotShader.EscapeCountIsEscapeTime | src/fundamentals.js:55-65 | any count meeting the specification is the reference escape count |
| MandelbrotShader.CountIterations | src/fundamentals.js:45-65 | the loop keeps `real2 == real*real`, `imag2 == imag*imag` and `(real, imag)` equal to the current iterate. It returns the first index `i` whose new iterate `z_(i+1)` has squared magnitude above 4, or 1000 |
| MandelbrotShader.GetIterations | src/fundamentals.js:42-66 | the result is the first-escape count of the pixel's point `c` |
| MandelbrotShader.MandelbrotPalette | src/fundamentals.js:76-112 | each index 0..11 selects the palette colour at that position, never black, so the chain without `else` is exhaustive |
| MandelbrotShader.MandelbrotColor | src/fundamentals.js:67-113 | black exactly when the count is 1000, otherwise the palette entry at `count % 12` |
| MandelbrotShader.MandelbrotColorEqualIff | src/fundamentals.js:76-112 | two escaping counts get the same colour if and only if they agree modulo 12 |
| MandelbrotShader.MandelbrotColorPeriodic | src/fundamentals.js:76 | counts `i` and `i + 12` below 1000 get the same colour |
| MandelbrotShader.FragmentColor | src/fundamentals.js:115-118 | a pixel is black exactly when none of the iterates `z_1 .. z_1000` of its point escapes, and otherwise has the palette entry of its escape count modulo 12 |
| MandelbrotShader.OriginNeverEscapes | src/fundamentals.js:55-65 | for `c = 0` the count is 1000 and the colour black |
| MandelbrotShader.OrbitNearMinusHalf | src/fundamentals.js:57-60 | for every `c` within 1/200 of `-1/2` in both coordinates, every iterate from `z_2` on stays in a box around the attracting fixed point |
| MandelbrotShader.NearMinusHalfNeverEscapes | src/fundamentals.js:55-65 | every `c` within 1/200 of `-1/2` in both coordinates, `-1/2` included, has count 1000 and colour black |
| MandelbrotShader.FarPointEscapesAtOnce | src/fundamentals.js:62-63 | a point with `|c|^2 > 4` escapes at the first step: count 0, colour red |
| MandelbrotShader.FarPixelIsRed | src/fundamentals.js:67-79 | a pixel whose point lies outside radius 2 is drawn red |
| MandelbrotShader.StartViewMiddleIsBlack | src/fundamentals.js:44-74 | in the start-up view, on a canvas at least 200 pixels high, every fragment centre within half a pixel of the middle is black (on 800x600 these are the four fragments around the middle) |
| MandelbrotControls.KeyStep | src/fundamentals.js:137-154 | an unrecognised key changes nothing, a pan key keeps the zoom, a zoom key keeps the centre, and a positive zoom stays positive |
| MandelbrotControls.PanMovesCenter | src/fundamentals.js:137-148 | a pan key moves the centre by `0.1 * zoom` along its own axis and direction and leaves the other coordinate unchanged |
| MandelbrotControls.RunKeysKeepsZoomPositive | src/fundamentals.js:149-154 | a positive zoom stays positive under any sequence of keys |
| MandelbrotControls.OppositeKeysCancel | src/fundamentals.js:137-154 | Up/Down, Left/Right and `w`/`s` undo each other exactly |
| MandelbrotControls.PanIsConstantOnScreen | src/fundamentals.js:137-148 | after a pan, every pixel shows the point that was shown one tenth of the canvas height away along the pan direction before the pan, at any zoom |
| MandelbrotControls.ZoomScalesAboutCenter | src/fundamentals.js:149-154 | `w` moves every pixel's point towards the centre by the factor 1/1.1, and `s` moves it away by the factor 1.1 |
| MandelbrotControls.DrawnFramesShowCenter | src/fundamentals.js:233-235 | in every frame the controller has drawn, the point at half the resolution shows that frame's uploaded centre |
| MandelbrotControls.Controller.constructor | src/fundamentals.js:121-122 | the start-up state is zoom 2 and centre `(-1/2, 0)`, with nothing drawn yet |
| MandelbrotControls.Controller.Draw | src/fundamentals.js:233-235 | a redraw uploads `(zoom, zoom)` and `center` and changes no viewport state |
| MandelbrotControls.Controller.HandleKey | src/fundamentals.js:136-156 | the new view is `KeyStep` of the old one, the zoom of the state and of every drawn frame stays positive, and exactly one redraw, of the new state, is appended |
| MandelbrotControls.StartUp | src/fundamentals.js:124-133 | start-up draws once, with zoom 2 and centre `(-1/2, 0)`, and on a canvas at least 200 pixels high every fragment of that frame within half a pixel of the middle is black |
| TileShader.TruncToInt | src/main.js:47 | `int()` truncates toward zero: the result is the integer within distance 1 of the value on the side of zero |
| TileShader.TruncIsFloorWhenNonNegative | src/main.js:47 | for a non-negative value, truncation is the floor |
| TileShader.TruncDiv | src/main.js:93-95 | integer `/` by a positive divisor truncates toward zero |
| TileShader.Quantize | src/main.js:92-94 | for `x >= 0`, the quantised coordinate is a multiple of `pixels`, at most `x` and more than `x - pixels` |
| TileShader.QuantizeIsLargestMultiple | src/main.js:93-94 | for `x >= 0`, no multiple of `pixels` that is at most `x` exceeds the quantised coordinate |
| TileShader.QuantizeByOneIsIdentity | src/main.js:92-94 | with `pixels = 1`, quantisation is the identity |
| TileShader.DistanceFactor | src/main.js:42 | `(|dx| + 1) * (|dy| + 1)` is at least 1, and equals 1 exactly at the middle |
| TileShader.GetValue | src/main.js:41-43 | `get_value`: the distance factor times `u_mod_val.y` squared, over 100. Its properties are stated by DistanceFactor, GetValueLowerBound and GetValueSymmetric |
| TileShader.GetValueLowerBound | src/main.js:41-43 | the value is `multi^2 / 100` at the middle, is never below that anywhere, and is never negative |
| TileShader.GetValueSymmetric | src/main.js:42 | mirroring the pixel about the middle, horizontally or vertically, keeps its value |
| TileShader.TilePalette | src/main.js:49-87 | indices 0..11 select the palette entry at that position, and every other index gives black |
| TileShader.PalettesAgree | src/main.js:49-84 | indices 0..11 select the same colours, in the same order, as the Mandelbrot palette |
| TileShader.ColorIndex | src/main.js:47 | `int(number) % int(u_mod_val.x)` lies in `[0, period)` |
| TileShader.TileColor | src/main.js:45-88 | black exactly when the index is 12 or more, otherwise the palette entry at the index |
| TileShader.TileColorPeriodic | src/main.js:47 | adding the period `int(u_mod_val.x)` to a non-negative value keeps its colour |
| TileShader.PeriodSeventeenBands | src/main.js:47-87 | with period 17, indices 12..16 are black, and 0..11 follow the Mandelbrot palette |
| TileShader.TileFragmentColor | src/main.js:90-96 | the shader's `main`. Its properties are stated by TileFragmentMirror and CenterPixelColor |
| TileShader.TileFragmentMirror | src/main.js:90-96 | fragments whose truncated coordinates are mirrored about the middle, horizontally, vertically or both, get the same colour |
| TileShader.CenterPixelColor | src/main.js:90-96 | the middle pixel gets the colour of `multi^2 / 100`, and with `modVal = 17`, `multi = 1` that colour is red |
| TileTimer.TicksClosedForm | src/main.js:111-114 | `n` ticks from `m` give `m + 0.01 * n` |
| TileTimer.TicksAdd | src/main.js:111-114 | `a` ticks followed by `b` ticks equal `a + b` ticks |
| TileTimer.FrameUniform | src/main.js:201 | the `i`-th frame uploads `u_mod_val = (17, 1 + 0.01 * i)` |
| TileTimer.FrameModValIsSeventeen | src/main.js:99 | every frame's period truncates to 17, a valid `%` divisor |
| TileTimer.Animation.constructor | src/main.js:99-101 | start-up state: `modVal = 17`, `multi = 1`, nothing drawn |
| TileTimer.Animation.Draw | src/main.js:201 | a redraw uploads `(modVal, multi)` |
| TileTimer.Animation.Tick | src/main.js:111-114 | a tick draws first with the old phase, then adds exactly 0.01 to `multi`. `modVal` is unchanged, and the log keeps matching `FrameUniform` |
| TileTimer.Run | src/main.js:104-116 | after `n` timer firings, `n` frames have been drawn, frame `i` with phase `1 + 0.01 * i`, and the phase is `1 + 0.01 * n` |
| TileTimer.CenterRedWhilePhaseBelowTen | src/main.js:90-96 | with period 17 and a phase in `[0, 10)`, the middle pixel is red |
| TileTimer.EarlyFramesCenterRed | src/main.js:111-114 | the middle pixel is red in each of the first 900 frames |

## Left out

- WebGL setup and drawing are not modelled: `configureGL`, shader compilation, buffers, the vertex array, `gl.viewport`, `gl.clear`, `drawArrays` and canvas resizing. This is foreign-API code. A redraw is modelled only as the uniforms it uploads.
- The vertex shader's pixel-to-clip-space conversion is left out, because it is rasterisation plumbing. The fragment coordinates are taken as inputs.
- DOM wiring and timers are left out: `document.querySelector`, `addEventListener` and the `setInterval` scheduling every `1000/144` ms. Only the effect of one key or one tick is modelled. `Run` stands for `n` firings and is not a timing model.
- The `if (!gl) return;` abort path is left out, because it has no logic.
- The empty keydown handler in `src/main.js` is left out, because it does nothing.
- `console.log` is left out.
- Floating-point rounding is not modelled. Floats, including the constants 0.1, 1.1 and 0.01, are exact reals, so the model claims no bit-exact agreement with float32 shaders or JavaScript doubles. For example, after many ticks JavaScript's `multi` drifts from `1 + 0.01 * n`.
- Palette colours are symbolic (`Color`). The RGBA float components are not modelled.
- `gl_FragDepth = 0.0` in the Mandelbrot shader is left out, because it is a vestigial depth write.
- The unused `int iterations = 0` in `get_iterations` is left out.
- The uploaded `u_resolution` is not recorded in the redraw logs: the resolution is a parameter of the lemmas that need it.
- Zero canvas height and zero zoom are required away (`res.y != 0`, `u_zoom.y != 0`), because they make the mapping divide by zero.
- The JavaScript `center` array is mutated in place. It is modelled as a value field, so aliasing of the array is not modelled.
- StartUp: the start-up frame is proved black only at the fragment centres within half a pixel of the middle, and only on canvases at least 200 pixels high. WebGL puts fragment centres at half-integer coordinates, so on an even-sized canvas no fragment sits exactly at half the resolution. The proof covers the points within 1/200 of `-1/2`, which on a shorter canvas do not reach half a pixel.
- TruncToInt: GLSL `int()` of a float outside the 32-bit range is undefined. The model truncates into unbounded integers. The value grows as `multi^2` and eventually passes that range, and this is not modelled.
- DistanceFactor: the 32-bit product in `get_value` is modelled with unbounded integers, because no canvas is large enough to overflow it.
