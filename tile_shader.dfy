/** The tiled-pattern fragment shader: a distance product around the canvas
    middle, scaled by the phase, truncated, reduced modulo `u_mod_val.x` and
    looked up in the twelve-colour palette with black past its end. */
module TileShader {
  import opened Common
  import MandelbrotShader

  /** The quantisation step `pixels` of the shader's `main`. */
  const Pixels: int := 1

  // ---------------------------------------------------------------------------
  // GLSL integer conversions

  /** GLSL `int(r)`: truncation toward zero. */
  function TruncToInt(r: real): (n: int)
    ensures r >= 0.0 ==> n as real <= r < n as real + 1.0
    ensures r < 0.0 ==> n as real - 1.0 < r <= n as real
  {
    if r >= 0.0 then r.Floor else -((-r).Floor)
  }

  // Euclidean division facts for a symbolic positive divisor

  lemma IntMulNonneg(a: int, b: int)
    ensures a >= 0 && b >= 0 ==> a * b >= 0
  {
  }

  lemma DivMod(a: int, b: int)
    requires b > 0
    ensures a == (a / b) * b + a % b && 0 <= a % b < b
  {
  }

  lemma MulBelow(d: int, b: int)
    requires b > 0 && d * b < b && d * b > -b
    ensures d == 0
  {
    if d >= 1 {
      IntMulNonneg(d - 1, b);
    } else if d <= -1 {
      IntMulNonneg(-d - 1, b);
    }
  }

  lemma DivModUnique(a: int, b: int, q: int, r: int)
    requires b > 0 && a == q * b + r && 0 <= r < b
    ensures q == a / b && r == a % b
  {
    DivMod(a, b);
    var d := q - a / b;
    assert d * b == q * b - (a / b) * b;
    assert d * b == a % b - r;
    MulBelow(d, b);
  }

  lemma ModShift(n: int, m: int)
    requires m > 0
    ensures (n + m) % m == n % m
  {
    DivMod(n, m);
    assert n + m == (n / m + 1) * m + n % m;
    DivModUnique(n + m, m, n / m + 1, n % m);
  }

  lemma MulMod(q: int, b: int)
    requires b > 0
    ensures (q * b) % b == 0 && (q * b) / b == q
  {
    DivModUnique(q * b, b, q, 0);
  }

  /** GLSL integer `a / b` for a positive divisor: the quotient truncated
      toward zero. */
  function TruncDiv(a: int, b: int): (q: int)
    requires b > 0
    ensures a >= 0 ==> q >= 0 && q * b <= a < q * b + b
    ensures a < 0 ==> q <= 0 && a <= q * b < a + b
  {
    if a >= 0 then
      DivMod(a, b);
      a / b
    else
      var p := (-a) / b;
      DivMod(-a, b);
      assert (-p) * b == -(p * b);
      -p
  }

  /** For a non-negative value truncation and floor agree. */
  lemma TruncIsFloorWhenNonNegative(r: real)
    requires r >= 0.0
    ensures TruncToInt(r) == r.Floor
  {
  }

  /** Adding a whole number to a non-negative value adds it to the truncation. */
  lemma TruncShift(r: real, m: int)
    requires r >= 0.0 && m >= 0
    ensures TruncToInt(r + m as real) == TruncToInt(r) + m
  {
    var n := TruncToInt(r);
    assert n as real <= r < n as real + 1.0;
    assert (n + m) as real <= r + m as real < (n + m) as real + 1.0;
  }

  // ---------------------------------------------------------------------------
  // Quantisation `x / pixels * pixels`

  function Quantize(x: int, pixels: int): (r: int)
    requires pixels > 0
    ensures x >= 0 ==> 0 <= r <= x < r + pixels && r % pixels == 0
  {
    var q := TruncDiv(x, pixels);
    MulMod(q, pixels);
    IntMulNonneg(q, pixels);
    q * pixels
  }

  /** For `x >= 0` the quantised value is the largest multiple of `pixels`
      not above `x`. */
  lemma QuantizeIsLargestMultiple(x: int, pixels: int, k: int)
    requires pixels > 0 && x >= 0
    requires k % pixels == 0 && k <= x
    ensures k <= Quantize(x, pixels)
  {
    var q := TruncDiv(x, pixels);
    DivMod(k, pixels);
    var a := k / pixels;
    assert k == a * pixels;
    assert (q + 1 - a) * pixels == (q * pixels + pixels) - k;
    if a > q {
      IntMulNonneg(a - q - 1, pixels);
    }
    IntMulNonneg(q - a, pixels);
    assert (q - a) * pixels == q * pixels - k;
  }

  /** With a step of one pixel quantisation changes nothing. */
  lemma QuantizeByOneIsIdentity(x: int)
    ensures Quantize(x, 1) == x
  {
  }

  // ---------------------------------------------------------------------------
  // The value field

  function Abs(n: int): int {
    if n < 0 then -n else n
  }

  /** The integer factor `(|dx| + 1) * (|dy| + 1)`: at least 1, and exactly 1
      only at the middle. */
  function DistanceFactor(dx: int, dy: int): (f: int)
    ensures f >= 1
    ensures f == 1 <==> dx == 0 && dy == 0
  {
    var a, b := Abs(dx) + 1, Abs(dy) + 1;
    assert a * b >= a by {
      assert a * (b - 1) >= 0;
    }
    assert a * b >= b by {
      assert (a - 1) * b >= 0;
    }
    a * b
  }

  /** `get_value`: the distance factor from the pixel to `(hsx, hsy)`, times
      `u_mod_val.y` squared, over 100. */
  function GetValue(x: int, y: int, hsx: int, hsy: int, uModVal: Vec2): real {
    (DistanceFactor(x - hsx, y - hsy) as real * uModVal.y * uModVal.y) / 100.0
  }

  /** The value is never below its value at the middle, `multi^2 / 100`, and
      so never negative. */
  lemma GetValueLowerBound(x: int, y: int, hsx: int, hsy: int, uModVal: Vec2)
    ensures GetValue(x, y, hsx, hsy, uModVal) >= GetValue(hsx, hsy, hsx, hsy, uModVal)
    ensures GetValue(hsx, hsy, hsx, hsy, uModVal) == uModVal.y * uModVal.y / 100.0
    ensures GetValue(x, y, hsx, hsy, uModVal) >= 0.0
  {
    var f := DistanceFactor(x - hsx, y - hsy) as real;
    var m2 := uModVal.y * uModVal.y;
    assert m2 >= 0.0;
    assert f * uModVal.y * uModVal.y == f * m2;
    assert (f - 1.0) * m2 >= 0.0;
  }

  /** Mirroring the pixel about the middle, horizontally or vertically, does
      not change its value. */
  lemma GetValueSymmetric(dx: int, dy: int, hsx: int, hsy: int, uModVal: Vec2)
    ensures GetValue(hsx - dx, hsy + dy, hsx, hsy, uModVal) == GetValue(hsx + dx, hsy + dy, hsx, hsy, uModVal)
    ensures GetValue(hsx + dx, hsy - dy, hsx, hsy, uModVal) == GetValue(hsx + dx, hsy + dy, hsx, hsy, uModVal)
  {
    assert DistanceFactor(-dx, dy) == DistanceFactor(dx, dy);
    assert DistanceFactor(dx, -dy) == DistanceFactor(dx, dy);
  }

  // ---------------------------------------------------------------------------
  // Colour

  /** The palette chain of `return_color(number)`, with its final `else`
      giving black for any index outside 0..11. */
  function TilePalette(k: int): (col: Color)
    ensures col != Black <==> 0 <= k < PaletteSize
    ensures col != Black ==> PaletteIndex(col) == k
  {
    if k == 0 then Red
    else if k == 1 then OrangeRed
    else if k == 2 then Orange
    else if k == 3 then Gold
    else if k == 4 then Yellow
    else if k == 5 then YellowGreen
    else if k == 6 then Green
    else if k == 7 then Turquoise
    else if k == 8 then Blue
    else if k == 9 then Indigo
    else if k == 10 then Violet
    else if k == 11 then DeepPink
    else Black
  }

  lemma PaletteIndexInjective(a: Color, b: Color)
    requires a != Black && b != Black && PaletteIndex(a) == PaletteIndex(b)
    ensures a == b
  {
  }

  /** Indices 0..11 pick the same colours, in the same order, as the
      Mandelbrot shader's palette. */
  lemma PalettesAgree(k: int)
    requires 0 <= k < PaletteSize
    ensures TilePalette(k) == MandelbrotShader.MandelbrotPalette(k)
  {
    PaletteIndexInjective(TilePalette(k), MandelbrotShader.MandelbrotPalette(k));
  }

  /** The palette index `int(number) % int(u_mod_val.x)`. GLSL leaves `%`
      undefined for a negative operand or a zero divisor, so both are
      required to be in range. */
  function ColorIndex(number: real, uModVal: Vec2): (k: int)
    requires TruncToInt(number) >= 0 && TruncToInt(uModVal.x) > 0
    ensures 0 <= k < TruncToInt(uModVal.x)
  {
    TruncToInt(number) % TruncToInt(uModVal.x)
  }

  /** `return_color(number)`: black exactly when the index falls past the
      twelve palette entries, otherwise the entry at that index. */
  function TileColor(number: real, uModVal: Vec2): (col: Color)
    requires TruncToInt(number) >= 0 && TruncToInt(uModVal.x) > 0
    ensures col == Black <==> ColorIndex(number, uModVal) >= PaletteSize
    ensures col != Black ==> PaletteIndex(col) == TruncToInt(number) % TruncToInt(uModVal.x)
  {
    TilePalette(ColorIndex(number, uModVal))
  }

  /** The colour repeats when the value grows by the period `int(u_mod_val.x)`. */
  lemma TileColorPeriodic(number: real, uModVal: Vec2)
    requires number >= 0.0 && TruncToInt(uModVal.x) > 0
    ensures TruncToInt(number + TruncToInt(uModVal.x) as real) >= 0
    ensures TileColor(number + TruncToInt(uModVal.x) as real, uModVal) == TileColor(number, uModVal)
  {
    var m := TruncToInt(uModVal.x);
    TruncShift(number, m);
    ModShift(TruncToInt(number), m);
  }

  /** With the period 17 the program uses, indices 12..16 are black bands
      and 0..11 cycle through the palette. */
  lemma PeriodSeventeenBands(number: real, uModVal: Vec2)
    requires TruncToInt(number) >= 0 && TruncToInt(uModVal.x) == 17
    ensures TileColor(number, uModVal) == Black <==> 12 <= TruncToInt(number) % 17 <= 16
    ensures TileColor(number, uModVal) != Black ==>
              TileColor(number, uModVal) == MandelbrotShader.MandelbrotPalette(TruncToInt(number) % 17)
  {
    if TruncToInt(number) % 17 < PaletteSize {
      PalettesAgree(TruncToInt(number) % 17);
    }
  }

  // ---------------------------------------------------------------------------
  // The fragment shader's main

  /** The colour `main` writes for the fragment at `frag`: the fragment
      coordinates and half the resolution are truncated to integers, the
      coordinates quantised, and the value looked up. */
  function TileFragmentColor(frag: Vec2, res: Vec2, uModVal: Vec2): Color
    requires TruncToInt(uModVal.x) > 0
  {
    var x := Quantize(TruncToInt(frag.x), Pixels);
    var y := Quantize(TruncToInt(frag.y), Pixels);
    var hsx, hsy := TruncDiv(TruncToInt(res.x), 2), TruncDiv(TruncToInt(res.y), 2);
    GetValueLowerBound(x, y, hsx, hsy, uModVal);
    TileColor(GetValue(x, y, hsx, hsy, uModVal), uModVal)
  }

  /** Whether `a` and `b` lie at the same distance from `m`, on the same
      side or mirrored. */
  predicate SameDistance(a: int, b: int, m: int) {
    a == b || a - m == m - b
  }

  /** The colour of a fragment depends only on its truncated distances from
      the middle, so fragments mirrored about the middle horizontally,
      vertically or both get the same colour: the pattern is symmetric. */
  lemma TileFragmentMirror(frag: Vec2, mirror: Vec2, res: Vec2, uModVal: Vec2)
    requires TruncToInt(uModVal.x) > 0
    requires SameDistance(TruncToInt(frag.x), TruncToInt(mirror.x), TruncDiv(TruncToInt(res.x), 2))
    requires SameDistance(TruncToInt(frag.y), TruncToInt(mirror.y), TruncDiv(TruncToInt(res.y), 2))
    ensures TileFragmentColor(frag, res, uModVal) == TileFragmentColor(mirror, res, uModVal)
  {
    var hsx, hsy := TruncDiv(TruncToInt(res.x), 2), TruncDiv(TruncToInt(res.y), 2);
    var x, y := TruncToInt(frag.x), TruncToInt(frag.y);
    var x', y' := TruncToInt(mirror.x), TruncToInt(mirror.y);
    QuantizeByOneIsIdentity(x);
    QuantizeByOneIsIdentity(y);
    QuantizeByOneIsIdentity(x');
    QuantizeByOneIsIdentity(y');
    assert Abs(x - hsx) == Abs(x' - hsx) && Abs(y - hsy) == Abs(y' - hsy);
    assert GetValue(x, y, hsx, hsy, uModVal) == GetValue(x', y', hsx, hsy, uModVal);
  }

  /** The fragment at the canvas middle gets the colour of `multi^2 / 100`;
      with the start-up values `modVal = 17`, `multi = 1` that is 0.01,
      index 0, red. */
  lemma CenterPixelColor(frag: Vec2, res: Vec2, uModVal: Vec2)
    requires TruncToInt(uModVal.x) > 0
    requires TruncToInt(frag.x) == TruncDiv(TruncToInt(res.x), 2)
    requires TruncToInt(frag.y) == TruncDiv(TruncToInt(res.y), 2)
    ensures TruncToInt(uModVal.y * uModVal.y / 100.0) >= 0
    ensures TileFragmentColor(frag, res, uModVal) == TileColor(uModVal.y * uModVal.y / 100.0, uModVal)
    ensures uModVal == Vec2(17.0, 1.0) ==> TileFragmentColor(frag, res, uModVal) == Red
  {
    var hsx, hsy := TruncDiv(TruncToInt(res.x), 2), TruncDiv(TruncToInt(res.y), 2);
    QuantizeByOneIsIdentity(TruncToInt(frag.x));
    QuantizeByOneIsIdentity(TruncToInt(frag.y));
    GetValueLowerBound(hsx, hsy, hsx, hsy, uModVal);
    if uModVal == Vec2(17.0, 1.0) {
      assert TruncToInt(0.01) == 0;
    }
  }
}
