/** The Mandelbrot fragment shader: the pixel-to-plane mapping, the escape-time
    loop `get_iterations` and the colour choice `return_color`. */
module MandelbrotShader {
  import opened Common

  /** The iteration cap `MAX_ITERATIONS`. */
  const MaxIterations: int := 1000

  /** An iterate has escaped once its squared magnitude exceeds this. */
  const EscapeBound: real := 4.0

  // ---------------------------------------------------------------------------
  // Pixel to complex plane

  /** The point `c` that the fragment at `frag` stands for, given the uniforms
      `u_resolution`, `u_zoom` and `u_center`. Only the second component of
      `u_zoom` is read. The centred pixel offset, scaled down by
      `u_resolution.y / u_zoom.y`, is added to the centre. */
  function PixelToComplex(frag: Vec2, res: Vec2, uZoom: Vec2, uCenter: Vec2): Vec2
    requires res.y != 0.0 && uZoom.y != 0.0
  {
    var scale := res.y / uZoom.y;
    Vec2(Axis(frag.x, res.x / 2.0, scale, uCenter.x), Axis(frag.y, res.y / 2.0, scale, uCenter.y))
  }

  /** The mapping undone: `c`'s offset from the centre, times
      `u_resolution.y`, is the pixel's offset from the middle of the canvas
      times the zoom. This fixes `c` uniquely. */
  lemma PixelToComplexInverse(frag: Vec2, res: Vec2, uZoom: Vec2, uCenter: Vec2)
    requires res.y != 0.0 && uZoom.y != 0.0
    ensures (PixelToComplex(frag, res, uZoom, uCenter).x - uCenter.x) * res.y == (frag.x - res.x / 2.0) * uZoom.y
    ensures (PixelToComplex(frag, res, uZoom, uCenter).y - uCenter.y) * res.y == (frag.y - res.y / 2.0) * uZoom.y
  {
    AxisInverse(frag.x, res.x / 2.0, res.y, uZoom.y, uCenter.x);
    AxisInverse(frag.y, res.y / 2.0, res.y, uZoom.y, uCenter.y);
  }

  lemma AxisInverse(f: real, half: real, h: real, z: real, center: real)
    requires h != 0.0 && z != 0.0
    ensures (Axis(f, half, h / z, center) - center) * h == (f - half) * z
  {
    var u := (f - half) / (h / z);
    assert u * (h / z) == f - half;
    assert u * h == (f - half) * z;
  }

  /** One coordinate of the mapping: the offset from the half resolution,
      divided by the scale, plus the centre. */
  function Axis(f: real, half: real, scale: real, center: real): real
    requires scale != 0.0
  {
    (f - half) / scale + center
  }

  /** The number a fraction `t` of the way from `a` to `b`. */
  function Between(a: real, b: real, t: real): real {
    a + t * (b - a)
  }

  /** The point a fraction `t` of the way from `p` to `q`. */
  function Lerp(p: Vec2, q: Vec2, t: real): Vec2 {
    Vec2(Between(p.x, q.x, t), Between(p.y, q.y, t))
  }

  /** The mapping is affine in the pixel position: it commutes with linear
      interpolation between any two pixels. */
  lemma PixelToComplexAffine(p: Vec2, q: Vec2, t: real, res: Vec2, uZoom: Vec2, uCenter: Vec2)
    requires res.y != 0.0 && uZoom.y != 0.0
    ensures PixelToComplex(Lerp(p, q, t), res, uZoom, uCenter)
         == Lerp(PixelToComplex(p, res, uZoom, uCenter), PixelToComplex(q, res, uZoom, uCenter), t)
  {
    var s := res.y / uZoom.y;
    AxisAffine(p.x, q.x, t, res.x / 2.0, s, uCenter.x);
    AxisAffine(p.y, q.y, t, res.y / 2.0, s, uCenter.y);
  }

  lemma AxisAffine(a: real, b: real, t: real, half: real, scale: real, center: real)
    requires scale != 0.0
    ensures Axis(Between(a, b, t), half, scale, center)
         == Between(Axis(a, half, scale, center), Axis(b, half, scale, center), t)
  {
    var u, v := (a - half) / scale, (b - half) / scale;
    assert a - half == u * scale && b - half == v * scale;
    assert a + t * (b - a) - half == (u + t * (v - u)) * scale;
  }

  /** The pixel at half the resolution shows exactly the centre. */
  lemma CenterPixelShowsCenter(res: Vec2, uZoom: Vec2, uCenter: Vec2)
    requires res.y != 0.0 && uZoom.y != 0.0
    ensures PixelToComplex(Vec2(res.x / 2.0, res.y / 2.0), res, uZoom, uCenter) == uCenter
  {
  }

  /** The first component of `u_zoom` has no effect on the mapping, so the
      host sending `(zoom, zoom)` amounts to a single scalar zoom. */
  lemma ZoomFirstComponentIgnored(frag: Vec2, res: Vec2, a: real, b: real, z: real, uCenter: Vec2)
    requires res.y != 0.0 && z != 0.0
    ensures PixelToComplex(frag, res, Vec2(a, z), uCenter) == PixelToComplex(frag, res, Vec2(b, z), uCenter)
  {
  }

  // ---------------------------------------------------------------------------
  // The orbit of z := z^2 + c

  /** Squared magnitude of a complex number. */
  function Mag2(z: Vec2): (m: real)
    ensures m >= 0.0
  {
    z.x * z.x + z.y * z.y
  }

  /** One step of the quadratic recurrence, `z^2 + c`. */
  function Step(z: Vec2, c: Vec2): Vec2 {
    Vec2(z.x * z.x - z.y * z.y + c.x, 2.0 * z.x * z.y + c.y)
  }

  /** The `n`-th iterate, starting from `z_0 = c` as the shader does. */
  function Orbit(c: Vec2, n: nat): Vec2 {
    if n == 0 then c else Step(Orbit(c, n - 1), c)
  }

  /** The `n`-th iterate lies outside the escape disc. */
  predicate Escaped(c: Vec2, n: nat) {
    Mag2(Orbit(c, n)) > EscapeBound
  }

  /** `n` is what `get_iterations` must return for `c`: the loop tests the
      iterates `z_1` .. `z_1000` in turn; a result `n < 1000` means `z_(n+1)`
      is the first to escape, and 1000 means none of them does. */
  predicate IsEscapeCount(c: Vec2, n: int) {
    0 <= n <= MaxIterations &&
    (forall j :: 1 <= j <= n ==> !Escaped(c, j)) &&
    (n < MaxIterations ==> Escaped(c, n + 1))
  }

  /** The escape count of `c`, searching from loop index `i` on. */
  function EscapeFrom(c: Vec2, i: int): (n: int)
    requires 0 <= i <= MaxIterations
    ensures i <= n <= MaxIterations
    decreases MaxIterations - i
  {
    if i == MaxIterations then MaxIterations
    else if Escaped(c, i + 1) then i
    else EscapeFrom(c, i + 1)
  }

  /** The escape count of `c`, as a function. */
  function EscapeTime(c: Vec2): (n: int)
    ensures 0 <= n <= MaxIterations
  {
    EscapeFrom(c, 0)
  }

  lemma {:induction false} EscapeFromIsEscapeCount(c: Vec2, i: int)
    requires 0 <= i <= MaxIterations
    requires forall j :: 1 <= j <= i ==> !Escaped(c, j)
    ensures IsEscapeCount(c, EscapeFrom(c, i))
    decreases MaxIterations - i
  {
    if i < MaxIterations && !Escaped(c, i + 1) {
      EscapeFromIsEscapeCount(c, i + 1);
    }
  }

  /** The function meets the first-escape specification. */
  lemma EscapeTimeIsEscapeCount(c: Vec2)
    ensures IsEscapeCount(c, EscapeTime(c))
  {
    EscapeFromIsEscapeCount(c, 0);
  }

  /** The first-escape specification admits one count only. */
  lemma EscapeCountUnique(c: Vec2, n: int, m: int)
    requires IsEscapeCount(c, n) && IsEscapeCount(c, m)
    ensures n == m
  {
  }

  /** The function is the one count the specification admits. */
  lemma EscapeCountIsEscapeTime(c: Vec2, n: int)
    requires IsEscapeCount(c, n)
    ensures n == EscapeTime(c)
  {
    EscapeTimeIsEscapeCount(c);
    EscapeCountUnique(c, n, EscapeTime(c));
  }

  /** The shader's update order, imaginary part first from `(real + real)`,
      then the real part from the saved squares, computes `z^2 + c`. */
  lemma UnrolledStep(c: Vec2, re: real, im: real, re2: real, im2: real)
    requires re2 == re * re && im2 == im * im
    ensures Vec2(re2 - im2 + c.x, (re + re) * im + c.y) == Step(Vec2(re, im), c)
  {
    var z := Vec2(re, im);
    assert z.x * z.x == re2 && z.y * z.y == im2;
    assert 2.0 * z.x * z.y == (re + re) * im;
  }

  /** `get_iterations`: maps the fragment to `c` and counts the steps until
      its orbit escapes. */
  method GetIterations(frag: Vec2, res: Vec2, uZoom: Vec2, uCenter: Vec2) returns (iterations: int)
    requires res.y != 0.0 && uZoom.y != 0.0
    ensures IsEscapeCount(PixelToComplex(frag, res, uZoom, uCenter), iterations)
    ensures iterations == EscapeTime(PixelToComplex(frag, res, uZoom, uCenter))
  {
    var c := PixelToComplex(frag, res, uZoom, uCenter);
    iterations := CountIterations(c);
  }

  /** The loop of `get_iterations`: it keeps the squares of the current
      iterate in `re2` and `im2` (`real2`, `imag2` in the shader) and returns
      the index of the first step whose new iterate escapes, or the cap. */
  method CountIterations(c: Vec2) returns (iterations: int)
    ensures IsEscapeCount(c, iterations)
    ensures iterations == EscapeTime(c)
  {
    var re, im := c.x, c.y;
    var constRe, constIm := re, im;
    var re2, im2 := re * re, im * im;
    var i := 0;
    while i < MaxIterations
      invariant 0 <= i <= MaxIterations
      invariant Vec2(re, im) == Orbit(c, i)
      invariant re2 == re * re && im2 == im * im
      invariant forall j :: 1 <= j <= i ==> !Escaped(c, j)
    {
      UnrolledStep(c, re, im, re2, im2);
      assert Orbit(c, i + 1) == Step(Orbit(c, i), c);
      im := (re + re) * im + constIm;
      re := re2 - im2 + constRe;
      re2 := re * re;
      im2 := im * im;
      assert Vec2(re, im) == Orbit(c, i + 1);
      assert Mag2(Vec2(re, im)) == re2 + im2;
      if re2 + im2 > 4.0 {
        EscapeCountIsEscapeTime(c, i);
        return i;
      }
      i := i + 1;
    }
    EscapeCountIsEscapeTime(c, MaxIterations);
    return MaxIterations;
  }

  // ---------------------------------------------------------------------------
  // Colour

  /** The palette chain of `return_color`. It has no final `else`; the caller
      only passes `iter % 12` for a non-negative `iter`, so one branch always
      matches. */
  function MandelbrotPalette(k: int): (col: Color)
    requires 0 <= k < PaletteSize
    ensures col != Black && PaletteIndex(col) == k
  {
    if k == 0 then Red
    else if k == 1 then OrangeRed
    else if k == 2 then Orange
    else if k == 3 then Gold
    else if k == 4 then Yellow
    else if k == 5 then YellowGreen
    else if k == 6 then Green
    else if k == 7 then Turquoise
    else if k == 8 then Blue
    else if k == 9 then Indigo
    else if k == 10 then Violet
    else if k == 11 then DeepPink
    else assert false; Black
  }

  /** `return_color` for a given iteration count: black for a point that never
      escaped, otherwise the palette entry of the count modulo 12. */
  function MandelbrotColor(iter: int): (col: Color)
    requires 0 <= iter <= MaxIterations
    ensures col == Black <==> iter == MaxIterations
    ensures col != Black ==> PaletteIndex(col) == iter % PaletteSize
  {
    if iter == MaxIterations then Black else MandelbrotPalette(iter % PaletteSize)
  }

  /** Two escaping counts get the same colour exactly when they agree
      modulo 12. */
  lemma MandelbrotColorEqualIff(i: int, j: int)
    requires 0 <= i < MaxIterations && 0 <= j < MaxIterations
    ensures MandelbrotColor(i) == MandelbrotColor(j) <==> i % PaletteSize == j % PaletteSize
  {
  }

  /** The palette repeats every 12 iterations. */
  lemma MandelbrotColorPeriodic(i: int)
    requires 0 <= i && i + PaletteSize < MaxIterations
    ensures MandelbrotColor(i) == MandelbrotColor(i + PaletteSize)
  {
    MandelbrotColorEqualIff(i, i + PaletteSize);
  }

  /** The colour the fragment shader's `main` writes for one pixel: black
      exactly when none of the first 1000 iterates escapes, otherwise the
      palette entry of the escape count modulo 12. */
  function FragmentColor(frag: Vec2, res: Vec2, uZoom: Vec2, uCenter: Vec2): (col: Color)
    requires res.y != 0.0 && uZoom.y != 0.0
    ensures col == Black <==>
      forall j :: 1 <= j <= MaxIterations ==> !Escaped(PixelToComplex(frag, res, uZoom, uCenter), j)
    ensures col != Black ==>
      PaletteIndex(col) == EscapeTime(PixelToComplex(frag, res, uZoom, uCenter)) % PaletteSize
  {
    var c := PixelToComplex(frag, res, uZoom, uCenter);
    EscapeTimeIsEscapeCount(c);
    MandelbrotColor(EscapeTime(c))
  }

  // ---------------------------------------------------------------------------
  // Known points

  lemma {:induction false} OrbitOfOrigin(c: Vec2, n: nat)
    requires c == Vec2(0.0, 0.0)
    ensures Orbit(c, n) == c
  {
    if n > 0 {
      OrbitOfOrigin(c, n - 1);
    }
  }

  /** The origin never escapes: its count is the cap and it is drawn black. */
  lemma OriginNeverEscapes(c: Vec2)
    requires c == Vec2(0.0, 0.0)
    ensures EscapeTime(c) == MaxIterations
    ensures MandelbrotColor(EscapeTime(c)) == Black
  {
    forall j | 1 <= j <= MaxIterations ensures !Escaped(c, j) {
      OrbitOfOrigin(c, j);
    }
    EscapeTimeIsEscapeCount(c);
    EscapeCountUnique(c, MaxIterations, EscapeTime(c));
  }

  lemma MulNonneg(a: real, b: real)
    requires a >= 0.0 && b >= 0.0
    ensures a * b >= 0.0
  {
  }

  /** Squares of a negative number in `[-hi, -lo]` lie in `[lo^2, hi^2]`. */
  lemma SquareOfNegativeBetween(x: real, lo: real, hi: real)
    requires 0.0 <= lo && -hi <= x <= -lo
    ensures lo * lo <= x * x <= hi * hi
  {
    MulNonneg(-x - lo, -x + lo);
    MulNonneg(hi + x, hi - x);
  }

  /** Squares of a number in `[-r, r]` lie in `[0, r^2]`. */
  lemma SquareAtMost(y: real, r: real)
    requires -r <= y <= r
    ensures 0.0 <= y * y <= r * r
  {
    MulNonneg(r - y, r + y);
    if y >= 0.0 {
      MulNonneg(y, y);
    } else {
      MulNonneg(-y, -y);
    }
  }

  /** A negative number in `[-a, 0]` times a number in `[-r, r]` lies in
      `[-a r, a r]`. */
  lemma ProductAtMost(x: real, y: real, a: real, r: real)
    requires -a <= x <= 0.0 && -r <= y <= r
    ensures -(a * r) <= x * y <= a * r
  {
    MulNonneg(-x, r - y);
    MulNonneg(-x, r + y);
    MulNonneg(x + a, r);
  }

  /** Points within 1/200 of -1/2 in both coordinates. The whole square lies
      inside the set; it holds -1/2 itself and, for the start-up view, the
      points of every fragment within half a pixel of the middle. */
  predicate NearMinusHalf(c: Vec2) {
    -0.505 <= c.x <= -0.495 && -0.005 <= c.y <= 0.005
  }

  /** Where the first iterate of such a point lies: close to -1/4. */
  predicate InFirstBox(z: Vec2) {
    -0.253 <= z.x <= -0.247 && -0.011 <= z.y <= 0.011
  }

  /** A box around the attracting fixed point (about -0.366) that the step
      maps into itself. */
  predicate InTrapBox(z: Vec2) {
    -0.445 <= z.x <= -0.285 && -0.05 <= z.y <= 0.05
  }

  lemma FirstStepNearMinusHalf(c: Vec2)
    requires NearMinusHalf(c)
    ensures InFirstBox(Step(c, c))
  {
    var u := c.x + 0.5;
    SquareAtMost(u, 0.005);
    SquareAtMost(c.y, 0.005);
    assert c.x * c.x + c.x == u * u - 0.25;
    ProductAtMost(c.x, c.y, 0.505, 0.005);
  }

  lemma FirstBoxStep(z: Vec2, c: Vec2)
    requires NearMinusHalf(c) && InFirstBox(z)
    ensures InTrapBox(Step(z, c))
  {
    SquareOfNegativeBetween(z.x, 0.247, 0.253);
    SquareAtMost(z.y, 0.011);
    ProductAtMost(z.x, z.y, 0.253, 0.011);
    assert 2.0 * z.x * z.y == 2.0 * (z.x * z.y);
  }

  lemma TrapBoxStep(z: Vec2, c: Vec2)
    requires NearMinusHalf(c) && InTrapBox(z)
    ensures InTrapBox(Step(z, c))
  {
    SquareOfNegativeBetween(z.x, 0.285, 0.445);
    SquareAtMost(z.y, 0.05);
    ProductAtMost(z.x, z.y, 0.445, 0.05);
    assert 2.0 * z.x * z.y == 2.0 * (z.x * z.y);
  }

  /** From the second iterate on, the orbit of a point near -1/2 stays in the
      trap box. */
  lemma {:induction false} OrbitNearMinusHalf(c: Vec2, n: nat)
    requires NearMinusHalf(c) && n >= 2
    ensures InTrapBox(Orbit(c, n))
  {
    if n == 2 {
      assert Orbit(c, 1) == Step(c, c);
      FirstStepNearMinusHalf(c);
      FirstBoxStep(Orbit(c, 1), c);
    } else {
      OrbitNearMinusHalf(c, n - 1);
      TrapBoxStep(Orbit(c, n - 1), c);
    }
  }

  /** Both boxes lie well inside the escape disc. */
  lemma BoxesInsideDisc(z: Vec2)
    requires InFirstBox(z) || InTrapBox(z)
    ensures Mag2(z) <= EscapeBound
  {
    SquareOfNegativeBetween(z.x, 0.247, 0.445);
    SquareAtMost(z.y, 0.05);
  }

  /** No point within 1/200 of -1/2 escapes, -1/2 included: the count is the
      cap and the colour black. */
  lemma NearMinusHalfNeverEscapes(c: Vec2)
    requires NearMinusHalf(c)
    ensures EscapeTime(c) == MaxIterations
    ensures MandelbrotColor(EscapeTime(c)) == Black
  {
    forall j | 1 <= j <= MaxIterations ensures !Escaped(c, j) {
      if j == 1 {
        assert Orbit(c, 1) == Step(c, c);
        FirstStepNearMinusHalf(c);
      } else {
        OrbitNearMinusHalf(c, j);
      }
      BoxesInsideDisc(Orbit(c, j));
    }
    EscapeTimeIsEscapeCount(c);
    EscapeCountUnique(c, MaxIterations, EscapeTime(c));
  }

  /** `|c^2 + c|^2 = |c|^2 |c + 1|^2`. */
  lemma StepFromStartMagnitude(c: Vec2)
    ensures Mag2(Step(c, c)) == Mag2(c) * Mag2(Vec2(c.x + 1.0, c.y))
  {
  }

  /** A point outside the disc of radius 2 escapes on the first step, so its
      count is 0. */
  lemma FarPointEscapesAtOnce(c: Vec2)
    requires Mag2(c) > EscapeBound
    ensures EscapeTime(c) == 0
    ensures MandelbrotColor(EscapeTime(c)) == Red
  {
    var x, y := c.x, c.y;
    var s := Mag2(Vec2(x + 1.0, y));
    assert s > 1.0 by {
      assert s == x * x + y * y + 2.0 * x + 1.0;
      if x < 0.0 && x > -2.0 {
        assert x * x + y * y + 2.0 * x > 4.0 + 2.0 * x;
      } else if x <= -2.0 {
        assert x * (x + 2.0) >= 0.0;
      }
    }
    StepFromStartMagnitude(c);
    assert Mag2(c) * s > Mag2(c) * 1.0;
    assert Orbit(c, 1) == Step(c, c);
    assert Escaped(c, 1);
  }

  /** A pixel offset of at most half a pixel, over a scale of at least 100
      pixels per unit, is at most 1/200 of a unit. */
  lemma SmallOffset(d: real, s: real)
    requires s >= 100.0 && -0.5 <= d <= 0.5
    ensures -0.005 <= d / s <= 0.005
  {
    var q := d / s;
    assert q * s == d;
    if q > 0.005 {
      MulNonneg(q - 0.005, s);
      MulNonneg(0.005, s - 100.0);
    } else if q < -0.005 {
      MulNonneg(-0.005 - q, s);
      MulNonneg(0.005, s - 100.0);
    }
  }

  /** In the start-up view (zoom 2, centre (-1/2, 0)) on a canvas at least 200
      pixels high, every fragment whose centre lies within half a pixel of the
      middle of the canvas is black. On an 800x600 canvas these are the four
      fragments around the middle, (399.5 or 400.5, 299.5 or 300.5); on an
      odd-sized canvas, the one fragment at the middle. */
  lemma StartViewMiddleIsBlack(frag: Vec2, res: Vec2, uZoom: Vec2, uCenter: Vec2)
    requires res.y >= 200.0 && uZoom.y == 2.0 && uCenter == Vec2(-0.5, 0.0)
    requires -0.5 <= frag.x - res.x / 2.0 <= 0.5 && -0.5 <= frag.y - res.y / 2.0 <= 0.5
    ensures FragmentColor(frag, res, uZoom, uCenter) == Black
  {
    var s := res.y / uZoom.y;
    assert s == res.y / 2.0;
    SmallOffset(frag.x - res.x / 2.0, s);
    SmallOffset(frag.y - res.y / 2.0, s);
    var c := PixelToComplex(frag, res, uZoom, uCenter);
    assert NearMinusHalf(c);
    NearMinusHalfNeverEscapes(c);
  }

  /** A pixel whose point lies outside the disc of radius 2 is drawn red. */
  lemma FarPixelIsRed(frag: Vec2, res: Vec2, uZoom: Vec2, uCenter: Vec2)
    requires res.y != 0.0 && uZoom.y != 0.0
    requires Mag2(PixelToComplex(frag, res, uZoom, uCenter)) > EscapeBound
    ensures FragmentColor(frag, res, uZoom, uCenter) == Red
  {
    FarPointEscapesAtOnce(PixelToComplex(frag, res, uZoom, uCenter));
  }
}
