/** The tiled-pattern demo's host-side animation: a fixed period `modVal`
    and a phase `multi` that every timer tick draws with and then advances. */
module TileTimer {
  import opened Common
  import opened TileShader

  /** The period on start-up and for the whole run. */
  const StartModVal: int := 17

  /** The phase on start-up. */
  const StartMulti: real := 1.0

  /** What each tick adds to the phase. */
  const MultiChange: real := 0.01

  /** The phase after `n` ticks from `m`. */
  function Ticks(m: real, n: nat): real {
    if n == 0 then m else Ticks(m, n - 1) + MultiChange
  }

  /** The phase grows linearly: `n` ticks add `n` hundredths. */
  lemma {:induction false} TicksClosedForm(m: real, n: nat)
    ensures Ticks(m, n) == m + MultiChange * n as real
  {
    if n > 0 {
      TicksClosedForm(m, n - 1);
    }
  }

  /** Ticks compose: `a` and then `b` ticks are `a + b` ticks. */
  lemma {:induction false} TicksAdd(m: real, a: nat, b: nat)
    ensures Ticks(Ticks(m, a), b) == Ticks(m, a + b)
  {
    if b > 0 {
      TicksAdd(m, a, b - 1);
    }
  }

  /** The uniform `u_mod_val` of the `i`-th frame, counting from 0. */
  function FrameUniform(i: nat): (u: Vec2)
    ensures u == Vec2(StartModVal as real, StartMulti + MultiChange * i as real)
  {
    TicksClosedForm(StartMulti, i);
    Vec2(StartModVal as real, Ticks(StartMulti, i))
  }

  /** The period uploaded in every frame makes a valid `%` divisor. */
  lemma FrameModValIsSeventeen(i: nat)
    ensures TruncToInt(FrameUniform(i).x) == StartModVal
  {
  }

  /** The phase and the log of `u_mod_val` uploads. */
  class Animation {
    var modVal: int
    var multi: real
    /** The `u_mod_val` of every `drawScene` call, oldest first. */
    var drawn: seq<Vec2>

    /** The state is the one reached from start-up by `|drawn|` ticks, and
        the `i`-th upload carried the phase after `i` ticks. */
    ghost predicate Valid()
      reads this
    {
      && modVal == StartModVal
      && multi == Ticks(StartMulti, |drawn|)
      && forall i :: 0 <= i < |drawn| ==> drawn[i] == FrameUniform(i)
    }

    constructor ()
      ensures Valid() && modVal == StartModVal && multi == StartMulti && drawn == []
    {
      modVal := StartModVal;
      multi := StartMulti;
      drawn := [];
    }

    /** `drawScene`, as far as the animation is concerned: it uploads
        `(modVal, multi)`. */
    method Draw()
      modifies this`drawn
      ensures drawn == old(drawn) + [Vec2(modVal as real, multi)]
    {
      drawn := drawn + [Vec2(modVal as real, multi)];
    }

    /** One timer callback: redraw with the current phase, then advance it. */
    method Tick()
      requires Valid()
      modifies this
      ensures Valid()
      ensures modVal == old(modVal)
      ensures drawn == old(drawn) + [Vec2(old(modVal) as real, old(multi))]
      ensures multi == old(multi) + MultiChange
    {
      Draw();
      multi := multi + MultiChange;
    }
  }

  /** Start-up followed by `n` firings of the interval timer: `n` frames
      drawn, the `i`-th with phase `1 + i/100`, and the phase left at
      `1 + n/100`. */
  method Run(n: nat) returns (anim: Animation)
    ensures fresh(anim) && anim.Valid()
    ensures |anim.drawn| == n
    ensures anim.multi == StartMulti + MultiChange * n as real
    ensures forall i :: 0 <= i < n ==> anim.drawn[i] == FrameUniform(i)
  {
    anim := new Animation();
    var k := 0;
    while k < n
      invariant 0 <= k <= n
      invariant anim.Valid() && |anim.drawn| == k
      modifies anim
    {
      anim.Tick();
      k := k + 1;
    }
    TicksClosedForm(StartMulti, n);
  }

  lemma SquareBelowHundred(m: real)
    requires 0.0 <= m < 10.0
    ensures 0.0 <= m * m / 100.0 < 1.0
  {
    assert m * m <= 10.0 * m;
  }

  /** A value below one truncates to index 0, red. */
  lemma ValueBelowOneIsRed(number: real, uModVal: Vec2)
    requires 0.0 <= number < 1.0 && TruncToInt(uModVal.x) > 0
    ensures TileColor(number, uModVal) == Red
  {
    assert TruncToInt(number) == 0;
  }

  /** With the period 17 and a phase in [0, 10) the middle pixel is red. */
  lemma CenterRedWhilePhaseBelowTen(m: real, frag: Vec2, res: Vec2)
    requires 0.0 <= m < 10.0
    requires TruncToInt(frag.x) == TruncDiv(TruncToInt(res.x), 2)
    requires TruncToInt(frag.y) == TruncDiv(TruncToInt(res.y), 2)
    ensures TileFragmentColor(frag, res, Vec2(StartModVal as real, m)) == Red
  {
    var u := Vec2(StartModVal as real, m);
    CenterPixelColor(frag, res, u);
    SquareBelowHundred(m);
    ValueBelowOneIsRed(m * m / 100.0, u);
  }

  /** The middle pixel stays red for the first 900 frames, whose phase
      `1 + i/100` is below 10. */
  lemma EarlyFramesCenterRed(i: nat, frag: Vec2, res: Vec2)
    requires i < 900
    requires TruncToInt(frag.x) == TruncDiv(TruncToInt(res.x), 2)
    requires TruncToInt(frag.y) == TruncDiv(TruncToInt(res.y), 2)
    ensures TileFragmentColor(frag, res, FrameUniform(i)) == Red
  {
    var m := StartMulti + MultiChange * i as real;
    CenterRedWhilePhaseBelowTen(m, frag, res);
  }
}
