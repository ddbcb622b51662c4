/** The Mandelbrot demo's host-side state: the zoom and centre that the
    keydown handler changes, and the uniforms each redraw uploads. */
module MandelbrotControls {
  import opened Common
  import opened MandelbrotShader

  /** A pan key moves the centre by this fraction of the zoom. */
  const PanFactor: real := 0.1

  /** A zoom key divides or multiplies the zoom by this. */
  const ZoomFactor: real := 1.1

  /** The viewport: zoom factor and the point shown at the middle of the canvas. */
  datatype View = View(zoom: real, center: Vec2)

  /** The view at start-up. */
  const StartView: View := View(2.0, Vec2(-0.5, 0.0))

  predicate IsPanKey(key: string) {
    key == "ArrowUp" || key == "ArrowDown" || key == "ArrowLeft" || key == "ArrowRight"
  }

  predicate IsZoomKey(key: string) {
    key == "w" || key == "s"
  }

  /** The effect of one keydown on the view. Unrecognised keys change
      nothing, every key changes the zoom or the centre but never both, and
      a positive zoom stays positive. */
  function KeyStep(v: View, key: string): (r: View)
    ensures !IsPanKey(key) && !IsZoomKey(key) ==> r == v
    ensures IsPanKey(key) ==> r.zoom == v.zoom
    ensures IsZoomKey(key) ==> r.center == v.center
    ensures v.zoom > 0.0 ==> r.zoom > 0.0
  {
    if key == "ArrowUp" then v.(center := Vec2(v.center.x, v.center.y + PanFactor * v.zoom))
    else if key == "ArrowDown" then v.(center := Vec2(v.center.x, v.center.y - PanFactor * v.zoom))
    else if key == "ArrowLeft" then v.(center := Vec2(v.center.x - PanFactor * v.zoom, v.center.y))
    else if key == "ArrowRight" then v.(center := Vec2(v.center.x + PanFactor * v.zoom, v.center.y))
    else if key == "w" then v.(zoom := v.zoom / ZoomFactor)
    else if key == "s" then v.(zoom := v.zoom * ZoomFactor)
    else v
  }

  /** The view after a sequence of keydowns. */
  function RunKeys(v: View, keys: seq<string>): View
    decreases |keys|
  {
    if keys == [] then v else RunKeys(KeyStep(v, keys[0]), keys[1..])
  }

  /** A positive zoom stays positive under any sequence of keys. */
  lemma {:induction false} RunKeysKeepsZoomPositive(v: View, keys: seq<string>)
    requires v.zoom > 0.0
    ensures RunKeys(v, keys).zoom > 0.0
    decreases |keys|
  {
    if keys != [] {
      RunKeysKeepsZoomPositive(KeyStep(v, keys[0]), keys[1..]);
    }
  }

  /** Opposite keys undo each other exactly. */
  lemma OppositeKeysCancel(v: View)
    requires v.zoom > 0.0
    ensures KeyStep(KeyStep(v, "ArrowUp"), "ArrowDown") == v
    ensures KeyStep(KeyStep(v, "ArrowDown"), "ArrowUp") == v
    ensures KeyStep(KeyStep(v, "ArrowLeft"), "ArrowRight") == v
    ensures KeyStep(KeyStep(v, "ArrowRight"), "ArrowLeft") == v
    ensures KeyStep(KeyStep(v, "w"), "s") == v
    ensures KeyStep(KeyStep(v, "s"), "w") == v
  {
  }

  /** The unit direction in which a pan key moves the centre. */
  function PanDirection(key: string): Vec2 {
    if key == "ArrowUp" then Vec2(0.0, 1.0)
    else if key == "ArrowDown" then Vec2(0.0, -1.0)
    else if key == "ArrowLeft" then Vec2(-1.0, 0.0)
    else if key == "ArrowRight" then Vec2(1.0, 0.0)
    else Vec2(0.0, 0.0)
  }

  /** A pan key moves the centre by a tenth of the zoom along its direction. */
  lemma PanMovesCenter(v: View, key: string)
    requires IsPanKey(key)
    ensures KeyStep(v, key).center
         == Vec2(v.center.x + (PanDirection(key).x * PanFactor) * v.zoom,
                 v.center.y + (PanDirection(key).y * PanFactor) * v.zoom)
  {
  }

  /** The pixel displacement a pan key amounts to on a canvas of resolution
      `res`: a tenth of the canvas height, along the key's direction. */
  function PanPixels(key: string, res: Vec2): Vec2 {
    Vec2((PanDirection(key).x * PanFactor) * res.y, (PanDirection(key).y * PanFactor) * res.y)
  }

  lemma AxisShift(f: real, half: real, h: real, z: real, center: real, d: real)
    requires h != 0.0 && z != 0.0
    ensures Axis(f + d * h, half, h / z, center) == Axis(f, half, h / z, center + d * z)
  {
    var u := (f - half) / (h / z);
    assert f - half == u * (h / z);
    assert d * h == (d * z) * (h / z);
    assert f + d * h - half == (u + d * z) * (h / z);
  }

  /** Panning moves the picture by the same number of pixels at every zoom:
      after a pan key each pixel shows what the pixel a tenth of the canvas
      height further along the key's direction showed before. */
  lemma PanIsConstantOnScreen(v: View, key: string, p: Vec2, res: Vec2)
    requires v.zoom > 0.0 && res.y != 0.0 && IsPanKey(key)
    ensures PixelToComplex(p, res, Vec2(v.zoom, v.zoom), KeyStep(v, key).center)
         == PixelToComplex(Vec2(p.x + PanPixels(key, res).x, p.y + PanPixels(key, res).y),
                           res, Vec2(v.zoom, v.zoom), v.center)
  {
    var dx, dy := PanDirection(key).x * PanFactor, PanDirection(key).y * PanFactor;
    PanMovesCenter(v, key);
    AxisShift(p.x, res.x / 2.0, res.y, v.zoom, v.center.x, dx);
    AxisShift(p.y, res.y / 2.0, res.y, v.zoom, v.center.y, dy);
  }

  lemma AxisRescale(f: real, half: real, h: real, z: real, k: real, z2: real, center: real)
    requires h != 0.0 && z != 0.0 && k != 0.0 && z2 == z * k
    ensures Axis(f, half, h / z2, center) == center + k * (Axis(f, half, h / z, center) - center)
  {
    var u := (f - half) / (h / z);
    assert f - half == u * (h / z);
    assert h / z == k * (h / z2);
    assert f - half == (u * k) * (h / z2);
  }

  /** The factor by which a zoom key scales the picture about the centre. */
  function ZoomScale(key: string): real {
    if key == "w" then 1.0 / ZoomFactor else ZoomFactor
  }

  /** The zoom keys scale the picture about the centre: every pixel's point
      moves towards the centre by 1/1.1 under `w` and away from it by 1.1
      under `s`, so the middle pixel keeps showing the centre. */
  lemma ZoomScalesAboutCenter(v: View, key: string, p: Vec2, res: Vec2)
    requires v.zoom > 0.0 && res.y != 0.0 && IsZoomKey(key)
    ensures PixelToComplex(p, res, Vec2(KeyStep(v, key).zoom, KeyStep(v, key).zoom), v.center)
         == Lerp(v.center, PixelToComplex(p, res, Vec2(v.zoom, v.zoom), v.center), ZoomScale(key))
  {
    var w := KeyStep(v, key).zoom;
    var k := ZoomScale(key);
    assert w == v.zoom * k;
    AxisRescale(p.x, res.x / 2.0, res.y, v.zoom, k, w, v.center.x);
    AxisRescale(p.y, res.y / 2.0, res.y, v.zoom, k, w, v.center.y);
  }

  /** What one call of `drawScene` uploads from the viewport: `u_zoom`, sent
      as the zoom twice, and `u_center`. */
  datatype Uniforms = Uniforms(uZoom: Vec2, uCenter: Vec2)

  /** The viewport state and the log of redraws it has triggered. */
  class Controller {
    var zoom: real
    var center: Vec2
    /** The uniforms of every `drawScene` call, oldest first. */
    var drawn: seq<Uniforms>

    /** The zoom is positive, and so was the zoom of every frame drawn. */
    ghost predicate Valid()
      reads this
    {
      && zoom > 0.0
      && forall i :: 0 <= i < |drawn| ==> drawn[i].uZoom.y > 0.0
    }

    function Current(): View
      reads this
    {
      View(zoom, center)
    }

    /** The uniforms a redraw would upload now. */
    function Snapshot(): Uniforms
      reads this
    {
      Uniforms(Vec2(zoom, zoom), center)
    }

    /** The start-up state: zoom 2, centre (-1/2, 0), nothing drawn. */
    constructor ()
      ensures Valid() && Current() == StartView && drawn == []
    {
      zoom := 2.0;
      center := Vec2(-0.5, 0.0);
      drawn := [];
    }

    /** `drawScene`, as far as the viewport is concerned: it reads the state
        and uploads it; the state itself is unchanged. */
    method Draw()
      modifies this`drawn
      ensures zoom == old(zoom) && center == old(center)
      ensures drawn == old(drawn) + [Snapshot()]
    {
      drawn := drawn + [Snapshot()];
    }

    /** The keydown handler: apply the key's transform, then redraw once. */
    method HandleKey(key: string)
      requires Valid()
      modifies this
      ensures Valid()
      ensures Current() == KeyStep(old(Current()), key)
      ensures drawn == old(drawn) + [Snapshot()]
    {
      if key == "ArrowUp" {
        center := center.(y := center.y + PanFactor * zoom);
      } else if key == "ArrowDown" {
        center := center.(y := center.y - PanFactor * zoom);
      } else if key == "ArrowLeft" {
        center := center.(x := center.x - PanFactor * zoom);
      } else if key == "ArrowRight" {
        center := center.(x := center.x + PanFactor * zoom);
      } else if key == "w" {
        zoom := zoom / ZoomFactor;
      } else if key == "s" {
        zoom := zoom * ZoomFactor;
      }
      Draw();
    }
  }

  /** In every frame the controller has drawn, the point at half the
      resolution shows the centre that frame uploaded. */
  lemma DrawnFramesShowCenter(ctl: Controller, i: int, res: Vec2)
    requires ctl.Valid() && 0 <= i < |ctl.drawn| && res.y != 0.0
    ensures PixelToComplex(Vec2(res.x / 2.0, res.y / 2.0), res, ctl.drawn[i].uZoom, ctl.drawn[i].uCenter)
         == ctl.drawn[i].uCenter
  {
    CenterPixelShowsCenter(res, ctl.drawn[i].uZoom, ctl.drawn[i].uCenter);
  }

  /** Whether a fragment's centre lies within half a pixel of the middle of the
      canvas in both coordinates. */
  predicate NearMiddle(frag: Vec2, res: Vec2) {
    -0.5 <= frag.x - res.x / 2.0 <= 0.5 && -0.5 <= frag.y - res.y / 2.0 <= 0.5
  }

  /** Start-up draws once, with the start view; on a canvas at least 200
      pixels high, every fragment within half a pixel of the middle of that
      frame is black. */
  method StartUp(res: Vec2) returns (ctl: Controller)
    requires res.y >= 200.0
    ensures fresh(ctl) && ctl.Valid() && ctl.Current() == StartView
    ensures ctl.drawn == [Uniforms(Vec2(2.0, 2.0), Vec2(-0.5, 0.0))]
    ensures forall frag :: NearMiddle(frag, res) ==>
              FragmentColor(frag, res, ctl.drawn[0].uZoom, ctl.drawn[0].uCenter) == Black
  {
    ctl := new Controller();
    ctl.Draw();
    var u := ctl.drawn[0];
    forall frag | NearMiddle(frag, res)
      ensures FragmentColor(frag, res, u.uZoom, u.uCenter) == Black
    {
      StartViewMiddleIsBlack(frag, res, u.uZoom, u.uCenter);
    }
  }
}
