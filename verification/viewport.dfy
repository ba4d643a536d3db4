/**
 * The map view: where a point of map space lands on the screen, and how
 * the mouse wheel and a right-button drag change the zoom and the scroll.
 * Coordinates are reals; the program's single-precision floats are not
 * modelled.
 */
module Viewport {

  datatype Vec = Vec(x: real, y: real)

  function Add(p: Vec, q: Vec): Vec
  {
    Vec(p.x + q.x, p.y + q.y)
  }

  const ZOOM_MIN: real := 0.01
  const ZOOM_MAX: real := 1.0
  /** Map units are drawn `ZOOM_BASE` pixels wide at zoom 1. */
  const ZOOM_BASE: real := 2.0
  /** The share of the current zoom one wheel notch adds or removes. */
  const ZOOM_SCROLL_FACTOR: real := 1.0 / 8.0
  const INITIAL_ZOOM: real := 0.5

  /** `std::clamp(v, lo, hi)`: `lo` below the range, `hi` above it, `v` inside it. */
  function Clamp(v: real, lo: real, hi: real): (r: real)
    requires lo <= hi
    ensures lo <= r <= hi
    ensures lo <= v <= hi ==> r == v
    ensures v < lo ==> r == lo
    ensures hi < v ==> r == hi
  {
    if v < lo then lo else if hi < v then hi else v
  }

  /** The window's work area, the scroll offset and the zoom: everything the transform depends on. */
  datatype View = View(workPos: Vec, workSize: Vec, scroll: Vec, zoom: real)

  predicate ZoomInRange(zoom: real)
  {
    ZOOM_MIN <= zoom <= ZOOM_MAX
  }

  /** The view `main_c` starts with: no scroll, zoom 0.5. */
  function InitialView(workPos: Vec, workSize: Vec): (v: View)
    ensures ZoomInRange(v.zoom) && v.scroll == Vec(0.0, 0.0)
  {
    View(workPos, workSize, Vec(0.0, 0.0), INITIAL_ZOOM)
  }

  /** Where the map origin lands: the centre of the work area, moved by the scroll at the current zoom. */
  function Origin(v: View): Vec
  {
    Vec(v.workPos.x + v.workSize.x * 0.5 + v.scroll.x * v.zoom,
        v.workPos.y + v.workSize.y * 0.5 + v.scroll.y * v.zoom)
  }

  /** `MapSpaceToScreenSpace`: scale by `zoom * ZOOM_BASE` about the origin, with map y pointing up and screen y down. */
  function MapToScreen(v: View, p: Vec): Vec
  {
    var o := Origin(v);
    Vec(o.x + p.x * v.zoom * ZOOM_BASE, o.y + (-p.y) * v.zoom * ZOOM_BASE)
  }

  /** The map point under a screen position: the inverse of the transform. */
  function ScreenToMap(v: View, s: Vec): Vec
    requires v.zoom != 0.0
  {
    var o := Origin(v);
    Vec((s.x - o.x) / (v.zoom * ZOOM_BASE), -((s.y - o.y) / (v.zoom * ZOOM_BASE)))
  }

  /** Mapping a map point to the screen and back gives the point again. */
  lemma ScreenToMapAfterMapToScreen(v: View, p: Vec)
    requires v.zoom != 0.0
    ensures ScreenToMap(v, MapToScreen(v, p)) == p
  {
    var k := v.zoom * ZOOM_BASE;
    assert p.x * v.zoom * ZOOM_BASE == p.x * k;
    assert (p.x * k) / k == p.x;
    assert (-p.y) * v.zoom * ZOOM_BASE == (-p.y) * k;
    assert ((-p.y) * k) / k == -p.y;
  }

  /** Mapping a screen position to the map and back gives the position again. */
  lemma MapToScreenAfterScreenToMap(v: View, s: Vec)
    requires v.zoom != 0.0
    ensures MapToScreen(v, ScreenToMap(v, s)) == s
  {
    var k := v.zoom * ZOOM_BASE;
    var o := Origin(v);
    assert ((s.x - o.x) / k) * v.zoom * ZOOM_BASE == ((s.x - o.x) / k) * k;
    assert ((s.x - o.x) / k) * k == s.x - o.x;
    assert (-(-((s.y - o.y) / k))) * v.zoom * ZOOM_BASE == ((s.y - o.y) / k) * k;
    assert ((s.y - o.y) / k) * k == s.y - o.y;
  }

  /**
   * Screen distances are map distances times `zoom * ZOOM_BASE`, with the
   * vertical axis flipped: a point further up the map is higher on screen.
   */
  lemma MapToScreenScales(v: View, p: Vec, q: Vec)
    ensures MapToScreen(v, p).x - MapToScreen(v, q).x == (p.x - q.x) * v.zoom * ZOOM_BASE
    ensures MapToScreen(v, p).y - MapToScreen(v, q).y == -(p.y - q.y) * v.zoom * ZOOM_BASE
  {
  }

  // ---------------------------------------------------------------------
  // Zoom and pan in DrawMap
  // ---------------------------------------------------------------------

  /**
   * The wheel step: a non-zero wheel value scales the zoom by
   * `1 + wheel / 8` and clamps the result to [0.01, 1]; a zero wheel leaves
   * the zoom alone.
   */
  function ZoomStep(zoom: real, wheel: real): (z: real)
    ensures wheel == 0.0 ==> z == zoom
    ensures wheel != 0.0 ==> ZoomInRange(z)
    ensures wheel != 0.0 && ZoomInRange(zoom * (1.0 + wheel * ZOOM_SCROLL_FACTOR)) ==>
      z == zoom * (1.0 + wheel * ZOOM_SCROLL_FACTOR)
  {
    if wheel != 0.0 then
      Clamp(zoom + wheel * ZOOM_SCROLL_FACTOR * zoom, ZOOM_MIN, ZOOM_MAX)
    else
      zoom
  }

  /** Scrolling the wheel forward never zooms out, and backward never zooms in, from a zoom in range. */
  lemma ZoomStepMonotone(zoom: real, wheel: real)
    requires ZoomInRange(zoom)
    ensures wheel > 0.0 ==> ZoomStep(zoom, wheel) >= zoom
    ensures wheel < 0.0 ==> ZoomStep(zoom, wheel) <= zoom
  {
    assert zoom + wheel * ZOOM_SCROLL_FACTOR * zoom == zoom * (1.0 + wheel * ZOOM_SCROLL_FACTOR);
    if wheel > 0.0 {
      assert wheel * ZOOM_SCROLL_FACTOR * zoom > 0.0;
    } else if wheel < 0.0 {
      assert wheel * ZOOM_SCROLL_FACTOR * zoom < 0.0;
    }
  }

  /** The zoom after a run of wheel events. */
  function ZoomSteps(zoom: real, wheels: seq<real>): real
    decreases |wheels|
  {
    if wheels == [] then zoom else ZoomSteps(ZoomStep(zoom, wheels[0]), wheels[1..])
  }

  /** However the wheel is turned, a zoom that starts in [0.01, 1] stays there. */
  lemma {:induction false} ZoomStaysInRange(zoom: real, wheels: seq<real>)
    requires ZoomInRange(zoom)
    ensures ZoomInRange(ZoomSteps(zoom, wheels))
    decreases |wheels|
  {
    if wheels != [] {
      ZoomStaysInRange(ZoomStep(zoom, wheels[0]), wheels[1..]);
    }
  }

  /** The right-button drag: the scroll moves by the pointer's movement divided by the zoom. */
  function Pan(v: View, delta: Vec): View
    requires v.zoom != 0.0
  {
    v.(scroll := Vec(v.scroll.x + delta.x / v.zoom, v.scroll.y + delta.y / v.zoom))
  }

  /** Panning moves the whole picture on screen by exactly the pointer's movement. */
  lemma PanFollowsPointer(v: View, delta: Vec, p: Vec)
    requires v.zoom != 0.0
    ensures MapToScreen(Pan(v, delta), p) == Add(MapToScreen(v, p), delta)
  {
    var w := Pan(v, delta);
    assert (delta.x / v.zoom) * v.zoom == delta.x && (delta.y / v.zoom) * v.zoom == delta.y;
    assert w.scroll.x * v.zoom == v.scroll.x * v.zoom + delta.x;
    assert w.scroll.y * v.zoom == v.scroll.y * v.zoom + delta.y;
    assert Origin(w) == Add(Origin(v), delta);
  }

  /** The mouse state `DrawMap` reads: the wheel, whether the right button is dragging, and its movement. */
  datatype MapMouse = MapMouse(wheel: real, rightDragging: bool, delta: Vec)

  /**
   * The input half of `DrawMap`. When something earlier in the frame has
   * captured the mouse, nothing happens. Otherwise the wheel zooms first and
   * the drag then pans at the new zoom; either one captures the mouse. The
   * zoom stays in [0.01, 1] and the work area is never touched.
   */
  function DrawMapInput(v: View, wantCapture: bool, mouse: MapMouse): (r: (View, bool))
    requires ZoomInRange(v.zoom)
    ensures ZoomInRange(r.0.zoom)
    ensures wantCapture ==> r == (v, true)
    ensures r.1 <==> wantCapture || mouse.wheel != 0.0 || mouse.rightDragging
    ensures r.0.workPos == v.workPos && r.0.workSize == v.workSize
    ensures !wantCapture ==> r.0.zoom == ZoomStep(v.zoom, mouse.wheel)
    ensures !wantCapture && !mouse.rightDragging ==> r.0.scroll == v.scroll
    ensures !wantCapture && mouse.rightDragging ==> r.0 == Pan(v.(zoom := r.0.zoom), mouse.delta)
  {
    if wantCapture then (v, true)
    else
      var zoomed := v.(zoom := ZoomStep(v.zoom, mouse.wheel));
      var captured := mouse.wheel != 0.0;
      if mouse.rightDragging then (Pan(zoomed, mouse.delta), true)
      else (zoomed, captured)
  }
}
