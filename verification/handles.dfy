/**
 * Grabbing a region on the map with the mouse. `DrawRegions` classifies
 * where the pointer is over the selected region (inside it, on one of its
 * edges or corners, or outside), drags the grabbed edges, picks the cursor
 * shape, and lets a click select the topmost region under the pointer.
 * `DoFrame` then hands the mouse to `DrawMap`, which only acts when no
 * region took it.
 */
module Handles {
  import opened Viewport
  import opened Regions

  // ---------------------------------------------------------------------
  // Grab handles
  // ---------------------------------------------------------------------

  /** `grab_handle_e`: one bit per edge of the rectangle. */
  const GRAB_NULL: int := 0
  const GRAB_TOP: int := 1
  const GRAB_LEFT: int := 2
  const GRAB_BOTTOM: int := 4
  const GRAB_RIGHT: int := 8
  const GRAB_ALL: int := 15

  /** `handle & bit` for a one-bit mask, read off the two's-complement bits of `handle`. */
  predicate HasBit(handle: int, bit: nat)
    requires bit > 0
  {
    (handle / bit) % 2 == 1
  }

  /** The handles the editor works with: the whole rectangle, or at most one edge of each axis. */
  predicate ValidHandle(h: int)
  {
    0 <= h < 16
    && (h == GRAB_ALL
        || (!(HasBit(h, GRAB_LEFT) && HasBit(h, GRAB_RIGHT)) && !(HasBit(h, GRAB_TOP) && HasBit(h, GRAB_BOTTOM))))
  }

  lemma AllEdgesInAll()
    ensures HasBit(GRAB_ALL, GRAB_TOP) && HasBit(GRAB_ALL, GRAB_LEFT)
    ensures HasBit(GRAB_ALL, GRAB_BOTTOM) && HasBit(GRAB_ALL, GRAB_RIGHT)
    ensures ValidHandle(GRAB_ALL) && ValidHandle(GRAB_NULL)
  {
  }

  /** A rectangle corner in map space as the screen shows it: the region's corners are stored with y flipped. */
  function ScreenCorner(v: View, p: Vec): Vec
  {
    MapToScreen(v, Vec(p.x, -p.y))
  }

  /**
   * `RectMoveByHandles`: each grabbed edge moves by the pointer's movement
   * scaled back to map units (`delta / zoom / ZOOM_BASE`); the left and top
   * edges belong to the first corner, the right and bottom ones to the second.
   */
  function RectMoveByHandles(a: Vec, b: Vec, handle: int, delta: Vec, zoom: real): (r: (Vec, Vec))
    requires zoom != 0.0
    ensures !HasBit(handle, GRAB_LEFT) ==> r.0.x == a.x
    ensures !HasBit(handle, GRAB_TOP) ==> r.0.y == a.y
    ensures !HasBit(handle, GRAB_RIGHT) ==> r.1.x == b.x
    ensures !HasBit(handle, GRAB_BOTTOM) ==> r.1.y == b.y
    ensures HasBit(handle, GRAB_LEFT) ==> r.0.x == a.x + delta.x / zoom / ZOOM_BASE
    ensures HasBit(handle, GRAB_TOP) ==> r.0.y == a.y + delta.y / zoom / ZOOM_BASE
    ensures HasBit(handle, GRAB_RIGHT) ==> r.1.x == b.x + delta.x / zoom / ZOOM_BASE
    ensures HasBit(handle, GRAB_BOTTOM) ==> r.1.y == b.y + delta.y / zoom / ZOOM_BASE
  {
    var dx := delta.x / zoom / ZOOM_BASE;
    var dy := delta.y / zoom / ZOOM_BASE;
    (Vec(if HasBit(handle, GRAB_LEFT) then a.x + dx else a.x, if HasBit(handle, GRAB_TOP) then a.y + dy else a.y),
     Vec(if HasBit(handle, GRAB_RIGHT) then b.x + dx else b.x, if HasBit(handle, GRAB_BOTTOM) then b.y + dy else b.y))
  }

  /**
   * On screen, every grabbed edge follows the pointer exactly and every
   * other edge stays where it was.
   */
  lemma GrabbedEdgesFollowPointer(v: View, a: Vec, b: Vec, handle: int, delta: Vec)
    requires v.zoom != 0.0
    ensures var r := RectMoveByHandles(a, b, handle, delta, v.zoom);
      ScreenCorner(v, r.0) == Add(ScreenCorner(v, a),
        Vec(if HasBit(handle, GRAB_LEFT) then delta.x else 0.0, if HasBit(handle, GRAB_TOP) then delta.y else 0.0))
      && ScreenCorner(v, r.1) == Add(ScreenCorner(v, b),
        Vec(if HasBit(handle, GRAB_RIGHT) then delta.x else 0.0, if HasBit(handle, GRAB_BOTTOM) then delta.y else 0.0))
  {
    var r := RectMoveByHandles(a, b, handle, delta, v.zoom);
    var k := v.zoom * ZOOM_BASE;
    var dx, dy := delta.x / v.zoom / ZOOM_BASE, delta.y / v.zoom / ZOOM_BASE;
    StepScaledBack(delta.x, v.zoom);
    StepScaledBack(delta.y, v.zoom);
    CornerOnScreen(v, a);
    CornerOnScreen(v, b);
    CornerOnScreen(v, r.0);
    CornerOnScreen(v, r.1);
    assert (a.x + dx) * k == a.x * k + delta.x && (a.y + dy) * k == a.y * k + delta.y;
    assert (b.x + dx) * k == b.x * k + delta.x && (b.y + dy) * k == b.y * k + delta.y;
  }

  /** A corner lands on screen at the origin plus its coordinates times `zoom * ZOOM_BASE`, both axes alike. */
  lemma CornerOnScreen(v: View, p: Vec)
    ensures ScreenCorner(v, p) == Vec(Origin(v).x + p.x * (v.zoom * ZOOM_BASE), Origin(v).y + p.y * (v.zoom * ZOOM_BASE))
  {
    var flipped := Vec(p.x, -p.y);
    var s := MapToScreen(v, flipped);
    assert s.x == Origin(v).x + p.x * v.zoom * ZOOM_BASE;
    assert s.y == Origin(v).y + (-(-p.y)) * v.zoom * ZOOM_BASE;
    assert p.x * v.zoom * ZOOM_BASE == p.x * (v.zoom * ZOOM_BASE);
    assert (-(-p.y)) * v.zoom * ZOOM_BASE == p.y * (v.zoom * ZOOM_BASE);
  }

  lemma StepScaledBack(d: real, zoom: real)
    requires zoom != 0.0
    ensures (d / zoom / ZOOM_BASE) * (zoom * ZOOM_BASE) == d
  {
    var q := d / zoom;
    assert q * zoom == d;
    assert (q / ZOOM_BASE) * ZOOM_BASE == q;
    assert (q / ZOOM_BASE) * (zoom * ZOOM_BASE) == ((q / ZOOM_BASE) * ZOOM_BASE) * zoom;
  }

  /** Grabbing the whole rectangle moves both corners by the same amount, so its size is kept. */
  lemma MoveAllTranslates(a: Vec, b: Vec, delta: Vec, zoom: real)
    requires zoom != 0.0
    ensures var r := RectMoveByHandles(a, b, GRAB_ALL, delta, zoom);
      && r.0.x - a.x == r.1.x - b.x == delta.x / zoom / ZOOM_BASE
      && r.0.y - a.y == r.1.y - b.y == delta.y / zoom / ZOOM_BASE
      && r.1.x - r.0.x == b.x - a.x && r.1.y - r.0.y == b.y - a.y
  {
    AllEdgesInAll();
  }

  /** Holding no handle moves nothing. */
  lemma MoveNullKeepsRect(a: Vec, b: Vec, delta: Vec, zoom: real)
    requires zoom != 0.0
    ensures RectMoveByHandles(a, b, GRAB_NULL, delta, zoom) == (a, b)
  {
  }

  // ---------------------------------------------------------------------
  // Which handle the pointer is over
  // ---------------------------------------------------------------------

  /** Width of the band around a rectangle's outline that still counts as touching it: a quarter grid step. */
  const BORDER_SIZE: real := 16.0
  /** How far from the centre, as a share of the half-extent, the pointer must be to grab an edge. */
  const HANDLE_DIST: real := 0.85

  function Abs(x: real): real
  {
    if x < 0.0 then -x else x
  }

  /**
   * One axis of the edge test: the pointer's offset from the centre divided
   * by the half-extent, compared with `HANDLE_DIST`. A zero half-extent
   * follows floating point: the quotient is minus or plus infinity, or NaN
   * (which passes neither comparison) when the offset is zero too.
   */
  function AxisBits(offset: real, dist: real, low: int, high: int): int
    requires dist >= 0.0
  {
    if dist == 0.0 then
      (if offset < 0.0 then low else if offset > 0.0 then high else GRAB_NULL)
    else
      var d := offset / dist;
      if d < -HANDLE_DIST then low else if d > HANDLE_DIST then high else GRAB_NULL
  }

  /** The edge test grabs the low edge exactly beyond 85% of the half-extent on that side, and likewise the high one. */
  lemma AxisBitsThreshold(offset: real, dist: real, low: int, high: int)
    requires dist >= 0.0
    ensures offset < -HANDLE_DIST * dist ==> AxisBits(offset, dist, low, high) == low
    ensures offset > HANDLE_DIST * dist ==> AxisBits(offset, dist, low, high) == high
    ensures -HANDLE_DIST * dist <= offset <= HANDLE_DIST * dist ==> AxisBits(offset, dist, low, high) == GRAB_NULL
  {
    if dist != 0.0 {
      var d := offset / dist;
      assert offset == d * dist;
      ScaleKeepsOrder(d, -HANDLE_DIST, dist);
      ScaleKeepsOrder(HANDLE_DIST, d, dist);
    }
  }

  lemma ScaleKeepsOrder(p: real, q: real, k: real)
    requires k > 0.0
    ensures p < q <==> p * k < q * k
  {
    if p < q {
      assert (q - p) * k > 0.0;
    } else {
      assert (p - q) * k >= 0.0;
    }
  }

  function Center(tl: Vec, br: Vec): Vec
  {
    Vec((tl.x + br.x) * 0.5, (tl.y + br.y) * 0.5)
  }

  /** The half-extents of the rectangle on screen. */
  function HalfExtent(tl: Vec, br: Vec): Vec
  {
    var c := Center(tl, br);
    Vec(Abs(tl.x - c.x), Abs(tl.y - c.y))
  }

  /** The handle for a pointer in the border band; the edge bits are disjoint, so `|` is a sum. */
  function BandHandle(tl: Vec, br: Vec, cursor: Vec): int
  {
    var c := Center(tl, br);
    var dist := HalfExtent(tl, br);
    AxisBits(cursor.x - c.x, dist.x, GRAB_LEFT, GRAB_RIGHT) + AxisBits(cursor.y - c.y, dist.y, GRAB_TOP, GRAB_BOTTOM)
  }

  lemma CombinedBits(x: int, y: int)
    requires x == GRAB_NULL || x == GRAB_LEFT || x == GRAB_RIGHT
    requires y == GRAB_NULL || y == GRAB_TOP || y == GRAB_BOTTOM
    ensures HasBit(x + y, GRAB_LEFT) <==> x == GRAB_LEFT
    ensures HasBit(x + y, GRAB_RIGHT) <==> x == GRAB_RIGHT
    ensures HasBit(x + y, GRAB_TOP) <==> y == GRAB_TOP
    ensures HasBit(x + y, GRAB_BOTTOM) <==> y == GRAB_BOTTOM
    ensures 0 <= x + y < GRAB_ALL
  {
  }

  /**
   * In the border band the pointer grabs the left edge exactly when it is
   * more than 85% of the half-width left of the centre, the right edge
   * when as far right, and likewise top and bottom: never two opposite
   * edges, never all four.
   */
  lemma BandHandleEdges(tl: Vec, br: Vec, cursor: Vec)
    ensures var h := BandHandle(tl, br, cursor);
      var c := Center(tl, br);
      var dist := HalfExtent(tl, br);
      ValidHandle(h) && h != GRAB_ALL
      && (HasBit(h, GRAB_LEFT) <==> cursor.x - c.x < -HANDLE_DIST * dist.x)
      && (HasBit(h, GRAB_RIGHT) <==> cursor.x - c.x > HANDLE_DIST * dist.x)
      && (HasBit(h, GRAB_TOP) <==> cursor.y - c.y < -HANDLE_DIST * dist.y)
      && (HasBit(h, GRAB_BOTTOM) <==> cursor.y - c.y > HANDLE_DIST * dist.y)
  {
    var c := Center(tl, br);
    var dist := HalfExtent(tl, br);
    var x := AxisBits(cursor.x - c.x, dist.x, GRAB_LEFT, GRAB_RIGHT);
    var y := AxisBits(cursor.y - c.y, dist.y, GRAB_TOP, GRAB_BOTTOM);
    AxisBitsThreshold(cursor.x - c.x, dist.x, GRAB_LEFT, GRAB_RIGHT);
    AxisBitsThreshold(cursor.y - c.y, dist.y, GRAB_TOP, GRAB_BOTTOM);
    CombinedBits(x, y);
  }

  /** The mouse as `DrawRegions` sees it; `hover(min, max)` is ImGui's answer to whether the pointer is over that rectangle. */
  datatype Pointer = Pointer(hover: (Vec, Vec) -> bool, pos: Vec, leftDragging: bool, dragDelta: Vec, clicked: bool)

  /** What `DrawRegions` reads and writes: the regions, the selection, the grabbed handle kept from frame to frame, and the capture flag. */
  datatype Editor = Editor(regions: seq<Region>, selected: int, handle: int, wantCapture: bool)

  /** The pointer is over the rectangle from `tl` to `br` widened by the border band. */
  predicate OverExpanded(ptr: Pointer, tl: Vec, br: Vec)
  {
    ptr.hover(Vec(tl.x - BORDER_SIZE, tl.y - BORDER_SIZE), Vec(br.x + BORDER_SIZE, br.y + BORDER_SIZE))
  }

  /** The pointer is over the rectangle from `tl` to `br` shrunk by the border band. */
  predicate OverInner(ptr: Pointer, tl: Vec, br: Vec)
  {
    ptr.hover(Vec(tl.x + BORDER_SIZE, tl.y + BORDER_SIZE), Vec(br.x - BORDER_SIZE, br.y - BORDER_SIZE))
  }

  predicate HasSelection(ed: Editor)
  {
    0 <= ed.selected < |ed.regions|
  }

  /**
   * The handle half of `DrawRegions`. With the mouse free and a region
   * selected: while the left button drags a grabbed handle, the region's
   * edges follow it; otherwise a pointer over the widened rectangle grabs
   * the whole region when it is over the shrunk one too, and the edges it
   * is near when it is in the band between. Either takes the mouse. A
   * pointer elsewhere, a taken mouse or no selection release the handle.
   */
  function GrabStep(v: View, ed: Editor, ptr: Pointer): (r: Editor)
    requires v.zoom != 0.0
    ensures |r.regions| == |ed.regions| && r.selected == ed.selected
    ensures forall i :: 0 <= i < |ed.regions| && i != ed.selected ==> r.regions[i] == ed.regions[i]
    ensures HasSelection(ed) ==>
      r.regions[ed.selected].title == ed.regions[ed.selected].title
      && r.regions[ed.selected].color == ed.regions[ed.selected].color
    ensures ed.wantCapture || !HasSelection(ed) ==> r == ed.(handle := GRAB_NULL)
    ensures ValidHandle(ed.handle) ==> ValidHandle(r.handle)
    ensures r.regions != ed.regions ==> r.wantCapture && r.handle == ed.handle && ptr.leftDragging
    ensures r.wantCapture ==> ed.wantCapture || HasSelection(ed)
    ensures !ed.wantCapture && HasSelection(ed) ==>
      var region := ed.regions[ed.selected];
      var tl, br := ScreenCorner(v, region.a), ScreenCorner(v, region.b);
      if ptr.leftDragging && ed.handle != GRAB_NULL then
        var moved := RectMoveByHandles(region.a, region.b, ed.handle, ptr.dragDelta, v.zoom);
        r.wantCapture && r.handle == ed.handle
        && r.regions[ed.selected].a == moved.0 && r.regions[ed.selected].b == moved.1
      else if !OverExpanded(ptr, tl, br) then
        r == ed.(handle := GRAB_NULL)
      else
        r.wantCapture && r.regions == ed.regions
        && r.handle == (if OverInner(ptr, tl, br) then GRAB_ALL else BandHandle(tl, br, ptr.pos))
  {
    if !ed.wantCapture && HasSelection(ed) then
      var region := ed.regions[ed.selected];
      var tl := ScreenCorner(v, region.a);
      var br := ScreenCorner(v, region.b);
      if ptr.leftDragging && ed.handle != GRAB_NULL then
        var moved := RectMoveByHandles(region.a, region.b, ed.handle, ptr.dragDelta, v.zoom);
        ed.(regions := ed.regions[ed.selected := region.(a := moved.0, b := moved.1)], wantCapture := true)
      else if OverExpanded(ptr, tl, br) then
        var h := if OverInner(ptr, tl, br) then GRAB_ALL else BandHandle(tl, br, ptr.pos);
        AllEdgesInAll();
        BandHandleEdges(tl, br, ptr.pos);
        ed.(handle := h, wantCapture := true)
      else
        ed.(handle := GRAB_NULL)
    else
      ed.(handle := GRAB_NULL)
  }

  // ---------------------------------------------------------------------
  // The cursor shape
  // ---------------------------------------------------------------------

  datatype Cursor = ResizeNS | ResizeEW | ResizeNWSE | ResizeNESW | ResizeAll | Hand

  datatype Option<T> = None | Some(value: T)

  /** The `switch (handle)` after the classification: `None` where no cursor is set. Combined masks are sums of disjoint bits. */
  function CursorFor(handle: int): Option<Cursor>
  {
    if handle == GRAB_TOP || handle == GRAB_BOTTOM then Some(ResizeNS)
    else if handle == GRAB_LEFT || handle == GRAB_RIGHT then Some(ResizeEW)
    else if handle == GRAB_TOP + GRAB_LEFT || handle == GRAB_BOTTOM + GRAB_RIGHT then Some(ResizeNWSE)
    else if handle == GRAB_TOP + GRAB_RIGHT || handle == GRAB_BOTTOM + GRAB_LEFT then Some(ResizeNESW)
    else if handle == GRAB_ALL then Some(ResizeAll)
    else None
  }

  /**
   * Every handle the editor can hold gets the cursor of the edges it holds:
   * a vertical resize for the top or bottom edge alone, a horizontal one for
   * the left or right edge alone, the diagonal through the grabbed corner,
   * the four-way arrows for the whole region, and no cursor for no handle.
   */
  lemma CursorShowsEdges(h: int)
    requires ValidHandle(h)
    ensures var top, left, bottom, right :=
        HasBit(h, GRAB_TOP), HasBit(h, GRAB_LEFT), HasBit(h, GRAB_BOTTOM), HasBit(h, GRAB_RIGHT);
      (CursorFor(h) == None <==> h == GRAB_NULL)
      && (CursorFor(h) == Some(ResizeAll) <==> h == GRAB_ALL)
      && (CursorFor(h) == Some(ResizeNS) <==> (top || bottom) && !left && !right)
      && (CursorFor(h) == Some(ResizeEW) <==> (left || right) && !top && !bottom)
      && (CursorFor(h) == Some(ResizeNWSE) <==> h != GRAB_ALL && ((top && left) || (bottom && right)))
      && (CursorFor(h) == Some(ResizeNESW) <==> h != GRAB_ALL && ((top && right) || (bottom && left)))
      && CursorFor(h) != Some(Hand)
  {
    var b0, b1, b2, b3 := h % 2, (h / 2) % 2, (h / 4) % 2, (h / 8) % 2;
    assert h == b0 + 2 * b1 + 4 * b2 + 8 * b3;
  }

  // ---------------------------------------------------------------------
  // Selecting a region
  // ---------------------------------------------------------------------

  /** The pointer is over a region's rectangle widened by the border band. */
  predicate Hovered(v: View, region: Region, ptr: Pointer)
  {
    OverExpanded(ptr, ScreenCorner(v, region.a), ScreenCorner(v, region.b))
  }

  /** The highest index from `i` down whose region is under the pointer, or -1. */
  function TopHovered(v: View, regions: seq<Region>, i: int, ptr: Pointer): (top: int)
    requires -1 <= i < |regions|
    ensures -1 <= top <= i
    ensures top >= 0 ==> Hovered(v, regions[top], ptr)
    ensures forall j :: top < j <= i ==> !Hovered(v, regions[j], ptr)
    decreases i + 1
  {
    if i < 0 then -1
    else if Hovered(v, regions[i], ptr) then i
    else TopHovered(v, regions, i - 1, ptr)
  }

  /** What the selection loop carries from one region to the next. */
  datatype Pick = Pick(selected: int, wantCapture: bool, cursor: Option<Cursor>)

  /**
   * The drawing loop of `DrawRegions`, from region `i` down to region 0, the
   * topmost first. While the mouse is free, a region under the pointer shows
   * the hand cursor (unless a handle is held), and a click selects it and
   * takes the mouse, so no region below it can be picked. A highlighted
   * region whose only reason is being selected changes nothing but the
   * drawing, which is not modelled.
   */
  function SelectFrom(v: View, regions: seq<Region>, i: int, handle: int, ptr: Pointer, p: Pick): (r: Pick)
    requires -1 <= i < |regions|
    ensures p.wantCapture ==> r == p
    ensures !p.wantCapture ==>
      var top := TopHovered(v, regions, i, ptr);
      if top < 0 then r == p
      else
        r.selected == (if ptr.clicked then top else p.selected)
        && r.wantCapture == ptr.clicked
        && r.cursor == (if handle == GRAB_NULL then Some(Hand) else p.cursor)
    decreases i + 1
  {
    if i < 0 then p
    else
      var next :=
        if !p.wantCapture && Hovered(v, regions[i], ptr) then
          Pick(if ptr.clicked then i else p.selected, ptr.clicked,
               if handle == GRAB_NULL then Some(Hand) else p.cursor)
        else p;
      SelectFrom(v, regions, i - 1, handle, ptr, next)
  }

  // ---------------------------------------------------------------------
  // One frame of mouse handling
  // ---------------------------------------------------------------------

  /** `DrawRegions`: the handle step, the cursor switch, then the selection loop over every region. */
  function DrawRegions(v: View, ed: Editor, ptr: Pointer): (r: (Editor, Option<Cursor>))
    requires v.zoom != 0.0
  {
    var grabbed := GrabStep(v, ed, ptr);
    var pick := SelectFrom(v, grabbed.regions, |grabbed.regions| - 1, grabbed.handle, ptr,
      Pick(grabbed.selected, grabbed.wantCapture, CursorFor(grabbed.handle)));
    (grabbed.(selected := pick.selected, wantCapture := pick.wantCapture), pick.cursor)
  }

  /**
   * One gesture per frame: the mouse goes to the first of dragging or
   * grabbing the selected region, selecting a region by a click, and
   * zooming or panning the map. Whatever takes it leaves the later ones
   * nothing to do, and region titles are never touched.
   */
  lemma OneGesturePerFrame(v: View, ed: Editor, ptr: Pointer, mouse: MapMouse)
    requires ZoomInRange(v.zoom)
    ensures var (ed', cursor) := DrawRegions(v, ed, ptr);
      var grabbed := GrabStep(v, ed, ptr);
      var view := DrawMapInput(v, ed'.wantCapture, mouse).0;
      (grabbed.wantCapture ==> ed'.selected == ed.selected && ed'.wantCapture)
      && (ed'.selected != ed.selected ==> ptr.clicked && ed'.regions == ed.regions && ed'.wantCapture)
      && (ed'.wantCapture ==> view == v)
      && |ed'.regions| == |ed.regions|
      && (forall i :: 0 <= i < |ed.regions| ==> ed'.regions[i].title == ed.regions[i].title)
  {
    var grabbed := GrabStep(v, ed, ptr);
    if grabbed.regions != ed.regions {
      assert grabbed.wantCapture;
    }
  }

  /** Handling the mouse keeps the titles distinct. */
  lemma DrawRegionsKeepsTitlesDistinct(v: View, ed: Editor, ptr: Pointer)
    requires v.zoom != 0.0 && DistinctTitles(ed.regions)
    ensures DistinctTitles(DrawRegions(v, ed, ptr).0.regions)
  {
    var r := DrawRegions(v, ed, ptr).0.regions;
    assert forall i :: 0 <= i < |ed.regions| ==> r[i].title == ed.regions[i].title;
  }

  // ---------------------------------------------------------------------
  // The selection before the first click
  // ---------------------------------------------------------------------

  /** The selection meaning "none": every read of `selected_region_id` tests `0 <= id < size()` first. */
  const NO_SELECTION: int := -1

  /**
   * The editor before anything has been clicked, with the selection starting
   * as none. Adding regions does not touch the selection, so this holds
   * whatever regions "New region" has appended since.
   */
  function StartEditor(regions: seq<Region>): (ed: Editor)
    ensures ed.regions == regions && !HasSelection(ed)
    ensures ed.handle == GRAB_NULL && !ed.wantCapture
  {
    Editor(regions, NO_SELECTION, GRAB_NULL, false)
  }

  /**
   * From the start state, a frame without a click leaves the editor exactly
   * as it was: nothing selected, nothing grabbed, the mouse free and no
   * region moved. A region becomes selected only by a click, and then it is
   * the topmost region under the pointer, with no handle grabbed yet.
   */
  lemma UnclickedFrameKeepsStart(v: View, regions: seq<Region>, ptr: Pointer)
    requires v.zoom != 0.0
    ensures var ed := DrawRegions(v, StartEditor(regions), ptr).0;
      (!ptr.clicked ==> ed == StartEditor(regions))
      && (ed.selected != NO_SELECTION ==>
            ptr.clicked && ed.selected == TopHovered(v, regions, |regions| - 1, ptr)
            && ed.handle == GRAB_NULL && ed.regions == regions)
  {
  }

  /** A pointer resting over everything on the screen, neither clicking nor dragging. */
  function Resting(pos: Vec): (ptr: Pointer)
    ensures !ptr.clicked && !ptr.leftDragging
  {
    Pointer((tl: Vec, br: Vec) => true, pos, false, Vec(0.0, 0.0), false)
  }

  /**
   * The uninitialised selection, as written: `main_c` gives
   * `selected_region_id` no initialiser and lives as a local of `main`, so
   * before any click it holds whatever `storage` its bytes held. When that
   * happens to index a region, a pointer merely resting over the region
   * grabs all of it and takes the mouse, with no click ever made.
   */
  lemma StaleSelectionGrabsUnclicked(v: View, regions: seq<Region>, storage: int, pos: Vec)
    requires v.zoom != 0.0 && 0 <= storage < |regions|
    ensures var ed := DrawRegions(v, Editor(regions, storage, GRAB_NULL, false), Resting(pos)).0;
      ed.selected == storage && ed.handle == GRAB_ALL && ed.wantCapture
      && ed != StartEditor(regions)
  {
  }
}
