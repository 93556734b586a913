/**
 * The view camera (src/engine/world/camera.ts): `pos` is the world point at
 * the top-left corner of the canvas, `zoom` the screen pixels per world
 * unit. The camera never shows past the map's right or bottom edge unless
 * the map is smaller than the view.
 */
module Camera {
  import opened VecMath

  datatype Camera = Camera(pos: Vec2, zoom: real, viewport: Vec2, worldSize: Vec2)

  /** The initial camera: 800 × 600 canvas on a 2000 × 2000 map, zoom 1. */
  const InitialCamera := Camera(Vec2(0.0, 0.0), 1.0, Vec2(800.0, 600.0), Vec2(2000.0, 2000.0))

  /** The largest top-left corner that still keeps the view on the map, along one axis. */
  function MaxCorner(world: real, view: real, zoom: real): (r: real)
    requires zoom > 0.0
    ensures r >= 0.0
    ensures r == 0.0 || r + view / zoom == world
  {
    Max(0.0, world - view / zoom)
  }

  /** The view fits on the map along both axes. */
  predicate InWorld(c: Camera)
    requires c.zoom > 0.0
  {
    0.0 <= c.pos.x <= MaxCorner(c.worldSize.x, c.viewport.x, c.zoom) &&
    0.0 <= c.pos.y <= MaxCorner(c.worldSize.y, c.viewport.y, c.zoom)
  }

  /**
   * `clampToWorld`: the corner is pulled into the allowed range; a corner
   * already inside stays where it is, and nothing but the corner changes.
   */
  function ClampToWorld(c: Camera): (r: Camera)
    requires c.zoom > 0.0
    ensures r == c.(pos := r.pos)
    ensures InWorld(r)
    ensures InWorld(c) ==> r == c
  {
    var maxX := MaxCorner(c.worldSize.x, c.viewport.x, c.zoom);
    var maxY := MaxCorner(c.worldSize.y, c.viewport.y, c.zoom);
    c.(pos := Vec2(Clamp(c.pos.x, 0.0, maxX), Clamp(c.pos.y, 0.0, maxY)))
  }

  /** Clamping twice is clamping once. */
  lemma ClampIdempotent(c: Camera)
    requires c.zoom > 0.0
    ensures ClampToWorld(ClampToWorld(c)) == ClampToWorld(c)
  {
  }

  /** `setViewport`: the new canvas size, then the corner is clamped. */
  function SetViewport(c: Camera, w: real, h: real): (r: Camera)
    requires c.zoom > 0.0
    ensures r.viewport == Vec2(w, h) && r.worldSize == c.worldSize && r.zoom == c.zoom
    ensures InWorld(r)
    ensures InWorld(c.(viewport := Vec2(w, h))) ==> r.pos == c.pos
  {
    ClampToWorld(c.(viewport := Vec2(w, h)))
  }

  /** `setWorldSize`: the new map size, the corner at the map's centre, then clamped. */
  function SetWorldSize(c: Camera, w: real, h: real): (r: Camera)
    requires c.zoom > 0.0
    ensures r.worldSize == Vec2(w, h) && r.viewport == c.viewport && r.zoom == c.zoom
    ensures InWorld(r)
    ensures r.pos.x == Max(0.0, Min(w / 2.0, MaxCorner(w, c.viewport.x, c.zoom)))
    ensures r.pos.y == Max(0.0, Min(h / 2.0, MaxCorner(h, c.viewport.y, c.zoom)))
  {
    ClampToWorld(c.(worldSize := Vec2(w, h), pos := Vec2(w / 2.0, h / 2.0)))
  }

  /** On a map at least twice the view, the corner lands exactly at the centre. */
  lemma SetWorldSizeCentres(c: Camera, w: real, h: real)
    requires c.zoom > 0.0 && c.viewport.x >= 0.0 && c.viewport.y >= 0.0
    requires w / 2.0 >= c.viewport.x / c.zoom && h / 2.0 >= c.viewport.y / c.zoom
    ensures SetWorldSize(c, w, h).pos == Vec2(w / 2.0, h / 2.0)
  {
  }

  /** `worldToScreen`. */
  function WorldToScreen(c: Camera, p: Vec2): (r: Vec2)
    ensures p == c.pos ==> r == Vec2(0.0, 0.0)
  {
    Vec2((p.x - c.pos.x) * c.zoom, (p.y - c.pos.y) * c.zoom)
  }

  /** `screenToWorld`. */
  function ScreenToWorld(c: Camera, p: Vec2): (r: Vec2)
    requires c.zoom != 0.0
    ensures p == Vec2(0.0, 0.0) ==> r == c.pos
  {
    Vec2(p.x / c.zoom + c.pos.x, p.y / c.zoom + c.pos.y)
  }

  /** The two transforms undo each other whenever the zoom is not zero. */
  lemma TransformsRoundTrip(c: Camera, p: Vec2)
    requires c.zoom != 0.0
    ensures ScreenToWorld(c, WorldToScreen(c, p)) == p
    ensures WorldToScreen(c, ScreenToWorld(c, p)) == p
  {
    assert (p.x - c.pos.x) * c.zoom / c.zoom == p.x - c.pos.x;
    assert (p.y - c.pos.y) * c.zoom / c.zoom == p.y - c.pos.y;
    assert (p.x / c.zoom) * c.zoom == p.x;
    assert (p.y / c.zoom) * c.zoom == p.y;
  }
}

/**
 * The overlay list (src/engine/world/overlay.ts): the server-sent map
 * annotations, in drawing order. The item type is left generic.
 */
module Overlay {
  datatype OverlayState<T> = OverlayState(items: seq<T>)

  /** `list`: the items, in order; reading them changes nothing. */
  function List<T>(s: OverlayState<T>): (r: seq<T>)
    ensures OverlayState(r) == s
  {
    s.items
  }

  /** `clear`. */
  function Clear<T>(s: OverlayState<T>): (r: OverlayState<T>)
    ensures List(r) == []
  {
    OverlayState([])
  }

  /** `set`: the list becomes the given items, whatever it held. */
  function Set<T>(s: OverlayState<T>, items: seq<T>): (r: OverlayState<T>)
    ensures List(r) == items
  {
    OverlayState(items)
  }

  /** `add`: the item goes last and the earlier items stay in order. */
  function Add<T>(s: OverlayState<T>, item: T): (r: OverlayState<T>)
    ensures |List(r)| == |List(s)| + 1
    ensures List(r)[..|List(s)|] == List(s) && List(r)[|List(s)|] == item
  {
    OverlayState(s.items + [item])
  }

  /** Adding after a clear is setting a single item; adding after a set extends the set. */
  lemma AddAfterClearOrSet<T>(s: OverlayState<T>, items: seq<T>, item: T)
    ensures Add(Clear(s), item) == Set(s, [item])
    ensures List(Add(Set(s, items), item)) == items + [item]
  {
  }
}
