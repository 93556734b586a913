/**
 * The vision layer's decisions (src/engine/render/unitlayer/visionlayer.ts):
 * the even-odd point-in-polygon test, rays marched over the forest mask,
 * the 180-ray vision polygon, and the per-unit polygon cache. Canvas
 * drawing is not modelled; what a unit would draw is returned instead.
 * `Math.cos`/`Math.sin` of a ray's angle and `Math.pow(t, 0.3)` are
 * parameters.
 */
module Vision {
  import opened Wrappers
  import opened VecMath
  import opened Stats
  import opened Units
  import opened Sorting

  // ------------------------------------------------------- point in polygon

  /** The edge from `a` to `b` straddles the horizontal line through `p`. */
  predicate Straddles(p: Vec2, a: Vec2, b: Vec2) {
    (a.y > p.y) != (b.y > p.y)
  }

  /**
   * The edge toggles the test: it straddles the point's line and meets it
   * to the right of the point. A straddling edge is never horizontal, so the
   * division is defined.
   */
  predicate Crosses(p: Vec2, a: Vec2, b: Vec2) {
    Straddles(p, a, b) && p.x < (b.x - a.x) * (p.y - a.y) / (b.y - a.y) + a.x
  }

  /** Edge `i` joins vertex `i` to the vertex before it, the first closing on the last. */
  function Prev(i: nat, n: nat): nat
    requires i < n
  {
    if i == 0 then n - 1 else i - 1
  }

  /** How many of the first `k` edges toggle the test. */
  function Crossings(p: Vec2, poly: seq<Vec2>, k: nat): nat
    requires k <= |poly|
  {
    if k == 0 then 0
    else Crossings(p, poly, k - 1) + (if Crosses(p, poly[k - 1], poly[Prev(k - 1, |poly|)]) then 1 else 0)
  }

  /** `pointInPolygon`: inside exactly when an odd number of edges cross to the right of the point. */
  method PointInPolygon(p: Vec2, poly: seq<Vec2>) returns (inside: bool)
    ensures inside <==> Crossings(p, poly, |poly|) % 2 == 1
    ensures |poly| == 0 ==> !inside
  {
    inside := false;
    var i := 0;
    while i < |poly|
      invariant 0 <= i <= |poly|
      invariant inside <==> Crossings(p, poly, i) % 2 == 1
    {
      var j := Prev(i, |poly|);
      if Crosses(p, poly[i], poly[j]) {
        inside := !inside;
      }
      i := i + 1;
    }
  }

  /** A horizontal edge never toggles the test. */
  lemma HorizontalEdgeNeverCrosses(p: Vec2, a: Vec2, b: Vec2)
    requires a.y == b.y
    ensures !Crosses(p, a, b)
  {
  }

  /** No edge straddles a line at or above the highest vertex, so such a point is outside. */
  lemma {:induction false} AboveIsOutside(p: Vec2, poly: seq<Vec2>, k: nat)
    requires k <= |poly|
    requires forall i :: 0 <= i < |poly| ==> poly[i].y <= p.y
    ensures Crossings(p, poly, k) == 0
  {
    if k > 0 {
      AboveIsOutside(p, poly, k - 1);
    }
  }

  /** A straddling edge meets the point's line between its end points' `x`. */
  lemma CrossingBetween(p: Vec2, a: Vec2, b: Vec2)
    requires Straddles(p, a, b)
    ensures var x := (b.x - a.x) * (p.y - a.y) / (b.y - a.y) + a.x;
            Min(a.x, b.x) <= x <= Max(a.x, b.x)
  {
    var t := (p.y - a.y) / (b.y - a.y);
    assert 0.0 <= t <= 1.0;
    assert (b.x - a.x) * (p.y - a.y) / (b.y - a.y) == (b.x - a.x) * t;
    if a.x <= b.x {
      assert 0.0 <= (b.x - a.x) * t <= b.x - a.x by { MulUnit(b.x - a.x, t); }
    } else {
      assert a.x - b.x >= (a.x - b.x) * t >= 0.0 by { MulUnit(a.x - b.x, t); }
    }
  }

  /** An edge wholly left of the point never crosses to its right. */
  lemma LeftEdgeNeverCrosses(p: Vec2, a: Vec2, b: Vec2)
    requires a.x <= p.x && b.x <= p.x
    ensures !Crosses(p, a, b)
  {
    if Straddles(p, a, b) {
      CrossingBetween(p, a, b);
      var x := (b.x - a.x) * (p.y - a.y) / (b.y - a.y) + a.x;
      assert x <= Max(a.x, b.x) <= p.x;
      assert !(p.x < x);
    }
  }

  /** A point to the right of every vertex is outside: no edge crosses to its right. */
  lemma {:induction false} RightIsOutside(p: Vec2, poly: seq<Vec2>, k: nat)
    requires k <= |poly|
    requires forall i :: 0 <= i < |poly| ==> poly[i].x <= p.x
    ensures Crossings(p, poly, k) == 0
  {
    if k > 0 {
      RightIsOutside(p, poly, k - 1);
      LeftEdgeNeverCrosses(p, poly[k - 1], poly[Prev(k - 1, |poly|)]);
    }
  }

  // ------------------------------------------------------------- ray march

  /** The forest mask: RGBA bytes, row by row. */
  datatype ForestImage = ForestImage(width: nat, height: nat, data: seq<int>)

  /**
   * `isForestPixel`: no mask, a point off the mask, or an alpha of 200 or
   * less is not forest; a byte past the end of the data reads as
   * `undefined`, which is not forest either.
   */
  predicate IsForestPixel(img: Option<ForestImage>, q: Vec2) {
    match img
    case None => false
    case Some(m) =>
      if q.x < 0.0 || q.y < 0.0 || q.x >= m.width as real || q.y >= m.height as real then false
      else
        var i := (q.y.Floor * m.width + q.x.Floor) * 4 + 3;
        0 <= i < |m.data| && m.data[i] > 200
  }

  /** The march step in pixels. */
  const RayStep: real := 6.0

  /** Forest farther along the ray costs more: the penalty factor of `FOREST_DISTANCE_PENALTY`. */
  const ForestDistancePenalty: real := 3.0

  /** Where a ray stopped, after how many steps, and its weighted and true distances. */
  datatype RayEnd = RayEnd(pos: Vec2, steps: nat, dist: real, realDist: real)

  function At(origin: Vec2, d: Vec2, n: nat): Vec2 {
    Vec2(origin.x + d.x * n as real, origin.y + d.y * n as real)
  }

  /**
   * The loop of `castRay`: a step over forest is lengthened by
   * `1 + pow03(realDist / maxDist) * 3`, and forest met after half the
   * range stops the ray.
   */
  function March(img: Option<ForestImage>, origin: Vec2, d: Vec2, maxDist: real, pow03: real -> real,
                 n: nat, dist: real): (r: RayEnd)
    requires maxDist > 0.0 && dist >= n as real * RayStep
    requires forall t :: 0.0 <= t ==> 0.0 <= pow03(t)
    requires n == 0 || (n as real - 1.0) * RayStep < maxDist
    requires img.None? ==> dist == n as real * RayStep
    ensures r.steps >= n && r.pos == At(origin, d, r.steps) && r.realDist == r.steps as real * RayStep
    ensures r.dist >= r.realDist
    ensures r.dist >= maxDist || (IsForestPixel(img, r.pos) && r.dist * 2.0 >= maxDist)
    ensures r.steps == 0 || (r.steps as real - 1.0) * RayStep < maxDist
    ensures img.None? ==> r.dist == r.realDist
    decreases (maxDist - dist).Floor
  {
    var p := At(origin, d, n);
    var realDist := n as real * RayStep;
    if dist >= maxDist then RayEnd(p, n, dist, realDist)
    else if IsForestPixel(img, p) && dist * 2.0 >= maxDist then RayEnd(p, n, dist, realDist)
    else
      var step := if IsForestPixel(img, p) then RayStep * (1.0 + pow03(realDist / maxDist) * ForestDistancePenalty) else RayStep;
      assert step >= RayStep;
      assert (n as real + 1.0) * RayStep == realDist + RayStep;
      March(img, origin, d, maxDist, pow03, n + 1, dist + step)
  }

  /**
   * `castRay` from `origin` along `d` (the unit direction times the step):
   * a non-positive range returns the origin; otherwise the ray stops at the
   * first point whose weighted distance reaches the range, or at forest
   * past half the range, never more than one step past the range.
   */
  function CastRay(img: Option<ForestImage>, origin: Vec2, d: Vec2, maxDist: real, pow03: real -> real): (r: RayEnd)
    requires forall t :: 0.0 <= t ==> 0.0 <= pow03(t)
    ensures maxDist <= 0.0 ==> r.pos == origin && r.steps == 0
    ensures r.pos == At(origin, d, r.steps)
    ensures maxDist > 0.0 ==>
              (r.dist >= maxDist || (IsForestPixel(img, r.pos) && r.dist * 2.0 >= maxDist)) &&
              r.dist >= r.steps as real * RayStep &&
              (r.steps == 0 || (r.steps as real - 1.0) * RayStep < maxDist)
  {
    if maxDist <= 0.0 then RayEnd(origin, 0, 0.0, 0.0)
    else March(img, origin, d, maxDist, pow03, 0, 0.0)
  }

  /** Without a forest mask a ray always takes the first whole number of steps that covers the range. */
  lemma OpenGroundRay(origin: Vec2, d: Vec2, maxDist: real, pow03: real -> real)
    requires forall t :: 0.0 <= t ==> 0.0 <= pow03(t)
    requires maxDist > 0.0
    ensures var r := CastRay(None, origin, d, maxDist, pow03);
            r.steps as real * RayStep >= maxDist && (r.steps as real - 1.0) * RayStep < maxDist
  {
  }

  /** Forest where the ray starts does not stop it: the first step is always taken. */
  lemma RayLeavesOrigin(img: Option<ForestImage>, origin: Vec2, d: Vec2, maxDist: real, pow03: real -> real)
    requires forall t :: 0.0 <= t ==> 0.0 <= pow03(t)
    requires maxDist > 0.0
    ensures CastRay(img, origin, d, maxDist, pow03).steps >= 1
  {
  }

  /** The number of rays of a vision polygon. */
  const Rays: nat := 180

  /**
   * `buildVisionPolygon`: one ray per 2 degrees, in order; `dir(i)` is the
   * unit vector of ray `i`, at angle `i / 180` of a full turn.
   */
  function BuildVisionPolygon(img: Option<ForestImage>, origin: Vec2, maxRange: real,
                              dir: nat -> Vec2, pow03: real -> real): (r: seq<Vec2>)
    requires forall t :: 0.0 <= t ==> 0.0 <= pow03(t)
    ensures |r| == Rays
    ensures forall i :: 0 <= i < Rays ==> r[i] == CastRay(img, origin, Mul(dir(i), RayStep), maxRange, pow03).pos
  {
    seq(Rays, i requires 0 <= i < Rays => CastRay(img, origin, Mul(dir(i), RayStep), maxRange, pow03).pos)
  }

  /** Every vertex of a vision polygon lies on its own ray, at most one step past the range. */
  lemma PolygonOnRays(img: Option<ForestImage>, origin: Vec2, maxRange: real, dir: nat -> Vec2,
                      pow03: real -> real, i: nat)
    requires forall t :: 0.0 <= t ==> 0.0 <= pow03(t)
    requires i < Rays
    ensures exists n: nat :: BuildVisionPolygon(img, origin, maxRange, dir, pow03)[i] == At(origin, Mul(dir(i), RayStep), n) &&
                             (n == 0 || (n as real - 1.0) * RayStep < maxRange)
  {
    var e := CastRay(img, origin, Mul(dir(i), RayStep), maxRange, pow03);
    assert BuildVisionPolygon(img, origin, maxRange, dir, pow03)[i] == At(origin, Mul(dir(i), RayStep), e.steps);
  }

  // ----------------------------------------------------------- vision cache

  datatype CacheEntry = CacheEntry(pos: Vec2, polygon: seq<Vec2>)

  type VisionCache = map<string, CacheEntry>

  /** The cache key `${id}_${inForest}`. */
  function CacheKey(id: string, inForest: bool): (k: string)
    ensures |k| == |id| + (if inForest then 5 else 6)
    ensures k[..|id|] == id && k[|id|] == '_'
  {
    id + "_" + (if inForest then "true" else "false")
  }

  /** No unit id is ever the key of its own cache entries. */
  lemma KeyIsNotId(id: string, inForest: bool)
    ensures CacheKey(id, inForest) != id
  {
  }

  /** Distinct units or distinct forest states never share a key. */
  lemma CacheKeyInjective(a: string, ba: bool, b: string, bb: bool)
    requires CacheKey(a, ba) == CacheKey(b, bb)
    requires '_' !in a && '_' !in b
    ensures a == b && ba == bb
  {
    var k := CacheKey(a, ba);
    if |a| < |b| {
      assert false;
    } else if |b| < |a| {
      assert false;
    } else {
      assert a == k[..|a|] == b;
    }
  }

  /** The client settings the layer reads. */
  datatype VisionSettings = VisionSettings(onlySelected: bool, forestRaycast: bool)

  /** What a unit contributes to its team's vision layer. */
  datatype Drawn = NoVision | Circle(center: Vec2, radius: real) | Polygon(points: seq<Vec2>)

  /**
   * The cache decision: the polygon is rebuilt exactly when there is no
   * entry under the key or the entry was built at another position, and is
   * then stored; otherwise the stored polygon is reused and the cache kept.
   */
  function LookupOrBuild(cache: VisionCache, key: string, pos: Vec2, built: seq<Vec2>): (r: (VisionCache, seq<Vec2>))
    ensures var rebuild := key !in cache || cache[key].pos != pos;
            (rebuild ==> r == (cache[key := CacheEntry(pos, built)], built)) &&
            (!rebuild ==> r == (cache, cache[key].polygon))
  {
    if key !in cache || cache[key].pos != pos then (cache[key := CacheEntry(pos, built)], built)
    else (cache, cache[key].polygon)
  }

  /** After a build, looking again from the same position reuses it, whatever would be built. */
  lemma CacheHitAfterBuild(cache: VisionCache, key: string, pos: Vec2, built: seq<Vec2>, other: seq<Vec2>)
    ensures var a := LookupOrBuild(cache, key, pos, built);
            LookupOrBuild(a.0, key, pos, other) == a
  {
  }

  /** A unit without vision: dead, or a zero vision stat. */
  predicate Blind(u: Unit) {
    !Alive(u) || StatsOf(u.kind).visionRange == 0.0
  }

  /** The unit's vision radius in pixels. */
  function RangePx(u: Unit, metersPerPixel: real): real
    requires metersPerPixel > 0.0
  {
    Units.VisionRange(u) / metersPerPixel
  }

  /**
   * One unit of `drawUnitVision`, as written: a blind unit and the circle
   * mode evict `u.id`, a key the cache never holds; `built` is the polygon
   * `buildVisionPolygon` would return.
   */
  function VisionStepAsWritten(cache: VisionCache, u: Unit, st: VisionSettings, metersPerPixel: real,
                               built: seq<Vec2>): (r: (VisionCache, Drawn))
    requires metersPerPixel > 0.0
    ensures Blind(u) || (!(st.onlySelected && !u.selected) && !st.forestRaycast) ==> r.0 == cache - {u.id}
    ensures !Blind(u) && st.onlySelected && !u.selected ==> r == (cache, NoVision)
  {
    if Blind(u) then (cache - {u.id}, NoVision)
    else if st.onlySelected && !u.selected then (cache, NoVision)
    else if !st.forestRaycast then (cache - {u.id}, Drawn.Circle(u.pos, RangePx(u, metersPerPixel)))
    else
      var c := LookupOrBuild(cache, CacheKey(u.id, InForest in u.envState), u.pos, built);
      (c.0, Polygon(c.1))
  }

  /** As written, a unit that dies keeps both of its cached polygons. */
  lemma BlindKeepsEntriesAsWritten(cache: VisionCache, u: Unit, st: VisionSettings, metersPerPixel: real,
                                   built: seq<Vec2>, inForest: bool)
    requires metersPerPixel > 0.0 && Blind(u)
    requires CacheKey(u.id, inForest) in cache
    ensures var r := VisionStepAsWritten(cache, u, st, metersPerPixel, built).0;
            CacheKey(u.id, inForest) in r && r[CacheKey(u.id, inForest)] == cache[CacheKey(u.id, inForest)]
  {
    KeyIsNotId(u.id, inForest);
  }

  /** Both of a unit's cache keys. */
  function UnitKeys(id: string): set<string> {
    {CacheKey(id, true), CacheKey(id, false)}
  }

  /** One unit of `drawUnitVision` with the eviction aimed at the unit's own keys. */
  function VisionStep(cache: VisionCache, u: Unit, st: VisionSettings, metersPerPixel: real,
                      built: seq<Vec2>): (r: (VisionCache, Drawn))
    requires metersPerPixel > 0.0
    ensures Blind(u) ==> r.1 == NoVision && forall b :: CacheKey(u.id, b) !in r.0
    ensures !Blind(u) && st.onlySelected && !u.selected ==> r == (cache, NoVision)
    ensures !Blind(u) && !(st.onlySelected && !u.selected) && !st.forestRaycast ==>
              r.1 == Drawn.Circle(u.pos, RangePx(u, metersPerPixel)) && forall b :: CacheKey(u.id, b) !in r.0
    ensures forall k :: k !in UnitKeys(u.id) ==> (k in r.0 <==> k in cache) && (k in cache ==> r.0[k] == cache[k])
    ensures !Blind(u) && !(st.onlySelected && !u.selected) && st.forestRaycast ==>
              var key := CacheKey(u.id, InForest in u.envState);
              key in r.0 && r.0[key].pos == u.pos &&
              (key in cache && cache[key].pos == u.pos ==> r == (cache, Polygon(cache[key].polygon))) &&
              (key !in cache || cache[key].pos != u.pos ==> r.1 == Polygon(built) && r.0[key].polygon == built)
  {
    if Blind(u) then (cache - UnitKeys(u.id), NoVision)
    else if st.onlySelected && !u.selected then (cache, NoVision)
    else if !st.forestRaycast then (cache - UnitKeys(u.id), Drawn.Circle(u.pos, RangePx(u, metersPerPixel)))
    else
      var c := LookupOrBuild(cache, CacheKey(u.id, InForest in u.envState), u.pos, built);
      (c.0, Polygon(c.1))
  }

  /** The drawing order: unselected units first, so selected ones are painted on top. */
  function SelectedKey(u: Unit): real { if u.selected then 1.0 else 0.0 }

  /**
   * `drawUnitVision` over the registry's units in drawing order; `build(u)`
   * is the polygon `buildVisionPolygon` would return for `u`. Returns the
   * cache and, per drawn unit, what it drew.
   */
  function DrawVision(cache: VisionCache, units: seq<Unit>, st: VisionSettings, metersPerPixel: real,
                      build: Unit -> seq<Vec2>): (r: (VisionCache, seq<Drawn>))
    requires metersPerPixel > 0.0
    ensures |r.1| == |units|
    ensures forall k :: NotOwned(k, units) ==> (k in r.0 <==> k in cache) && (k in cache ==> r.0[k] == cache[k])
    decreases |units|
  {
    if |units| == 0 then (cache, [])
    else
      var s := VisionStep(cache, units[0], st, metersPerPixel, build(units[0]));
      var rest := DrawVision(s.0, units[1..], st, metersPerPixel, build);
      assert forall k :: NotOwned(k, units) ==> NotOwned(k, units[1..]) && k !in UnitKeys(units[0].id);
      (rest.0, [s.1] + rest.1)
  }

  /** `k` is neither cache key of any of the units. */
  predicate NotOwned(k: string, units: seq<Unit>) {
    forall i :: 0 <= i < |units| ==> k !in UnitKeys(units[i].id)
  }

  /** The order `drawUnitVision` visits the units in: a stable sort putting selected units last. */
  function DrawOrder(units: seq<Unit>): (r: seq<Unit>)
    ensures multiset(r) == multiset(units)
    ensures forall i, j :: 0 <= i < j < |r| && r[i].selected ==> r[j].selected
  {
    var r := SortBy(units, SelectedKey);
    assert forall i, j :: 0 <= i < j < |r| ==> SelectedKey(r[i]) <= SelectedKey(r[j]);
    r
  }
}
