/**
 * The height sampler (src/engine/assets/heightmap.ts): a pixel's colour is
 * matched against the 40-colour height legend, and a position between
 * pixels is interpolated bilinearly from its four neighbours. Heights are
 * in metres.
 *
 * `colorDistance` is a square root of a sum of squares, and a square root
 * is monotone, so comparing squared distances (and the tolerance squared)
 * makes the same choices with integers only.
 */
module HeightMap {
  import opened Wrappers
  import opened VecMath

  datatype HeightColor = HeightColor(r: int, g: int, b: int, h: real)

  /**
   * `HEIGHT_LEGEND`, from the highest ground (light red) to the lowest
   * (light blue), written as four runs of ten entries so that each run's shape can
   * be checked on its own. The runs are a proof device; they do not follow
   * the source's colour groups.
   */
  const Legend: seq<HeightColor> := LegendRun0 + LegendRun1 + LegendRun2 + LegendRun3

  /** Entries 0 to 9: 232 m down to 205 m. */
  const LegendRun0: seq<HeightColor> := [
    HeightColor(255, 160, 160, 232.0),
    HeightColor(255, 140, 140, 230.0),
    HeightColor(255, 115, 115, 227.0),
    HeightColor(255, 93, 93, 224.0),
    HeightColor(255, 65, 65, 220.0),
    HeightColor(255, 37, 37, 217.0),
    HeightColor(255, 20, 10, 214.0),
    HeightColor(255, 11, 0, 211.0),
    HeightColor(255, 40, 0, 208.0),
    HeightColor(255, 62, 0, 205.0)
  ]

  /** Entries 10 to 19: 202 m down to 177 m. */
  const LegendRun1: seq<HeightColor> := [
    HeightColor(255, 88, 0, 202.0),
    HeightColor(255, 113, 0, 199.0),
    HeightColor(255, 140, 0, 196.0),
    HeightColor(255, 166, 0, 193.0),
    HeightColor(255, 190, 0, 190.0),
    HeightColor(255, 212, 0, 188.0),
    HeightColor(250, 235, 0, 185.0),
    HeightColor(243, 255, 0, 182.0),
    HeightColor(220, 255, 0, 179.0),
    HeightColor(194, 255, 0, 177.0)
  ]

  /** Entries 20 to 29: 174 m down to 152 m. */
  const LegendRun2: seq<HeightColor> := [
    HeightColor(170, 255, 0, 174.0),
    HeightColor(144, 255, 0, 172.0),
    HeightColor(118, 255, 0, 169.0),
    HeightColor(92, 255, 0, 167.0),
    HeightColor(64, 255, 0, 164.0),
    HeightColor(36, 255, 0, 162.0),
    HeightColor(18, 255, 0, 160.0),
    HeightColor(0, 255, 9, 158.0),
    HeightColor(0, 255, 34, 156.0),
    HeightColor(0, 255, 58, 154.0)
  ]

  /** Entries 30 to 39: 150 m down to 139 m. */
  const LegendRun3: seq<HeightColor> := [
    HeightColor(0, 255, 85, 152.0),
    HeightColor(0, 255, 111, 150.0),
    HeightColor(0, 255, 140, 148.0),
    HeightColor(0, 255, 169, 146.0),
    HeightColor(0, 255, 195, 144.0),
    HeightColor(0, 255, 220, 143.0),
    HeightColor(0, 240, 255, 142.0),
    HeightColor(0, 252, 255, 141.0),
    HeightColor(0, 220, 255, 140.0),
    HeightColor(0, 192, 255, 139.0)
  ]

  const LowestHeight: real := 139.0
  const HighestHeight: real := 232.0

  /** Each height is below the one before it. */
  predicate Falling(s: seq<HeightColor>) {
    forall i :: 0 < i < |s| ==> s[i].h < s[i - 1].h
  }

  /** Every height lies in `[lo, hi]`. */
  predicate Within(s: seq<HeightColor>, lo: real, hi: real) {
    forall i :: 0 <= i < |s| ==> lo <= s[i].h <= hi
  }

  /** Two falling runs, the second starting below where the first ends, make one falling run. */
  lemma JoinFalling(s: seq<HeightColor>, t: seq<HeightColor>, lo: real, hi: real)
    requires Falling(s) && Falling(t) && Within(s, lo, hi) && Within(t, lo, hi)
    requires |s| > 0 && |t| > 0 && t[0].h < s[|s| - 1].h
    ensures Falling(s + t) && Within(s + t, lo, hi)
  {
    var u := s + t;
    forall i | 0 < i < |u| ensures u[i].h < u[i - 1].h {
      if i > |s| {
        assert u[i] == t[i - |s|] && u[i - 1] == t[i - 1 - |s|];
      }
    }
  }

  lemma Run0Shape()
    ensures |LegendRun0| == 10 && Falling(LegendRun0) && Within(LegendRun0, LowestHeight, HighestHeight)
  {
  }

  lemma Run1Shape()
    ensures |LegendRun1| == 10 && Falling(LegendRun1) && Within(LegendRun1, LowestHeight, HighestHeight)
  {
  }

  lemma Run2Shape()
    ensures |LegendRun2| == 10 && Falling(LegendRun2) && Within(LegendRun2, LowestHeight, HighestHeight)
  {
  }

  lemma Run3Shape()
    ensures |LegendRun3| == 10 && Falling(LegendRun3) && Within(LegendRun3, LowestHeight, HighestHeight)
  {
  }

  /** The legend lists 40 colours with strictly decreasing heights between 139 and 232. */
  lemma LegendShape()
    ensures |Legend| == 40
    ensures forall i :: 0 <= i < |Legend| ==> LowestHeight <= Legend[i].h <= HighestHeight
    ensures forall i :: 0 < i < |Legend| ==> Legend[i].h < Legend[i - 1].h
  {
    Run0Shape();
    Run1Shape();
    Run2Shape();
    Run3Shape();
    var ry := LegendRun0 + LegendRun1;
    JoinFalling(LegendRun0, LegendRun1, LowestHeight, HighestHeight);
    var ryg := ry + LegendRun2;
    assert ry[|ry| - 1] == LegendRun1[9];
    JoinFalling(ry, LegendRun2, LowestHeight, HighestHeight);
    assert ryg[|ryg| - 1] == LegendRun2[9];
    JoinFalling(ryg, LegendRun3, LowestHeight, HighestHeight);
    assert Legend == ryg + LegendRun3;
  }

  /** A legend's heights read backwards. */
  function Backwards(legend: seq<HeightColor>): (r: seq<real>)
    ensures |r| == |legend|
    ensures forall i :: 0 <= i < |r| ==> r[i] == legend[|legend| - 1 - i].h
    ensures (forall i :: 0 < i < |legend| ==> legend[i].h < legend[i - 1].h) ==>
              forall i :: 0 < i < |r| ==> r[i - 1] < r[i]
  {
    seq(|legend|, i requires 0 <= i < |legend| => legend[|legend| - 1 - i].h)
  }

  /** The legend's heights in ascending order: the legend read backwards, since it is strictly decreasing. */
  function Ascending(): (r: seq<real>)
    ensures |r| == 40
    ensures forall i :: 0 <= i < |r| ==> r[i] == Legend[|Legend| - 1 - i].h
    ensures forall i :: 0 < i < |r| ==> r[i - 1] < r[i]
  {
    LegendShape();
    Backwards(Legend)
  }

  /** A sequence that rises at every step is strictly increasing. */
  lemma {:induction false} RisingIsIncreasing(r: seq<real>, i: nat, j: nat)
    requires forall k :: 0 < k < |r| ==> r[k - 1] < r[k]
    requires i < j < |r|
    ensures r[i] < r[j]
    decreases j - i
  {
    if j > i + 1 {
      RisingIsIncreasing(r, i, j - 1);
    }
  }

  /** The median of a non-empty ascending sequence: the middle element, or the mean of the middle two. */
  function Median(arr: seq<real>): real
    requires |arr| > 0
  {
    var m := |arr| / 2;
    if |arr| % 2 == 1 then arr[m] else (arr[m - 1] + arr[m]) / 2.0
  }

  /** `FALLBACK_HEIGHT`, used wherever no height can be read. */
  const FallbackHeight: real := 175.5

  /**
   * The fallback is the median of the sorted legend heights: the mean of
   * the 20th and 21st, with exactly half the legend below it and half above.
   */
  lemma FallbackIsMedian()
    ensures FallbackHeight == Median(Ascending())
    ensures forall i :: 0 <= i < 20 ==> Ascending()[i] < FallbackHeight
    ensures forall i :: 20 <= i < 40 ==> Ascending()[i] > FallbackHeight
  {
    var a := Ascending();
    assert a[19] == Legend[20].h == 174.0;
    assert a[20] == Legend[19].h == 177.0;
    SplitAtMiddle(a, 174.0, 177.0);
  }

  /** A rising sequence of 40 whose 20th and 21st elements are `lo` and `hi` has its median between them. */
  lemma SplitAtMiddle(a: seq<real>, lo: real, hi: real)
    requires |a| == 40 && forall i :: 0 < i < |a| ==> a[i - 1] < a[i]
    requires a[19] == lo && a[20] == hi
    ensures Median(a) == (lo + hi) / 2.0
    ensures forall i :: 0 <= i < 20 ==> a[i] < (lo + hi) / 2.0
    ensures forall i :: 20 <= i < 40 ==> a[i] > (lo + hi) / 2.0
  {
    forall i | 0 <= i < 20 ensures a[i] < (lo + hi) / 2.0 {
      if i < 19 { RisingIsIncreasing(a, i, 19); }
    }
    forall i | 20 <= i < 40 ensures a[i] > (lo + hi) / 2.0 {
      if i > 20 { RisingIsIncreasing(a, 20, i); }
    }
  }

  /** The tolerance of `getHeightByColor`, squared. */
  const ToleranceSq: int := 35 * 35

  function DistSq(c: HeightColor, r: int, g: int, b: int): int {
    (r - c.r) * (r - c.r) + (g - c.g) * (g - c.g) + (b - c.b) * (b - c.b)
  }

  /**
   * The index the scan of `getHeightByColor` settles on among the first `k`
   * colours of a legend: the nearest, the first of equally near ones, since
   * only a strictly smaller distance replaces the best so far.
   */
  function FirstNearest(legend: seq<HeightColor>, r: int, g: int, b: int, k: nat): (i: nat)
    requires 0 < k <= |legend|
    ensures i < k
    ensures forall j :: 0 <= j < k ==> DistSq(legend[j], r, g, b) >= DistSq(legend[i], r, g, b)
    ensures forall j :: 0 <= j < i ==> DistSq(legend[j], r, g, b) > DistSq(legend[i], r, g, b)
  {
    if k == 1 then 0
    else
      var best := FirstNearest(legend, r, g, b, k - 1);
      if DistSq(legend[k - 1], r, g, b) < DistSq(legend[best], r, g, b) then k - 1 else best
  }

  /**
   * `getHeightByColor` against a legend: the height of the nearest colour,
   * the first of equally near ones, when it is within the tolerance;
   * otherwise none (also for an empty legend).
   */
  function HeightByColor(legend: seq<HeightColor>, r: int, g: int, b: int): (h: Option<real>)
    ensures h.Some? <==> exists j :: 0 <= j < |legend| && DistSq(legend[j], r, g, b) <= ToleranceSq
    ensures h.Some? ==> exists i :: 0 <= i < |legend| && h.value == legend[i].h &&
                          DistSq(legend[i], r, g, b) <= ToleranceSq &&
                          (forall j :: 0 <= j < |legend| ==> DistSq(legend[j], r, g, b) >= DistSq(legend[i], r, g, b)) &&
                          (forall j :: 0 <= j < i ==> DistSq(legend[j], r, g, b) > DistSq(legend[i], r, g, b))
  {
    if |legend| == 0 then None
    else
      var i := FirstNearest(legend, r, g, b, |legend|);
      if DistSq(legend[i], r, g, b) <= ToleranceSq then Some(legend[i].h) else None
  }

  /** In a legend of distinct colours, an exact legend colour reads as its own height. */
  lemma ExactColourHeight(legend: seq<HeightColor>, i: nat)
    requires i < |legend|
    requires forall p, q :: 0 <= p < q < |legend| ==>
               legend[p].r != legend[q].r || legend[p].g != legend[q].g || legend[p].b != legend[q].b
    ensures HeightByColor(legend, legend[i].r, legend[i].g, legend[i].b) == Some(legend[i].h)
  {
    var c := legend[i];
    var k := FirstNearest(legend, c.r, c.g, c.b, |legend|);
    var d := legend[k];
    SelfDistance(c);
    assert DistSq(d, c.r, c.g, c.b) <= DistSq(c, c.r, c.g, c.b);
    NonNegDistance(d, c.r, c.g, c.b);
    SumOfSquaresZero(c.r - d.r, c.g - d.g, c.b - d.b);
    assert d.r == c.r && d.g == c.g && d.b == c.b;
  }

  lemma SelfDistance(c: HeightColor)
    ensures DistSq(c, c.r, c.g, c.b) == 0
  {
  }

  lemma NonNegDistance(c: HeightColor, r: int, g: int, b: int)
    ensures DistSq(c, r, g, b) >= 0
  {
    assert (r - c.r) * (r - c.r) >= 0 && (g - c.g) * (g - c.g) >= 0 && (b - c.b) * (b - c.b) >= 0;
  }

  lemma SumOfSquaresZero(x: int, y: int, z: int)
    requires x * x + y * y + z * z == 0
    ensures x == 0 && y == 0 && z == 0
  {
    assert x * x >= 0 && y * y >= 0 && z * z >= 0;
  }

  /** The RGBA bytes of the height image, row by row. */
  datatype HeightImage = HeightImage(data: seq<int>, width: nat, height: nat)

  /** A typed-array read: past the end it is `undefined`. */
  function ByteAt(data: seq<int>, i: int): Option<int> {
    if 0 <= i < |data| then Some(data[i]) else None
  }

  /** The pixel is nearly transparent: an alpha below 10 (an `undefined` alpha is not). */
  predicate Transparent(img: HeightImage, x: int, y: int) {
    var a := ByteAt(img.data, (y * img.width + x) * 4 + 3);
    a.Some? && a.value < 10
  }

  /**
   * `readPixelHeight`: the fallback off the image, for a nearly transparent
   * pixel, and for a colour matching no legend entry (an `undefined` colour
   * channel matches nothing); otherwise the matched legend height.
   */
  function ReadPixelHeight(legend: seq<HeightColor>, img: HeightImage, x: int, y: int): (h: real)
    ensures x < 0 || y < 0 || x >= img.width || y >= img.height ==> h == FallbackHeight
    ensures 0 <= x < img.width && 0 <= y < img.height && Transparent(img, x, y) ==> h == FallbackHeight
    ensures h == FallbackHeight || exists i :: 0 <= i < |legend| && h == legend[i].h
  {
    if x < 0 || y < 0 || x >= img.width || y >= img.height then FallbackHeight
    else if Transparent(img, x, y) then FallbackHeight
    else
      var i := (y * img.width + x) * 4;
      match (ByteAt(img.data, i), ByteAt(img.data, i + 1), ByteAt(img.data, i + 2))
      case (Some(r), Some(g), Some(b)) => HeightByColor(legend, r, g, b).GetOr(FallbackHeight)
      case _ => FallbackHeight
  }

  function Lerp(a: real, b: real, t: real): real {
    a * (1.0 - t) + b * t
  }

  /** Interpolation stays between its ends. */
  lemma LerpBetween(a: real, b: real, t: real)
    requires 0.0 <= t <= 1.0
    ensures Min(a, b) <= Lerp(a, b, t) <= Max(a, b)
  {
    if a <= b {
      LerpRising(a, b, t);
    } else {
      LerpRising(b, a, 1.0 - t);
      LerpSwap(a, b, t);
    }
  }

  /** From the lower end to the higher one, interpolation stays between them. */
  lemma LerpRising(a: real, b: real, t: real)
    requires a <= b && 0.0 <= t <= 1.0
    ensures a <= Lerp(a, b, t) <= b
  {
    Split(a, t);
    Split(b, t);
    MulMono(a, b, t);
    MulMono(a, b, 1.0 - t);
  }

  /** Interpolating backwards from the other end gives the same value. */
  lemma LerpSwap(a: real, b: real, t: real)
    ensures Lerp(a, b, t) == Lerp(b, a, 1.0 - t)
  {
  }

  /** A value is the sum of its two interpolation weights' shares. */
  lemma Split(a: real, t: real)
    ensures a * (1.0 - t) + a * t == a
  {
  }

  /** Multiplying by a non-negative factor keeps order. */
  lemma MulMono(a: real, b: real, t: real)
    requires a <= b && t >= 0.0
    ensures a * t <= b * t
  {
  }

  function Min4(a: real, b: real, c: real, d: real): real { Min(Min(a, b), Min(c, d)) }
  function Max4(a: real, b: real, c: real, d: real): real { Max(Max(a, b), Max(c, d)) }

  /** The position is outside the area `getHeightAt` interpolates over. */
  predicate OffGrid(img: HeightImage, pos: Vec2) {
    pos.x < 0.0 || pos.y < 0.0 || pos.x >= img.width as real - 1.0 || pos.y >= img.height as real - 1.0
  }

  /**
   * `getHeightAt`: the fallback outside `[0, width - 1) x [0, height - 1)`;
   * inside, the bilinear blend of the four surrounding pixels, which lies
   * between the lowest and the highest of them and equals the pixel itself
   * at whole coordinates.
   */
  function GetHeightAt(legend: seq<HeightColor>, img: HeightImage, pos: Vec2): (h: real)
    ensures OffGrid(img, pos) ==> h == FallbackHeight
    ensures !OffGrid(img, pos) ==>
              var q := Corners(legend, img, pos);
              Min4(q.h00, q.h10, q.h01, q.h11) <= h <= Max4(q.h00, q.h10, q.h01, q.h11)
    ensures !OffGrid(img, pos) && pos.x == pos.x.Floor as real && pos.y == pos.y.Floor as real ==>
              h == ReadPixelHeight(legend, img, pos.x.Floor, pos.y.Floor)
  {
    if OffGrid(img, pos) then FallbackHeight
    else Blend(Corners(legend, img, pos), pos)
  }

  /** The heights of the four pixels around a position: below-left, below-right, above-left, above-right. */
  datatype Quad = Quad(h00: real, h10: real, h01: real, h11: real)

  function Corners(legend: seq<HeightColor>, img: HeightImage, pos: Vec2): Quad {
    var x0 := pos.x.Floor;
    var y0 := pos.y.Floor;
    Quad(ReadPixelHeight(legend, img, x0, y0), ReadPixelHeight(legend, img, x0 + 1, y0),
         ReadPixelHeight(legend, img, x0, y0 + 1), ReadPixelHeight(legend, img, x0 + 1, y0 + 1))
  }

  /**
   * The blend at a position, weighted by its offsets from the pixel corner
   * below-left of it: between the lowest and the highest corner, and the
   * corner itself at whole coordinates.
   */
  function Blend(q: Quad, pos: Vec2): (b: real)
    ensures Min4(q.h00, q.h10, q.h01, q.h11) <= b <= Max4(q.h00, q.h10, q.h01, q.h11)
    ensures pos.x == pos.x.Floor as real && pos.y == pos.y.Floor as real ==> b == q.h00
  {
    BlendAt(q.h00, q.h10, q.h01, q.h11, pos);
    Bilinear(q.h00, q.h10, q.h01, q.h11, pos.x - pos.x.Floor as real, pos.y - pos.y.Floor as real)
  }

  /** The blend at a position, weighted by its offsets from the pixel corner below-left of it. */
  lemma BlendAt(h00: real, h10: real, h01: real, h11: real, pos: Vec2)
    ensures var b := Bilinear(h00, h10, h01, h11, pos.x - pos.x.Floor as real, pos.y - pos.y.Floor as real);
            Min4(h00, h10, h01, h11) <= b <= Max4(h00, h10, h01, h11) &&
            (pos.x == pos.x.Floor as real && pos.y == pos.y.Floor as real ==> b == h00)
  {
    var fx := pos.x - pos.x.Floor as real;
    var fy := pos.y - pos.y.Floor as real;
    assert 0.0 <= fx < 1.0 && 0.0 <= fy < 1.0;
    BilinearBetween(h00, h10, h01, h11, fx, fy);
  }

  /** The blend of `getHeightAt`: along x on both rows, then along y. */
  function Bilinear(h00: real, h10: real, h01: real, h11: real, fx: real, fy: real): real {
    Lerp(Lerp(h00, h10, fx), Lerp(h01, h11, fx), fy)
  }

  /** The bilinear blend of four values with weights in `[0, 1]` lies between their minimum and maximum. */
  lemma BilinearBetween(h00: real, h10: real, h01: real, h11: real, fx: real, fy: real)
    requires 0.0 <= fx <= 1.0 && 0.0 <= fy <= 1.0
    ensures Min4(h00, h10, h01, h11) <= Bilinear(h00, h10, h01, h11, fx, fy) <= Max4(h00, h10, h01, h11)
    ensures fx == 0.0 && fy == 0.0 ==> Bilinear(h00, h10, h01, h11, fx, fy) == h00
  {
    LerpBetween(h00, h10, fx);
    LerpBetween(h01, h11, fx);
    LerpBetween(Lerp(h00, h10, fx), Lerp(h01, h11, fx), fy);
  }

  /** With every legend height and the fallback within bounds, every pixel height is. */
  lemma PixelWithin(legend: seq<HeightColor>, lo: real, hi: real, img: HeightImage, x: int, y: int)
    requires forall i :: 0 <= i < |legend| ==> lo <= legend[i].h <= hi
    requires lo <= FallbackHeight <= hi
    ensures lo <= ReadPixelHeight(legend, img, x, y) <= hi
  {
  }

  /** With every legend height and the fallback within bounds, every sampled height is. */
  lemma SampleWithin(legend: seq<HeightColor>, lo: real, hi: real, img: HeightImage, pos: Vec2)
    requires forall i :: 0 <= i < |legend| ==> lo <= legend[i].h <= hi
    requires lo <= FallbackHeight <= hi
    ensures lo <= GetHeightAt(legend, img, pos) <= hi
  {
    if !OffGrid(img, pos) {
      var x0 := pos.x.Floor;
      var y0 := pos.y.Floor;
      PixelWithin(legend, lo, hi, img, x0, y0);
      PixelWithin(legend, lo, hi, img, x0 + 1, y0);
      PixelWithin(legend, lo, hi, img, x0, y0 + 1);
      PixelWithin(legend, lo, hi, img, x0 + 1, y0 + 1);
    }
  }

  /** Every height the sampler returns lies between 139 and 232 metres. */
  lemma SampledHeightInRange(img: HeightImage, pos: Vec2)
    ensures LowestHeight <= GetHeightAt(Legend, img, pos) <= HighestHeight
  {
    LegendShape();
    SampleWithin(Legend, LowestHeight, HighestHeight, img, pos);
  }
}
