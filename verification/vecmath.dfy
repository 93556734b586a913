/** The 2-D vector helpers of src/engine/math.ts, over exact reals. */
module VecMath {

  datatype Vec2 = Vec2(x: real, y: real)

  const Zero := Vec2(0.0, 0.0)

  function Max(a: real, b: real): real { if a >= b then a else b }
  function Min(a: real, b: real): real { if a <= b then a else b }
  function Abs(a: real): real { if a >= 0.0 then a else -a }

  /** `Math.max(min, Math.min(max, v))`: the lower bound wins when the bounds cross. */
  function Clamp(v: real, lo: real, hi: real): (r: real)
    ensures lo <= hi ==> lo <= r <= hi
    ensures lo <= v <= hi ==> r == v
    ensures lo > hi ==> r == lo
    ensures r == v || r == lo || r == hi
  {
    Max(lo, Min(hi, v))
  }

  /** `add`: undone by `sub`. */
  function Add(a: Vec2, b: Vec2): (r: Vec2)
    ensures Sub(r, b) == a
    ensures b == Zero ==> r == a
  {
    Vec2(a.x + b.x, a.y + b.y)
  }

  /** `sub`: the difference vanishes exactly for equal vectors. */
  function Sub(a: Vec2, b: Vec2): (r: Vec2)
    ensures r == Zero <==> a == b
  {
    Vec2(a.x - b.x, a.y - b.y)
  }

  /** `mul`: scaling by 1 is the identity and scaling by 0 gives the zero vector. */
  function Mul(a: Vec2, k: real): (r: Vec2)
    ensures k == 1.0 ==> r == a
    ensures k == 0.0 ==> r == Zero
  {
    Vec2(a.x * k, a.y * k)
  }

  /** `dot`: a vector with itself gives its squared length. */
  function Dot(a: Vec2, b: Vec2): (r: real)
    ensures a == b ==> r == LenSq(a) && r >= 0.0
  {
    a.x * b.x + a.y * b.y
  }

  /** Squared length: every `Math.hypot(..) <= r` test of the source is `LenSq(..) <= r*r`. */
  function LenSq(v: Vec2): (r: real)
    ensures r >= 0.0
    ensures v == Zero ==> r == 0.0
  {
    SquareNonNeg(v.x);
    SquareNonNeg(v.y);
    v.x * v.x + v.y * v.y
  }

  lemma SquareNonNeg(a: real)
    ensures a * a >= 0.0
    ensures a != 0.0 ==> a * a > 0.0
    ensures a == 0.0 ==> a * a == 0.0
  {
    if a > 0.0 {
      MulPos(a, a);
    } else if a < 0.0 {
      var b := -a;
      MulPos(b, b);
      assert a * a == b * b;
    } else {
      assert a * a == 0.0 * 0.0;
    }
  }

  /** Scaling by a fraction in `[0, 1]` stays between 0 and the value scaled. */
  lemma MulUnit(d: real, t: real)
    requires d >= 0.0 && 0.0 <= t <= 1.0
    ensures 0.0 <= d * t
    ensures d * t <= d
  {
  }

  lemma MulPos(a: real, b: real)
    requires a > 0.0 && b > 0.0
    ensures a * b > 0.0
  {}

  function DistSq(a: Vec2, b: Vec2): (r: real)
    ensures r >= 0.0
    ensures a == b ==> r == 0.0
  {
    LenSq(Sub(a, b))
  }

  /** `len` is a length of `v` as `Math.hypot` would compute it: zero only for the zero vector. */
  predicate IsLength(v: Vec2, len: real) {
    len >= 0.0 && len * len == LenSq(v) && (len == 0.0 <==> v == Zero)
  }

  /** What `normalize` relies on of the length: non-negative, and zero only for the zero vector. */
  predicate NormalizingLength(v: Vec2, len: real) {
    len >= 0.0 && (len == 0.0 <==> v == Zero)
  }

  /**
   * `normalize`: divide by the length, falling back to 1 when the length is 0.
   * Square roots are not computed here: the caller supplies the length.
   */
  function Normalize(v: Vec2, len: real): (r: Vec2)
    requires NormalizingLength(v, len)
    ensures v == Zero ==> r == Zero
    ensures len == 0.0 ==> r == v
  {
    if len == 0.0 then Vec2(v.x / 1.0, v.y / 1.0)
    else
      Vec2(v.x / len, v.y / len)
  }

  /** Scaling a normalized non-zero vector back by its length recovers it. */
  lemma NormalizeScalesBack(v: Vec2, len: real)
    requires NormalizingLength(v, len) && v != Zero
    ensures Mul(Normalize(v, len), len) == v
  {
    var r := Normalize(v, len);
    assert r.x * len == v.x;
    assert r.y * len == v.y;
  }

  lemma DotSymmetric(a: Vec2, b: Vec2)
    ensures Dot(a, b) == Dot(b, a)
  {}

  /** Squared distance is symmetric: the collision and range tests do not depend on who asks. */
  lemma DistSqSymmetric(a: Vec2, b: Vec2)
    ensures DistSq(a, b) == DistSq(b, a)
  {}
}
