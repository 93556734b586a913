/**
 * The piecewise-linear lookup shared by the distance-modifier table
 * (src/engine/units/enums/UnitDistanceModifier.ts) and the height-angle table
 * (src/engine/units/modifiers/UnitHeightModifier.ts): clamp to the first and
 * last rows outside the table, interpolate linearly between the first pair of
 * rows that brackets the argument, and fall back to 1 if no pair does.
 */
module Piecewise {
  import opened Wrappers

  datatype Row = Row(key: real, value: real)

  /** Keys strictly increase from row to row (both shipped tables do). */
  predicate Ascending(t: seq<Row>) {
    forall i :: 0 <= i < |t| - 1 ==> t[i].key < t[i + 1].key
  }

  /** Values never increase from row to row. */
  predicate NonIncreasing(t: seq<Row>) {
    forall i :: 0 <= i < |t| - 1 ==> t[i].value >= t[i + 1].value
  }

  /** A decision procedure for `Ascending(t) && NonIncreasing(t)` from index `i` on. */
  function FallsFrom(t: seq<Row>, i: nat): bool
    decreases |t| - i
  {
    i + 1 >= |t| || (t[i].key < t[i + 1].key && t[i].value >= t[i + 1].value && FallsFrom(t, i + 1))
  }

  lemma {:induction false} FallsFromSound(t: seq<Row>, i: nat)
    requires FallsFrom(t, i)
    ensures forall j :: i <= j < |t| - 1 ==> t[j].key < t[j + 1].key && t[j].value >= t[j + 1].value
    decreases |t| - i
  {
    if i + 1 < |t| {
      FallsFromSound(t, i + 1);
    }
  }

  lemma FallsSound(t: seq<Row>)
    requires FallsFrom(t, 0)
    ensures Ascending(t) && NonIncreasing(t)
  {
    FallsFromSound(t, 0);
  }

  function Last(t: seq<Row>): Row
    requires |t| > 0
  {
    t[|t| - 1]
  }

  /** `a.modifier + (b.modifier - a.modifier) * t` with `t` the fraction of the way from a to b. */
  function Interp(a: Row, b: Row, x: real): real
    requires a.key < b.key
  {
    a.value + (b.value - a.value) * ((x - a.key) / (b.key - a.key))
  }

  /** The loop `for i in 0 .. n-2: if a.key <= x <= b.key return ...`, from index `i` on. */
  function FindBracket(t: seq<Row>, x: real, i: nat): (r: Option<nat>)
    requires i <= |t|
    ensures r.Some? ==> i <= r.value && r.value + 1 < |t|
    ensures r.Some? ==> t[r.value].key <= x <= t[r.value + 1].key
    ensures r.Some? ==> forall j :: i <= j < r.value ==> !(t[j].key <= x <= t[j + 1].key)
    ensures r.None? ==> forall j :: i <= j < |t| - 1 ==> !(t[j].key <= x <= t[j + 1].key)
    decreases |t| - i
  {
    if i + 1 >= |t| then None
    else if t[i].key <= x <= t[i + 1].key then Some(i)
    else FindBracket(t, x, i + 1)
  }

  /** `getUnitDistanceModifier` / `getDamageModifier` over any ascending table. */
  function Lookup(t: seq<Row>, x: real): (r: real)
    requires |t| > 0 && Ascending(t)
    ensures x <= t[0].key ==> r == t[0].value
    ensures t[0].key < x && Last(t).key <= x ==> r == Last(t).value
  {
    if x <= t[0].key then t[0].value
    else if x >= Last(t).key then Last(t).value
    else match FindBracket(t, x, 0)
      case Some(i) => Interp(t[i], t[i + 1], x)
      case None => 1.0
  }

  // ---------------------------------------------------------------------------
  // Facts about one segment

  lemma FractionInUnit(a: Row, b: Row, x: real)
    requires a.key < b.key && a.key <= x <= b.key
    ensures 0.0 <= (x - a.key) / (b.key - a.key) <= 1.0
  {
    var d := b.key - a.key;
    var f := (x - a.key) / d;
    assert f * d == x - a.key;
    if f < 0.0 { assert false; }
    if f > 1.0 { assert (f - 1.0) * d > 0.0; }
  }

  lemma MulNonNegative(a: real, b: real)
    requires a >= 0.0 && b >= 0.0
    ensures a * b >= 0.0
  {}

  lemma ScaledBetween(d: real, f: real)
    requires 0.0 <= f <= 1.0
    ensures d >= 0.0 ==> 0.0 <= d * f <= d
    ensures d <= 0.0 ==> d <= d * f <= 0.0
  {
    if d >= 0.0 {
      MulNonNegative(d, f);
      MulNonNegative(d, 1.0 - f);
      assert d * (1.0 - f) == d - d * f;
    } else {
      MulNonNegative(-d, f);
      MulNonNegative(-d, 1.0 - f);
      assert (-d) * (1.0 - f) == d * f - d;
      assert (-d) * f == -(d * f);
    }
  }

  /** Inside a segment the result lies between the two rows' values. */
  lemma InterpBetween(a: Row, b: Row, x: real)
    requires a.key < b.key && a.key <= x <= b.key
    ensures b.value <= a.value ==> b.value <= Interp(a, b, x) <= a.value
    ensures a.value <= b.value ==> a.value <= Interp(a, b, x) <= b.value
  {
    FractionInUnit(a, b, x);
    ScaledBetween(b.value - a.value, (x - a.key) / (b.key - a.key));
  }

  /** At either end of a segment the interpolation is exact. */
  lemma InterpEnds(a: Row, b: Row)
    requires a.key < b.key
    ensures Interp(a, b, a.key) == a.value
    ensures Interp(a, b, b.key) == b.value
  {
    var d := b.key - a.key;
    assert (b.key - a.key) / d == 1.0;
  }

  /** On a segment whose value falls, a larger argument never gives a larger result. */
  lemma InterpMonotone(a: Row, b: Row, x: real, y: real)
    requires a.key < b.key && b.value <= a.value && x <= y
    ensures Interp(a, b, x) >= Interp(a, b, y)
  {
    var d := b.key - a.key;
    var fx, fy := (x - a.key) / d, (y - a.key) / d;
    assert fx * d == x - a.key && fy * d == y - a.key;
    assert (fy - fx) * d == y - x;
    if fy < fx { assert false; }
    assert (b.value - a.value) * (fy - fx) <= 0.0;
    assert (b.value - a.value) * fy - (b.value - a.value) * fx == (b.value - a.value) * (fy - fx);
  }

  // ---------------------------------------------------------------------------
  // Facts about whole tables

  lemma {:induction false} AscendingKeys(t: seq<Row>, i: nat, j: nat)
    requires Ascending(t) && i <= j < |t|
    ensures t[i].key <= t[j].key
    ensures i < j ==> t[i].key < t[j].key
    decreases j - i
  {
    if i < j {
      AscendingKeys(t, i + 1, j);
    }
  }

  lemma {:induction false} NonIncreasingValues(t: seq<Row>, i: nat, j: nat)
    requires NonIncreasing(t) && i <= j < |t|
    ensures t[i].value >= t[j].value
    decreases j - i
  {
    if i < j {
      NonIncreasingValues(t, i + 1, j);
    }
  }

  /** The fallback `return 1` is dead code for ascending tables. */
  lemma {:induction false} BracketExists(t: seq<Row>, x: real, i: nat)
    requires |t| > 0 && Ascending(t) && i < |t| && t[i].key <= x < Last(t).key
    ensures FindBracket(t, x, i).Some?
    decreases |t| - i
  {
    if i + 1 >= |t| {
      assert false;
    } else if !(x <= t[i + 1].key) {
      BracketExists(t, x, i + 1);
    }
  }

  lemma FallbackUnreachable(t: seq<Row>, x: real)
    requires |t| > 0 && Ascending(t) && t[0].key < x < Last(t).key
    ensures FindBracket(t, x, 0).Some?
  {
    BracketExists(t, x, 0);
  }

  /** Strictly inside the table, every bracketing pair gives the same result. */
  lemma LookupInBracket(t: seq<Row>, x: real, i: nat)
    requires |t| > 0 && Ascending(t) && i + 1 < |t|
    requires t[i].key <= x <= t[i + 1].key
    ensures Lookup(t, x) == Interp(t[i], t[i + 1], x)
  {
    AscendingKeys(t, 0, i);
    AscendingKeys(t, i + 1, |t| - 1);
    if x == t[0].key {
      assert i == 0;
      InterpEnds(t[0], t[1]);
    } else if x >= Last(t).key {
      assert i + 1 == |t| - 1;
      InterpEnds(t[i], t[i + 1]);
    } else {
      var k := FindBracket(t, x, 0);
      FallbackUnreachable(t, x);
      var j := k.value;
      if j < i {
        // x sits on the right end of bracket j and the left end of bracket i
        AscendingKeys(t, j + 1, i);
        assert x == t[i].key && j + 1 == i;
        InterpEnds(t[j], t[j + 1]);
        InterpEnds(t[i], t[i + 1]);
      } else {
        assert j == i;
      }
    }
  }

  /** At every breakpoint the table returns that row's value: the lookup is continuous. */
  lemma LookupAtBreakpoint(t: seq<Row>, i: nat)
    requires |t| > 0 && Ascending(t) && i < |t|
    ensures Lookup(t, t[i].key) == t[i].value
  {
    AscendingKeys(t, 0, i);
    if i + 1 < |t| {
      LookupInBracket(t, t[i].key, i);
      InterpEnds(t[i], t[i + 1]);
    } else if i > 0 {
      AscendingKeys(t, 0, i);
    }
  }

  /** Every result lies between the last and the first value of a falling table. */
  lemma LookupBounds(t: seq<Row>, x: real)
    requires |t| > 0 && Ascending(t) && NonIncreasing(t)
    ensures Last(t).value <= Lookup(t, x) <= t[0].value
  {
    NonIncreasingValues(t, 0, |t| - 1);
    if t[0].key < x < Last(t).key {
      FallbackUnreachable(t, x);
      var i := FindBracket(t, x, 0).value;
      InterpBetween(t[i], t[i + 1], x);
      NonIncreasingValues(t, 0, i);
      NonIncreasingValues(t, i + 1, |t| - 1);
    }
  }

  /** For a falling table the lookup is non-increasing in its argument. */
  lemma LookupMonotone(t: seq<Row>, x: real, y: real)
    requires |t| > 0 && Ascending(t) && NonIncreasing(t) && x <= y
    ensures Lookup(t, x) >= Lookup(t, y)
  {
    LookupBounds(t, x);
    LookupBounds(t, y);
    if x <= t[0].key || y >= Last(t).key || x == y {
    } else {
      assert t[0].key < x < Last(t).key;
      FallbackUnreachable(t, x);
      FallbackUnreachable(t, y);
      var i := FindBracket(t, x, 0).value;
      var j := FindBracket(t, y, 0).value;
      if i == j {
        InterpMonotone(t[i], t[i + 1], x, y);
      } else if i < j {
        InterpBetween(t[i], t[i + 1], x);
        InterpBetween(t[j], t[j + 1], y);
        NonIncreasingValues(t, i + 1, j);
      } else {
        AscendingKeys(t, j + 1, i);
      }
    }
  }
}
