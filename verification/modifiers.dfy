/**
 * Range fall-off of damage (src/engine/units/enums/UnitDistanceModifier.ts)
 * and the height-angle penalty (src/engine/units/modifiers/UnitHeightModifier.ts),
 * both instances of the piecewise-linear table in module Piecewise.
 */
module DistanceModifier {
  import opened Piecewise

  /** Direct-fire units: metres to damage multiplier. */
  const DistanceModifiers: seq<Row> := [
    Row(50.0, 1.6), Row(100.0, 1.5), Row(200.0, 1.0), Row(300.0, 0.75),
    Row(400.0, 0.55), Row(500.0, 0.45), Row(600.0, 0.35), Row(700.0, 0.27),
    Row(800.0, 0.20), Row(900.0, 0.14), Row(1000.0, 0.11)
  ]

  /** Artillery: metres to damage multiplier. */
  const ArtilleryDistanceModifiers: seq<Row> := [
    Row(200.0, 1.5), Row(400.0, 1.2), Row(600.0, 1.1), Row(800.0, 1.0),
    Row(1000.0, 0.9), Row(1200.0, 0.8), Row(1400.0, 0.7), Row(1600.0, 0.6),
    Row(1800.0, 0.5), Row(1900.0, 0.45), Row(2000.0, 0.4), Row(2100.0, 0.35),
    Row(2200.0, 0.3), Row(2300.0, 0.27), Row(2400.0, 0.24), Row(2600.0, 0.22),
    Row(2800.0, 0.20), Row(2900.0, 0.18), Row(3100.0, 0.16), Row(3300.0, 0.14),
    Row(3500.0, 0.12), Row(3600.0, 0.11), Row(3700.0, 0.10), Row(3800.0, 0.09),
    Row(3900.0, 0.08), Row(4000.0, 0.07), Row(4200.0, 0.06), Row(4300.0, 0.05),
    Row(4500.0, 0.03)
  ]

  /** `getUnitDistanceModifier(table, distance)`. */
  function GetUnitDistanceModifier(table: seq<Row>, distance: real): (r: real)
    requires |table| > 0 && Ascending(table)
    ensures distance <= table[0].key ==> r == table[0].value
    ensures distance >= Last(table).key && distance > table[0].key ==> r == Last(table).value
    ensures forall i :: 0 <= i < |table| - 1 && table[i].key <= distance <= table[i + 1].key ==>
              r == Interp(table[i], table[i + 1], distance)
    ensures NonIncreasing(table) ==> Last(table).value <= r <= table[0].value
  {
    LookupFacts(table, distance);
    Lookup(table, distance)
  }

  lemma LookupFacts(table: seq<Row>, x: real)
    requires |table| > 0 && Ascending(table)
    ensures forall i :: 0 <= i < |table| - 1 && table[i].key <= x <= table[i + 1].key ==>
              Lookup(table, x) == Interp(table[i], table[i + 1], x)
    ensures NonIncreasing(table) ==> Last(table).value <= Lookup(table, x) <= table[0].value
  {
    forall i | 0 <= i < |table| - 1 && table[i].key <= x <= table[i + 1].key
      ensures Lookup(table, x) == Interp(table[i], table[i + 1], x)
    {
      LookupInBracket(table, x, i);
    }
    if NonIncreasing(table) {
      LookupBounds(table, x);
    }
  }

  lemma DirectTableFalls()
    ensures Ascending(DistanceModifiers) && NonIncreasing(DistanceModifiers)
  {
    assert FallsFrom(DistanceModifiers, 5);
    assert FallsFrom(DistanceModifiers, 0);
    FallsSound(DistanceModifiers);
  }

  lemma ArtilleryTableFalls()
    ensures Ascending(ArtilleryDistanceModifiers) && NonIncreasing(ArtilleryDistanceModifiers)
  {
    var t := ArtilleryDistanceModifiers;
    assert FallsFrom(t, 24);
    assert FallsFrom(t, 20);
    assert FallsFrom(t, 16);
    assert FallsFrom(t, 12);
    assert FallsFrom(t, 8);
    assert FallsFrom(t, 4);
    assert FallsFrom(t, 0);
    FallsSound(t);
  }

  lemma ShippedTablesFall()
    ensures Ascending(DistanceModifiers) && NonIncreasing(DistanceModifiers)
    ensures Ascending(ArtilleryDistanceModifiers) && NonIncreasing(ArtilleryDistanceModifiers)
  {
    DirectTableFalls();
    ArtilleryTableFalls();
  }

  /** With either shipped table, a farther target never takes a larger multiplier. */
  lemma ShippedTablesMonotone(artillery: bool, near: real, far: real)
    requires near <= far
    ensures var t := if artillery then ArtilleryDistanceModifiers else DistanceModifiers;
            GetUnitDistanceModifier(t, near) >= GetUnitDistanceModifier(t, far)
  {
    ShippedTablesFall();
    var t := if artillery then ArtilleryDistanceModifiers else DistanceModifiers;
    LookupMonotone(t, near, far);
  }

  /** The direct-fire table stays between its last and first rows. */
  lemma DirectTableBounded(d: real)
    ensures 0.11 <= GetUnitDistanceModifier(DistanceModifiers, d) <= 1.6
  {
    DirectTableFalls();
    LookupBounds(DistanceModifiers, d);
  }

  /** The artillery table stays between its last and first rows. */
  lemma ArtilleryTableBounded(d: real)
    ensures 0.03 <= GetUnitDistanceModifier(ArtilleryDistanceModifiers, d) <= 1.5
  {
    ArtilleryTableFalls();
    LookupBounds(ArtilleryDistanceModifiers, d);
  }
}

module HeightModifier {
  import opened Piecewise
  import DistanceModifier
  import opened VecMath

  /** Absolute firing angle in degrees to damage multiplier. */
  const AngleTable: seq<Row> := [Row(0.0, 1.0), Row(5.0, 0.9), Row(10.0, 0.8), Row(15.0, 0.6)]

  /** An arctangent in degrees is odd: tilting the slope the other way flips the sign. */
  ghost predicate Odd(atanDeg: real -> real) {
    forall r :: atanDeg(-r) == -atanDeg(r)
  }

  /**
   * `getAngle(h1, h2, distance)`: the absolute angle between the attacker's and
   * the target's heights; `atanDeg` stands for `radToDeg(Math.atan(..))`.
   */
  function GetAngle(h1: real, h2: real, distance: real, atanDeg: real -> real): (r: real)
    ensures r >= 0.0
    ensures distance == 0.0 ==> r == 0.0
  {
    if distance == 0.0 then 0.0
    else Abs(atanDeg((h1 - h2) / distance))
  }

  /** Uphill and downhill shots are treated alike. */
  lemma AngleSymmetric(h1: real, h2: real, distance: real, atanDeg: real -> real)
    requires Odd(atanDeg)
    ensures GetAngle(h1, h2, distance, atanDeg) == GetAngle(h2, h1, distance, atanDeg)
  {
    if distance != 0.0 {
      assert (h2 - h1) / distance == -((h1 - h2) / distance);
    }
  }

  lemma AngleSymmetricIfOdd(h1: real, h2: real, distance: real, atanDeg: real -> real)
    ensures Odd(atanDeg) ==> GetAngle(h1, h2, distance, atanDeg) == GetAngle(h2, h1, distance, atanDeg)
  {
    if Odd(atanDeg) {
      AngleSymmetric(h1, h2, distance, atanDeg);
    }
  }

  lemma AngleTableFalls()
    ensures Ascending(AngleTable) && NonIncreasing(AngleTable)
  {
    assert FallsFrom(AngleTable, 0);
    FallsSound(AngleTable);
  }

  /** `getDamageModifier(angle)`. */
  function GetDamageModifier(angle: real): (r: real)
    ensures angle <= 0.0 ==> r == 1.0
    ensures angle >= 15.0 ==> r == 0.6
    ensures 0.6 <= r <= 1.0
    ensures forall i :: 0 <= i < 3 && AngleTable[i].key <= angle <= AngleTable[i + 1].key ==>
              r == Interp(AngleTable[i], AngleTable[i + 1], angle)
  {
    AngleTableFalls();
    DistanceModifier.LookupFacts(AngleTable, angle);
    Lookup(AngleTable, angle)
  }

  /** A steeper angle is never rewarded. */
  lemma DamageModifierMonotone(a1: real, a2: real)
    requires a1 <= a2
    ensures GetDamageModifier(a1) >= GetDamageModifier(a2)
  {
    AngleTableFalls();
    LookupMonotone(AngleTable, a1, a2);
  }

  lemma FlatGround(h1: real, h2: real, distance: real)
    ensures distance != 0.0 && h1 == h2 ==> (h1 - h2) / distance == 0.0
  {}

  /** `getDamageModifierByHeights`: a penalty in [0.6, 1] whichever way the slope runs. */
  function GetDamageModifierByHeights(h1: real, h2: real, distance: real, atanDeg: real -> real): (r: real)
    ensures 0.6 <= r <= 1.0
    ensures r == GetDamageModifier(GetAngle(h1, h2, distance, atanDeg))
    ensures Odd(atanDeg) ==> r == GetDamageModifier(GetAngle(h2, h1, distance, atanDeg))
    ensures h1 == h2 && atanDeg(0.0) == 0.0 ==> r == 1.0
    ensures distance == 0.0 ==> r == 1.0
  {
    FlatGround(h1, h2, distance);
    AngleSymmetricIfOdd(h1, h2, distance, atanDeg);
    GetDamageModifier(GetAngle(h1, h2, distance, atanDeg))
  }
}
