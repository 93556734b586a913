/**
 * The predicates behind the right-click context commands
 * (src/engine/input/unitContextCommands.ts): how many units lie under the
 * mouse, whether the selection is one team or all messengers, and
 * whether any selected unit can attack the unit under the mouse. The DOM
 * checks and the command dispatch are not modelled.
 */
module ContextCommands {
  import opened Wrappers
  import opened VecMath
  import opened Collections
  import opened Stats
  import opened Units
  import opened Registry

  /** The base pick radius in pixels, scaled by the unit-size setting. */
  const BasePickRadius: real := 15.0

  /** `unitPickRadius`: 15 times the unit-size setting, which defaults to 1. */
  function PickRadius(sizeSetting: Option<real>): (r: real)
    ensures sizeSetting.None? ==> r == BasePickRadius
    ensures sizeSetting.Some? ==> r == BasePickRadius * sizeSetting.value
  {
    BasePickRadius * sizeSetting.GetOr(1.0)
  }

  /** The unit's centre is within `radius` of `pos`, on the boundary included. */
  predicate Near(u: Unit, pos: Vec2, radius: real) {
    DistSq(u.pos, pos) <= radius * radius
  }

  /** The units among `us` near `pos`, dead ones included. */
  function CountNear(us: seq<Unit>, pos: Vec2, radius: real): (n: nat)
    ensures n <= |us|
  {
    if |us| == 0 then 0
    else CountNear(us[..|us| - 1], pos, radius) + (if Near(us[|us| - 1], pos, radius) then 1 else 0)
  }

  /** `countUnitsAt`: one pass over the registry counting the units near the point. */
  method CountUnitsAt(reg: Registry, pos: Vec2, radius: real) returns (n: nat)
    ensures n == CountNear(reg.units, pos, radius)
    ensures n <= |reg.units|
  {
    var r2 := radius * radius;
    n := 0;
    var i := 0;
    while i < |reg.units|
      invariant 0 <= i <= |reg.units|
      invariant n == CountNear(reg.units[..i], pos, radius)
    {
      var u := reg.units[i];
      var dx := u.pos.x - pos.x;
      var dy := u.pos.y - pos.y;
      assert dx * dx + dy * dy == DistSq(u.pos, pos);
      assert reg.units[..i + 1][..i] == reg.units[..i];
      if dx * dx + dy * dy <= r2 {
        n := n + 1;
      }
      i := i + 1;
    }
    assert reg.units[..i] == reg.units;
  }

  /** A larger radius never counts fewer units. */
  lemma {:induction false} CountNearMonotone(us: seq<Unit>, pos: Vec2, r1: real, r2: real)
    requires 0.0 <= r1 <= r2
    ensures CountNear(us, pos, r1) <= CountNear(us, pos, r2)
  {
    if |us| > 0 {
      CountNearMonotone(us[..|us| - 1], pos, r1, r2);
      assert r1 * r1 <= r2 * r2 by { SquareMono(r1, r2); }
    }
  }

  lemma SquareMono(a: real, b: real)
    requires 0.0 <= a <= b
    ensures a * a <= b * b
  {
    assert a * a <= a * b <= b * b;
  }

  /** Every unit is counted when none is farther than the radius. */
  lemma {:induction false} CountNearAll(us: seq<Unit>, pos: Vec2, radius: real)
    requires forall i :: 0 <= i < |us| ==> Near(us[i], pos, radius)
    ensures CountNear(us, pos, radius) == |us|
  {
    if |us| > 0 {
      CountNearAll(us[..|us| - 1], pos, radius);
    }
  }

  /**
   * `areSelectedUnitsSameTeam`: false for an empty selection; otherwise
   * whether every selected unit is on the first one's team, which is
   * whether all selected units share one team.
   */
  function SameTeam(reg: Registry): (r: bool)
    ensures var sel := GetSelected(reg);
            r <==> |sel| > 0 && forall i, j :: 0 <= i < |sel| && 0 <= j < |sel| ==> sel[i].team == sel[j].team
  {
    var sel := GetSelected(reg);
    |sel| > 0 && forall i :: 0 <= i < |sel| ==> sel[i].team == sel[0].team
  }

  /** `areSelectedUnitsAllMessengers`: false for an empty selection; otherwise whether every selected unit is a messenger. */
  function AllMessengers(reg: Registry): (r: bool)
    ensures r <==> |GetSelected(reg)| > 0 && forall u :: u in GetSelected(reg) ==> u.kind == Messenger
    ensures r ==> exists u :: u in reg.units && u.selected && Alive(u)
  {
    var sel := GetSelected(reg);
    var r := |sel| > 0 && forall i :: 0 <= i < |sel| ==> sel[i].kind == Messenger;
    assert r ==> sel[0] in reg.units;
    r
  }

  /** An attacker that could hit the target now: alive, not on timeout, another team, in range. */
  predicate CanHit(a: Unit, target: Unit) {
    Alive(a) && !a.isTimeout && a.team != target.team &&
    DistSq(target.pos, a.pos) <= Units.AttackRange(a) * Units.AttackRange(a)
  }

  /** The loop of `canAnySelectedUnitAttackTarget`: the first selected unit that can hit decides. */
  function AnyCanHit(sel: seq<Unit>, target: Unit): (r: bool)
    ensures r <==> exists i :: 0 <= i < |sel| && CanHit(sel[i], target)
  {
    if |sel| == 0 then false
    else if CanHit(sel[0], target) then true
    else
      var r := AnyCanHit(sel[1..], target);
      assert (exists i :: 0 <= i < |sel[1..]| && CanHit(sel[1..][i], target)) <==>
             (exists i :: 1 <= i < |sel| && CanHit(sel[i], target)) by {
        forall i | 1 <= i < |sel| ensures sel[i] == sel[1..][i - 1] { }
      }
      r
  }

  /**
   * `canAnySelectedUnitAttackTarget`: false for an empty selection, a dead
   * or timed-out target, or a selection of messengers only; otherwise
   * whether some selected unit can hit the target.
   */
  function CanAnySelectedAttack(reg: Registry, target: Unit): (r: bool)
    ensures r <==> |GetSelected(reg)| > 0 && Alive(target) && !target.isTimeout && !AllMessengers(reg) &&
                   exists u :: u in GetSelected(reg) && CanHit(u, target)
  {
    var sel := GetSelected(reg);
    if |sel| == 0 then false
    else if !Alive(target) || target.isTimeout then false
    else if forall i :: 0 <= i < |sel| ==> sel[i].kind == Messenger then false
    else AnyCanHit(sel, target)
  }

  /** No selected unit can attack a teammate of the whole selection. */
  lemma NoFriendlyAttack(reg: Registry, target: Unit)
    requires SameTeam(reg) && target.team == GetSelected(reg)[0].team
    ensures !CanAnySelectedAttack(reg, target)
  {
    var sel := GetSelected(reg);
    forall u | u in sel ensures !CanHit(u, target) {
      var i :| 0 <= i < |sel| && sel[i] == u;
      assert sel[i].team == sel[0].team;
    }
  }
}
